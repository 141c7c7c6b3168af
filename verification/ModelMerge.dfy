/** workers/aibom/merge.py: sightings of AI models merged by identity, then enriched from
    model cards. */
module ModelMerge {
  import opened Optional
  import opened Text
  import opened Order

  /** One dictionary: its text fields, its locations, and what enrichment adds. A field that
      is not in the map is empty. */
  datatype Model = Model(fields: map<string, string>, locations: seq<string>, enriched: bool, completeness: Option<int>)

  datatype Card = Card(facts: map<string, string>, revision: string, completeness: Option<int>)

  const USAGE_FIELDS: seq<string> := ["framework", "provider", "purl", "bom_ref"]

  const MODEL_FIELDS: seq<string> :=
    ["developer", "license", "model_type", "architectures", "datasets", "performance_metrics", "input_modality", "output_modality"]

  function Get(m: map<string, string>, k: string): string {
    if k in m then m[k] else ""
  }

  // ---- identity -------------------------------------------------------------------------

  /** Which fact a model is identified by. */
  datatype Identity = ByRef(s: string) | ByPurl(s: string) | ByName(s: string) | Unnamed

  function IdentityOf(m: Model): Identity {
    if Strip(Get(m.fields, "model_ref")) != "" then ByRef(Strip(Get(m.fields, "model_ref")))
    else if Strip(Get(m.fields, "purl")) != "" then ByPurl(Strip(Get(m.fields, "purl")))
    else if Strip(Get(m.fields, "name")) != "" then ByName(Lower(Strip(Get(m.fields, "name"))))
    else Unnamed
  }

  function KeyOf(id: Identity): string {
    match id
    case ByRef(s) => s
    case ByPurl(s) => s
    case ByName(s) => "name:" + s
    case Unnamed => "name:<unnamed>"
  }

  /** `identity`. */
  function Key(m: Model): string {
    KeyOf(IdentityOf(m))
  }

  /** The name-scoped key is not free of collisions. Two different identities share a key
      exactly when a reference or package URL is spelled as the other's key: equal texts, a
      text that starts with `name:`, or a model named `<unnamed>`. */
  lemma CollidesExactly(a: Identity, b: Identity)
    requires a != b
    ensures KeyOf(a) == KeyOf(b) <==>
      || (a.ByRef? && b.ByPurl? && a.s == b.s) || (b.ByRef? && a.ByPurl? && a.s == b.s)
      || ((a.ByRef? || a.ByPurl?) && b.ByName? && a.s == "name:" + b.s)
      || ((b.ByRef? || b.ByPurl?) && a.ByName? && b.s == "name:" + a.s)
      || ((a.ByRef? || a.ByPurl?) && b.Unnamed? && a.s == "name:<unnamed>")
      || ((b.ByRef? || b.ByPurl?) && a.Unnamed? && b.s == "name:<unnamed>")
      || (a.ByName? && b.Unnamed? && a.s == "<unnamed>") || (b.ByName? && a.Unnamed? && b.s == "<unnamed>")
  {
    var prefix := "name:";
    if a.ByName? {
      assert (prefix + a.s)[5..] == a.s;
    }
    if b.ByName? {
      assert (prefix + b.s)[5..] == b.s;
    }
    assert "name:<unnamed>"[5..] == "<unnamed>" && "name:<unnamed>" == prefix + "<unnamed>";
  }

  // ---- the same, from the fields ----------------------------------------------------------

  function RefOf(m: Model): string {
    Strip(Get(m.fields, "model_ref"))
  }

  function PurlOf(m: Model): string {
    Strip(Get(m.fields, "purl"))
  }

  /** What a model is called if nothing better is known. */
  function CalledAs(m: Model): string {
    if Strip(Get(m.fields, "name")) == "" then "<unnamed>" else Strip(Get(m.fields, "name"))
  }

  /** A reference or, without one, a package URL. */
  predicate Linked(m: Model) {
    RefOf(m) != "" || PurlOf(m) != ""
  }

  function LinkOf(m: Model): string {
    if RefOf(m) != "" then RefOf(m) else PurlOf(m)
  }

  /** Two sightings are of one model: by what they link to, whatever they are called; without any
      link by what they are called, whatever the case; and a link that is spelled as the key of a
      name counts as that name. */
  ghost predicate SameModel(a: Model, b: Model) {
    if Linked(a) && Linked(b) then LinkOf(a) == LinkOf(b)
    else if !Linked(a) && !Linked(b) then SameButCase(CalledAs(a), CalledAs(b))
    else if Linked(a) then LinkOf(a) == "name:" + Lower(CalledAs(b))
    else LinkOf(b) == "name:" + Lower(CalledAs(a))
  }

  /** Two sightings share a key exactly when they are of one model. With references on both sides
      that means equal references, whatever package URL and name say; with package URLs only,
      equal package URLs, whatever the names say; with names only, equal names but for case. */
  lemma SameModelExactly(a: Model, b: Model)
    ensures Key(a) == Key(b) <==> SameModel(a, b)
    ensures RefOf(a) != "" && RefOf(b) != "" ==> (Key(a) == Key(b) <==> RefOf(a) == RefOf(b))
    ensures RefOf(a) == RefOf(b) == "" && PurlOf(a) != "" && PurlOf(b) != "" ==> (Key(a) == Key(b) <==> PurlOf(a) == PurlOf(b))
    ensures !Linked(a) && !Linked(b) ==> (Key(a) == Key(b) <==> SameButCase(CalledAs(a), CalledAs(b)))
  {
    var prefix := "name:";
    KeyOfUnlinked(a);
    KeyOfUnlinked(b);
    var x, y := Lower(CalledAs(a)), Lower(CalledAs(b));
    assert (prefix + x)[5..] == x && (prefix + y)[5..] == y;
    LowerSame(CalledAs(a), CalledAs(b));
  }

  lemma KeyOfUnlinked(m: Model)
    ensures !Linked(m) ==> Key(m) == "name:" + Lower(CalledAs(m))
  {
    assert Lower("<unnamed>") == "<unnamed>" && "name:<unnamed>" == "name:" + "<unnamed>";
  }

  function Named(name: string): Model {
    Model(map["name" := name], [], false, None)
  }

  /** A model that is called `<unnamed>` is merged with those that have no name. */
  lemma UnnamedCollision()
    ensures Key(Named("<unnamed>")) == Key(Named("")) && IdentityOf(Named("<unnamed>")) != IdentityOf(Named(""))
  {
    assert Trimmed("<unnamed>");
    StripOfTrimmed("<unnamed>");
    assert Lower("<unnamed>") == "<unnamed>";
  }

  // ---- merging, one sighting at a time ------------------------------------------------------

  function Fill(fields: map<string, string>, k: string, v: string): map<string, string> {
    if Get(fields, k) == "" && v != "" then fields[k := v] else fields
  }

  /** `_absorb_usage`. */
  function Absorb(t: Model, o: Model): Model {
    t.(locations := SortedSet(t.locations + o.locations),
       fields := Fill(Fill(t.fields, "framework", Get(o.fields, "framework")), "provider", Get(o.fields, "provider")))
  }

  /** The insertion-ordered dictionary `merged`. */
  datatype Merged = Merged(keys: seq<string>, at: map<string, Model>)

  function Merging(ds: seq<Model>): (r: Merged)
    ensures forall k :: k in r.keys <==> k in r.at
  {
    if ds == [] then Merged([], map[])
    else
      var before := Merging(ds[..|ds| - 1]);
      var found := ds[|ds| - 1];
      var k := Key(found);
      if k in before.at then before.(at := before.at[k := Absorb(before.at[k], found)])
      else Merged(before.keys + [k], before.at[k := found])
  }

  // ---- the same, as grouping --------------------------------------------------------------------

  /** The sightings with this key, in order. */
  function Group(ds: seq<Model>, k: string): seq<Model> {
    if ds == [] then []
    else Group(ds[..|ds| - 1], k) + if Key(ds[|ds| - 1]) == k then [ds[|ds| - 1]] else []
  }

  lemma {:induction false} InGroup(ds: seq<Model>, k: string, m: Model)
    ensures m in Group(ds, k) <==> m in ds && Key(m) == k
    decreases |ds|
  {
    if ds != [] {
      InGroup(ds[..|ds| - 1], k, m);
      assert ds == ds[..|ds| - 1] + [ds[|ds| - 1]];
    }
  }

  /** The sightings of a group are all those of one model, and of no other. */
  lemma {:induction false} GroupIsOneModel(ds: seq<Model>, k: string, a: Model, b: Model)
    requires a in Group(ds, k) && b in ds
    ensures b in Group(ds, k) <==> SameModel(a, b)
  {
    InGroup(ds, k, a);
    InGroup(ds, k, b);
    SameModelExactly(a, b);
  }

  function AllLocations(g: seq<Model>): seq<string> {
    if g == [] then [] else AllLocations(g[..|g| - 1]) + g[|g| - 1].locations
  }

  function FirstFilled(g: seq<Model>, k: string): string {
    if g == [] then ""
    else
      var earlier := FirstFilled(g[..|g| - 1], k);
      if earlier != "" then earlier else Get(g[|g| - 1].fields, k)
  }

  /** What a group of sightings of one model amounts to. */
  function Combined(g: seq<Model>): Model
    requires g != []
  {
    if |g| == 1 then g[0]
    else
      g[0].(locations := SortedSet(AllLocations(g)),
            fields := Fill(Fill(g[0].fields, "framework", FirstFilled(g, "framework")), "provider", FirstFilled(g, "provider")))
  }

  /** x is what the first sighting that says anything about k says, or nothing. */
  ghost predicate FirstSaid(x: string, g: seq<Model>, k: string) {
    if exists i :: 0 <= i < |g| && Get(g[i].fields, k) != ""
    then exists i :: 0 <= i < |g| && x == Get(g[i].fields, k) != "" && forall j :: 0 <= j < i ==> Get(g[j].fields, k) == ""
    else x == ""
  }

  lemma {:induction false} FirstFilledIsSaid(g: seq<Model>, k: string)
    ensures FirstSaid(FirstFilled(g, k), g, k)
    decreases |g|
  {
    if g != [] {
      var init, n := g[..|g| - 1], |g| - 1;
      FirstFilledIsSaid(init, k);
      assert forall i :: 0 <= i < n ==> init[i] == g[i];
      if FirstFilled(init, k) != "" {
        var i :| 0 <= i < n && FirstFilled(init, k) == Get(init[i].fields, k) != "" && forall j :: 0 <= j < i ==> Get(init[j].fields, k) == "";
        assert Get(g[i].fields, k) != "";
      } else {
        assert forall i :: 0 <= i < n ==> Get(init[i].fields, k) == "";
      }
    }
  }

  /** What becomes of a group, field by field: framework and provider are the first ones said, the
      rest is the first sighting's. */
  lemma CombinedReads(g: seq<Model>, k: string)
    requires g != []
    ensures if k == "framework" || k == "provider" then FirstSaid(Get(Combined(g).fields, k), g, k)
            else Get(Combined(g).fields, k) == Get(g[0].fields, k)
    ensures Combined(g).enriched == g[0].enriched && Combined(g).completeness == g[0].completeness
    ensures |g| == 1 ==> Combined(g).locations == g[0].locations
  {
    FirstFilledIsSaid(g, k);
    if Get(g[0].fields, k) != "" {
      OwnIsFirst(g, k);
    }
    FillReads(g[0].fields, FirstFilled(g, "framework"), FirstFilled(g, "provider"), k);
    hide FirstFilled, FirstSaid, Fill, Get;
    if |g| == 1 {
      AloneSays(g, k);
    }
  }

  /** What the first sighting says stands. */
  lemma OwnIsFirst(g: seq<Model>, k: string)
    requires g != [] && Get(g[0].fields, k) != ""
    ensures FirstSaid(Get(g[0].fields, k), g, k)
  {
  }

  lemma AloneSays(g: seq<Model>, k: string)
    requires |g| == 1
    ensures FirstSaid(Get(g[0].fields, k), g, k)
  {
  }

  lemma FillReads(fields: map<string, string>, framework: string, provider: string, k: string)
    ensures Get(Fill(Fill(fields, "framework", framework), "provider", provider), k) ==
      if Get(fields, k) != "" then Get(fields, k)
      else if k == "framework" then framework else if k == "provider" then provider else ""
  {
    assert |"framework"| == 9 && |"provider"| == 8;
  }

  /** Where this key is first seen; |ds| if it is not. */
  function FirstIndex(ds: seq<Model>, k: string): (i: nat)
    ensures i <= |ds|
    ensures i < |ds| ==> Key(ds[i]) == k
    ensures forall j :: 0 <= j < i ==> Key(ds[j]) != k
  {
    if ds == [] then 0
    else if Key(ds[0]) == k then 0
    else
      var rest := FirstIndex(ds[1..], k);
      assert forall j :: 1 <= j < rest + 1 ==> ds[j] == ds[1..][j - 1];
      1 + rest
  }

  /** Every identity once, in the order in which they first appear. */
  ghost predicate FirstSeen(keys: seq<string>, ds: seq<Model>) {
    && (forall i :: 0 <= i < |ds| ==> Key(ds[i]) in keys)
    && (forall i :: 0 <= i < |keys| ==> FirstIndex(ds, keys[i]) < |ds|)
    && (forall i, j :: 0 <= i < j < |keys| ==> FirstIndex(ds, keys[i]) < FirstIndex(ds, keys[j]))
  }

  lemma FirstIndexIs(ds: seq<Model>, k: string, i: nat)
    requires i <= |ds| && (i < |ds| ==> Key(ds[i]) == k) && forall j :: 0 <= j < i ==> Key(ds[j]) != k
    ensures FirstIndex(ds, k) == i
  {
    hide Key;
    var j := FirstIndex(ds, k);
    assert j < |ds| ==> Key(ds[j]) == k;
  }

  lemma FirstIndexSnoc(ds: seq<Model>, d: Model, k: string)
    ensures FirstIndex(ds + [d], k) ==
      if FirstIndex(ds, k) < |ds| then FirstIndex(ds, k) else if Key(d) == k then |ds| else |ds| + 1
  {
    hide Key;
    var i := FirstIndex(ds, k);
    FirstIndexIs(ds + [d], k, if i < |ds| then i else if Key(d) == k then |ds| else |ds| + 1);
  }

  lemma FillTwice(fields: map<string, string>, a: string, b: string, c: string, d: string)
    ensures Fill(Fill(Fill(Fill(fields, "framework", a), "provider", b), "framework", c), "provider", d)
         == Fill(Fill(fields, "framework", if a != "" then a else c), "provider", if b != "" then b else d)
  {
    assert |"framework"| == 9 && |"provider"| == 8;
    var x := if a != "" then a else c;
    FillSwap(Fill(fields, "framework", a), b, c);
    FillAgain(fields, "framework", a, c);
    FillAgain(Fill(fields, "framework", x), "provider", b, d);
  }

  lemma FillAgain(fields: map<string, string>, k: string, a: string, c: string)
    ensures Fill(Fill(fields, k, a), k, c) == Fill(fields, k, if a != "" then a else c)
  {
  }

  lemma FillSwap(fields: map<string, string>, b: string, c: string)
    ensures Fill(Fill(fields, "provider", b), "framework", c) == Fill(Fill(fields, "framework", c), "provider", b)
  {
    assert |"framework"| == 9 && |"provider"| == 8;
    if Get(fields, "provider") == "" && b != "" && Get(fields, "framework") == "" && c != "" {
      assert fields["provider" := b]["framework" := c] == fields["framework" := c]["provider" := b];
    }
  }

  /** Folding one more sighting in extends the group by it. */
  lemma CombinedSnoc(g: seq<Model>, d: Model)
    requires g != []
    ensures Combined(g + [d]) == Absorb(Combined(g), d)
  {
    hide Fill, SortedSet, Get;
    var h := g + [d];
    assert h[..|h| - 1] == g && h[|h| - 1] == d;
    assert AllLocations(h) == AllLocations(g) + d.locations;
    if |g| == 1 {
      assert g[..0] == [];
      assert AllLocations(g) == g[0].locations;
      assert FirstFilled(g, "framework") == Get(g[0].fields, "framework");
      assert FirstFilled(g, "provider") == Get(g[0].fields, "provider");
      assert FirstFilled(h, "framework") == if FirstFilled(g, "framework") != "" then FirstFilled(g, "framework") else Get(d.fields, "framework");
      assert FirstFilled(h, "provider") == if FirstFilled(g, "provider") != "" then FirstFilled(g, "provider") else Get(d.fields, "provider");
      assert h[0] == g[0];
      FilledOnce(g[0].fields, Get(d.fields, "framework"), Get(d.fields, "provider"));
    } else {
      CombineLocations(AllLocations(g), d.locations);
      FillTwice(g[0].fields, FirstFilled(g, "framework"), FirstFilled(g, "provider"),
        Get(d.fields, "framework"), Get(d.fields, "provider"));
    }
  }

  /** A field that is filled already stays, so the first sighting's own value may stand first. */
  lemma FilledOnce(fields: map<string, string>, a: string, b: string)
    ensures
      var f, p := Get(fields, "framework"), Get(fields, "provider");
      Fill(Fill(fields, "framework", a), "provider", b)
      == Fill(Fill(fields, "framework", if f != "" then f else a), "provider", if p != "" then p else b)
  {
    assert |"framework"| == 9 && |"provider"| == 8;
  }

  /** Sorting a union again adds nothing. */
  lemma CombineLocations(a: seq<string>, b: seq<string>)
    ensures SortedSet(SortedSet(a) + b) == SortedSet(a + b)
  {
    SortedSetIsSorted(a);
    UnionElements(SortedSet(a), b);
    UnionElements(a, b);
    SortedSetOf(SortedSet(a) + b, a + b);
  }

  lemma UnionElements(a: seq<string>, b: seq<string>)
    ensures Elements(a + b) == Elements(a) + Elements(b)
  {
  }

  ghost predicate GroupedBy(r: Merged, ds: seq<Model>) {
    && FirstSeen(r.keys, ds)
    && forall k :: k in r.at ==> Group(ds, k) != [] && r.at[k] == Combined(Group(ds, k))
  }

  /** The incremental merge is grouping by identity: one model per identity in first-seen
      order, each what its whole group amounts to. */
  lemma {:induction false} MergeIsGroupBy(ds: seq<Model>)
    ensures GroupedBy(Merging(ds), ds)
    ensures |Merging(ds).keys| <= |ds|
    decreases |ds|
  {
    if ds != [] {
      var init, d := ds[..|ds| - 1], ds[|ds| - 1];
      assert ds == init + [d];
      MergeIsGroupBy(init);
      GroupedSnoc(init, d);
    }
  }

  lemma {:induction false} GroupedSnoc(init: seq<Model>, d: Model)
    requires GroupedBy(Merging(init), init)
    ensures GroupedBy(Merging(init + [d]), init + [d])
    ensures |Merging(init + [d]).keys| <= |Merging(init).keys| + 1
  {
    hide Key, Absorb, Combined, FirstIndex, FirstSeen, Group, Merging;
    KeysSnoc(init, d);
    var r := Merging(init + [d]);
    forall k | k in r.at ensures Group(init + [d], k) != [] && r.at[k] == Combined(Group(init + [d], k)) {
      GroupSnoc(init, d, k);
    }
  }

  lemma {:induction false} GroupSnoc(init: seq<Model>, d: Model, k: string)
    requires forall k :: k in Merging(init).at ==> Group(init, k) != [] && Merging(init).at[k] == Combined(Group(init, k))
    requires Key(d) in Merging(init).at <==> exists i :: 0 <= i < |init| && Key(init[i]) == Key(d)
    requires k in Merging(init + [d]).at
    ensures Group(init + [d], k) != [] && Merging(init + [d]).at[k] == Combined(Group(init + [d], k))
  {
    hide Key, Absorb, Combined;
    var ds := init + [d];
    assert ds[..|ds| - 1] == init && ds[|ds| - 1] == d;
    if k == Key(d) {
      if k in Merging(init).at {
        CombinedSnoc(Group(init, k), d);
      } else {
        NotSeenNoGroup(init, k);
        assert Group(ds, k) == [d];
        AloneIsItself(d);
      }
    } else {
      assert Group(ds, k) == Group(init, k) + [] == Group(init, k);
    }
  }

  lemma AloneIsItself(d: Model)
    ensures Combined([d]) == d
  {
  }

  lemma {:induction false} NotSeenNoGroup(ds: seq<Model>, k: string)
    requires forall i :: 0 <= i < |ds| ==> Key(ds[i]) != k
    ensures Group(ds, k) == []
    decreases |ds|
  {
    if ds != [] {
      NotSeenNoGroup(ds[..|ds| - 1], k);
    }
  }

  lemma {:induction false} KeysSnoc(init: seq<Model>, d: Model)
    requires FirstSeen(Merging(init).keys, init)
    ensures FirstSeen(Merging(init + [d]).keys, init + [d])
    ensures |Merging(init + [d]).keys| <= |Merging(init).keys| + 1
    ensures Key(d) in Merging(init).at <==> exists i :: 0 <= i < |init| && Key(init[i]) == Key(d)
  {
    hide Key, Absorb;
    var ds, was := init + [d], Merging(init).keys;
    assert ds[..|ds| - 1] == init && ds[|ds| - 1] == d;
    if Key(d) in was {
      var i :| 0 <= i < |was| && was[i] == Key(d);
      assert Key(init[FirstIndex(init, was[i])]) == Key(d);
      SameKeysSeen(was, init, d);
    } else {
      NewKeySeen(was, init, d);
    }
  }

  lemma {:induction false} SameKeysSeen(keys: seq<string>, init: seq<Model>, d: Model)
    requires FirstSeen(keys, init) && Key(d) in keys
    ensures FirstSeen(keys, init + [d])
  {
    hide Key;
    forall i | 0 <= i < |keys| ensures FirstIndex(init + [d], keys[i]) == FirstIndex(init, keys[i]) {
      FirstIndexSnoc(init, d, keys[i]);
    }
  }

  lemma {:induction false} NewKeySeen(keys: seq<string>, init: seq<Model>, d: Model)
    requires FirstSeen(keys, init) && Key(d) !in keys
    ensures FirstSeen(keys + [Key(d)], init + [d])
  {
    hide Key;
    forall i | 0 <= i < |keys| ensures FirstIndex(init + [d], keys[i]) == FirstIndex(init, keys[i]) {
      FirstIndexSnoc(init, d, keys[i]);
    }
    assert forall i :: 0 <= i < |init| ==> Key(init[i]) in keys;
    FirstIndexIs(init, Key(d), |init|);
    FirstIndexSnoc(init, d, Key(d));
    var all := keys + [Key(d)];
    assert all[|keys|] == Key(d);
    assert forall k :: k in keys ==> k in all;
  }

  /** A repeated model's locations are the sorted union of all of them, and do not depend on
      the order in which they were sighted. */
  lemma LocationsOrderFree(g: seq<Model>, h: seq<Model>)
    requires |g| > 1 && multiset(g) == multiset(h)
    ensures Combined(g).locations == Combined(h).locations
    ensures Sorted(Combined(g).locations)
    ensures forall x :: x in Combined(g).locations <==> exists m :: m in g && x in m.locations
  {
    assert |g| == |multiset(g)| == |multiset(h)| == |h|;
    LocationsOf(g);
    LocationsOf(h);
    assert forall m :: m in g <==> m in h by {
      assert forall m :: m in g <==> m in multiset(g);
      assert forall m :: m in h <==> m in multiset(h);
    }
    assert Elements(AllLocations(g)) == Elements(AllLocations(h));
    SortedSetOf(AllLocations(g), AllLocations(h));
    SortedSetIsSorted(AllLocations(g));
    assert forall x :: x in SortedSet(AllLocations(g)) <==> x in Elements(SortedSet(AllLocations(g)));
  }

  lemma {:induction false} LocationsOf(g: seq<Model>)
    ensures forall x :: x in AllLocations(g) <==> exists m :: m in g && x in m.locations
    decreases |g|
  {
    if g != [] {
      LocationsOf(g[..|g| - 1]);
      assert g == g[..|g| - 1] + [g[|g| - 1]];
    }
  }

  // ---- cards ---------------------------------------------------------------------------------

  function Layer(fields: map<string, string>, facts: map<string, string>, names: seq<string>): map<string, string> {
    if names == [] then fields
    else
      var before := Layer(fields, facts, names[..|names| - 1]);
      var k := names[|names| - 1];
      if Get(facts, k) != "" then before[k := Get(facts, k)] else before
  }

  /** `_apply_card`. */
  function WithCard(m: Model, c: Card): Model {
    var layered := Layer(m.fields, c.facts, MODEL_FIELDS);
    Model(Fill(layered, "version", c.revision), m.locations, true,
          if c.completeness.Some? then c.completeness else m.completeness)
  }

  lemma {:induction false} LayerReads(fields: map<string, string>, facts: map<string, string>, names: seq<string>, k: string)
    ensures Get(Layer(fields, facts, names), k) == if k in names && Get(facts, k) != "" then Get(facts, k) else Get(fields, k)
    decreases |names|
  {
    if names != [] {
      LayerReads(fields, facts, names[..|names| - 1], k);
      assert names == names[..|names| - 1] + [names[|names| - 1]];
    }
  }

  /** Whatever a card says, every usage fact stays; model facts come from the card where it
      has one; a version only where discovery had none; nothing else changes. */
  lemma CardsKeepUsage(m: Model, c: Card, k: string)
    ensures WithCard(m, c).locations == m.locations && WithCard(m, c).enriched
    ensures WithCard(m, c).completeness == if c.completeness.Some? then c.completeness else m.completeness
    ensures Get(WithCard(m, c).fields, k) ==
      if k in MODEL_FIELDS && Get(c.facts, k) != "" then Get(c.facts, k)
      else if k == "version" && Get(m.fields, k) == "" then c.revision
      else Get(m.fields, k)
    ensures k in USAGE_FIELDS ==> Get(WithCard(m, c).fields, k) == Get(m.fields, k)
  {
    LayerReads(m.fields, c.facts, MODEL_FIELDS, k);
    LayerReads(m.fields, c.facts, MODEL_FIELDS, "version");
    NotModelFields();
  }

  lemma NotModelFields()
    ensures "version" !in MODEL_FIELDS && forall k :: k in USAGE_FIELDS ==> k !in MODEL_FIELDS && k != "version"
  {
    forall k | k in USAGE_FIELDS || k == "version" ensures k !in MODEL_FIELDS {
      assert k == "framework" || k == "provider" || k == "purl" || k == "bom_ref" || k == "version";
      var i := if k == "framework" then 'f' else if k == "provider" || k == "purl" then 'p' else if k == "bom_ref" then 'b' else 'v';
      assert k[0] == i;
      assert MODEL_FIELDS[5] == "performance_metrics" && |MODEL_FIELDS[5]| == 19 && |k| < 19;
    }
  }

  function CardFor(cards: map<string, Card>, key: string, m: Model): Option<Card> {
    if Get(m.fields, "model_ref") in cards then Some(cards[Get(m.fields, "model_ref")])
    else if key in cards then Some(cards[key])
    else None
  }

  /** A card is looked up by the reference as it is written, and only then by the key. */
  lemma CardChosen(cards: map<string, Card>, key: string, m: Model, ref: string)
    requires ref == Get(m.fields, "model_ref")
    ensures ref in cards ==> Enriched(cards, key, m) == WithCard(m, cards[ref])
    ensures ref !in cards && key in cards ==> Enriched(cards, key, m) == WithCard(m, cards[key])
    ensures ref !in cards && key !in cards ==> Enriched(cards, key, m) == m
  {
  }

  function Enriched(cards: map<string, Card>, key: string, m: Model): Model {
    match CardFor(cards, key, m)
    case None => m
    case Some(c) => WithCard(m, c)
  }

  // ---- merge, on dictionaries -----------------------------------------------------------------

  class Entry {
    var fields: map<string, string>
    var locations: seq<string>
    var enriched: bool
    var completeness: Option<int>

    /** `dict(found)`. */
    constructor (m: Model)
      ensures Value() == m
    {
      fields, locations, enriched, completeness := m.fields, m.locations, m.enriched, m.completeness;
    }

    function Value(): Model
      reads this
    {
      Model(fields, locations, enriched, completeness)
    }

    method AbsorbUsage(other: Entry)
      modifies this
      ensures Value() == Absorb(old(Value()), old(other.Value()))
    {
      var theirs := other.fields;
      locations := SortedSet(locations + other.locations);
      fields := Fill(fields, "framework", Get(theirs, "framework"));
      fields := Fill(fields, "provider", Get(theirs, "provider"));
    }

    method ApplyCard(card: Card)
      modifies this
      ensures Value() == WithCard(old(Value()), card)
    {
      for i := 0 to |MODEL_FIELDS|
        invariant fields == Layer(old(fields), card.facts, MODEL_FIELDS[..i])
        invariant locations == old(locations) && enriched == old(enriched) && completeness == old(completeness)
      {
        assert MODEL_FIELDS[..i + 1][..i] == MODEL_FIELDS[..i];
        if Get(card.facts, MODEL_FIELDS[i]) != "" {
          fields := fields[MODEL_FIELDS[i] := Get(card.facts, MODEL_FIELDS[i])];
        }
      }
      assert MODEL_FIELDS[..|MODEL_FIELDS|] == MODEL_FIELDS;
      fields := Fill(fields, "version", card.revision);
      enriched := true;
      if card.completeness.Some? {
        completeness := card.completeness;
      }
    }
  }

  ghost function Contents(es: seq<Entry>): (r: seq<Model>)
    reads es
    ensures |r| == |es| && forall i :: 0 <= i < |es| ==> r[i] == es[i].Value()
  {
    seq(|es|, i requires 0 <= i < |es| reads es => es[i].Value())
  }

  /** The dictionaries in `merged` are objects of their own and hold what the fold holds. */
  ghost predicate Holds(merged: map<string, Entry>, r: Merged)
    reads merged.Values
  {
    && (forall k :: k in merged <==> k in r.at)
    && (forall k :: k in merged ==> merged[k].Value() == r.at[k])
    && forall j, k :: j in merged && k in merged && j != k ==> merged[j] != merged[k]
  }

  method MergeSightings(discovered: seq<Entry>) returns (keys: seq<string>, merged: map<string, Entry>)
    ensures keys == Merging(Contents(discovered)).keys
    ensures Holds(merged, Merging(Contents(discovered)))
    ensures forall k :: k in merged ==> fresh(merged[k])
  {
    hide Key, Absorb, Holds, Merging;
    NothingMerged();
    assert Contents(discovered)[..0] == [];
    keys, merged := [], map[];
    ghost var ds := Contents(discovered);
    for i := 0 to |discovered|
      invariant Contents(discovered) == ds
      invariant keys == Merging(ds[..i]).keys && Holds(merged, Merging(ds[..i]))
      invariant forall k :: k in merged ==> fresh(merged[k])
    {
      MergingNext(ds, i);
      var found := discovered[i];
      var key := Key(found.Value());
      assert found.Value() == ds[i];
      HoldsSameKeys(merged, Merging(ds[..i]));
      if key in merged {
        AbsorbInto(merged, key, found, Merging(ds[..i]));
      } else {
        merged := AddCopy(merged, key, found, Merging(ds[..i]));
        keys := keys + [key];
      }
    }
    assert ds[..|discovered|] == ds;
  }

  lemma NothingMerged()
    ensures Merging([]) == Merged([], map[]) && Holds(map[], Merging([]))
  {
  }

  lemma {:induction false} MergingNext(ds: seq<Model>, i: nat)
    requires i < |ds|
    ensures
      var before, k := Merging(ds[..i]), Key(ds[i]);
      Merging(ds[..i + 1]) ==
        if k in before.at then before.(at := before.at[k := Absorb(before.at[k], ds[i])])
        else Merged(before.keys + [k], before.at[k := ds[i]])
  {
    assert ds[..i + 1][..i] == ds[..i];
  }

  lemma HoldsSameKeys(merged: map<string, Entry>, r: Merged)
    requires Holds(merged, r)
    ensures forall k :: k in merged <==> k in r.at
  {
  }

  method AbsorbInto(merged: map<string, Entry>, key: string, found: Entry, ghost r: Merged)
    requires Holds(merged, r) && key in merged && found !in merged.Values
    modifies merged[key]
    ensures Holds(merged, r.(at := r.at[key := Absorb(r.at[key], found.Value())]))
  {
    hide Absorb;
    merged[key].AbsorbUsage(found);
    assert forall k :: k in merged && k != key ==> merged[k] != merged[key];
  }

  method AddCopy(merged: map<string, Entry>, key: string, found: Entry, ghost r: Merged) returns (merged': map<string, Entry>)
    requires Holds(merged, r) && key !in merged
    ensures Holds(merged', Merged(r.keys + [key], r.at[key := found.Value()]))
    ensures key in merged' && fresh(merged'[key]) && merged' == merged[key := merged'[key]]
  {
    var copy := new Entry(found.Value());
    merged' := merged[key := copy];
    assert forall k :: k in merged ==> merged[k] != copy;
  }

  /** One model per identity in first-seen order: its group combined and enriched. */
  ghost predicate OnePerIdentity(out: seq<Model>, ds: seq<Model>, cards: map<string, Card>) {
    var keys := Merging(ds).keys;
    && FirstSeen(keys, ds) && |out| == |keys| <= |ds|
    && forall i :: 0 <= i < |keys| ==>
         Group(ds, keys[i]) != [] && out[i] == Enriched(cards, keys[i], Combined(Group(ds, keys[i])))
         && forall a, b :: a in Group(ds, keys[i]) && b in ds ==> (b in Group(ds, keys[i]) <==> SameModel(a, b))
  }

  lemma {:induction false} EnrichedGroups(out: seq<Model>, ds: seq<Model>, cards: map<string, Card>)
    requires |out| == |Merging(ds).keys|
    requires forall i :: 0 <= i < |out| ==>
      out[i] == Enriched(cards, Merging(ds).keys[i], Merging(ds).at[Merging(ds).keys[i]])
    ensures OnePerIdentity(out, ds, cards)
  {
    hide Merging, Enriched, Combined, Group, FirstIndex, FirstSeen;
    MergeIsGroupBy(ds);
    hide SameModel;
    forall i | 0 <= i < |out| ensures Merging(ds).keys[i] in Merging(ds).at {}
    forall k, a, b | a in Group(ds, k) && b in ds ensures b in Group(ds, k) <==> SameModel(a, b) {
      GroupIsOneModel(ds, k, a, b);
    }
  }

  /** `merge`: fresh models; the number of duplicates, if there are any; and the dictionaries
      passed in untouched. */
  method Merge(discovered: seq<Entry>, cards: map<string, Card>) returns (models: seq<Entry>, duplicates: Option<nat>)
    ensures fresh(models) && Contents(discovered) == old(Contents(discovered))
    ensures OnePerIdentity(Contents(models), Contents(discovered), cards)
    ensures duplicates == if |discovered| > |models| then Some(|discovered| - |models|) else None
  {
    hide Key, Absorb, Merging, Enriched, Holds, OnePerIdentity, Entry.Value, CardFor;
    var keys, merged := MergeSightings(discovered);
    ghost var ds := Contents(discovered);
    KeysDistinct(ds);
    HoldsSameKeys(merged, Merging(ds));
    models := EnrichAll(keys, merged, cards, Merging(ds));
    duplicates := if |discovered| > |merged.Keys| then Some(|discovered| - |merged.Keys|) else None;
    MergedSize(keys, merged);
    ghost var out := Contents(models);
    assert forall i :: 0 <= i < |out| ==> out[i] == models[i].Value();
    EnrichedGroups(out, ds, cards);
  }

  /** The second loop: a card for whoever has one. */
  method EnrichAll(keys: seq<string>, merged: map<string, Entry>, cards: map<string, Card>, ghost r: Merged)
    returns (models: seq<Entry>)
    requires Holds(merged, r) && forall j :: 0 <= j < |keys| ==> keys[j] in merged
    requires forall i, j :: 0 <= i < j < |keys| ==> keys[i] != keys[j]
    modifies merged.Values
    ensures |models| == |keys| && forall j :: 0 <= j < |keys| ==>
      models[j] == merged[keys[j]] && models[j].Value() == Enriched(cards, keys[j], r.at[keys[j]])
  {
    hide WithCard;
    models := [];
    for i := 0 to |keys|
      invariant |models| == i && forall j :: 0 <= j < i ==> models[j] == merged[keys[j]]
      invariant forall j :: 0 <= j < i ==> merged[keys[j]].Value() == Enriched(cards, keys[j], r.at[keys[j]])
      invariant forall j :: i <= j < |keys| ==> merged[keys[j]].Value() == r.at[keys[j]]
    {
      var model := merged[keys[i]];
      assert forall j :: 0 <= j < |keys| && j != i ==> merged[keys[j]] != model;
      var card := CardFor(cards, keys[i], model.Value());
      if card.Some? {
        model.ApplyCard(card.value);
      }
      models := models + [model];
    }
  }

  lemma KeysDistinct(ds: seq<Model>)
    ensures forall i, j :: 0 <= i < j < |Merging(ds).keys| ==> Merging(ds).keys[i] != Merging(ds).keys[j]
  {
    hide Merging, FirstIndex;
    MergeIsGroupBy(ds);
  }

  lemma MergedSize(keys: seq<string>, merged: map<string, Entry>)
    requires forall k :: k in merged <==> k in keys
    requires forall i, j :: 0 <= i < j < |keys| ==> keys[i] != keys[j]
    ensures |merged.Keys| == |keys|
  {
    SetSize(keys);
    assert merged.Keys == Elements(keys);
  }

  lemma {:induction false} SetSize(keys: seq<string>)
    requires forall i, j :: 0 <= i < j < |keys| ==> keys[i] != keys[j]
    ensures |Elements(keys)| == |keys|
    decreases |keys|
  {
    if keys != [] {
      var init, last := keys[..|keys| - 1], keys[|keys| - 1];
      SetSize(init);
      assert Elements(keys) == Elements(init) + {last};
      assert last !in Elements(init);
    }
  }
}
