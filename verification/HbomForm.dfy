/** workers/hbom/form.py: the same tree built from a nested payload, and its
    agreement with the row importer. */
module HbomForm {
  import opened Optional
  import opened Text
  import opened Forest
  import opened HbomModel
  import opened HbomRows
  import opened HbomImport

  datatype Child = Object(p: Payload) | NotAnObject

  /** `compliance` may be one text or a list; `quantity` is what `int()` makes of it: a number, a
      TypeError or ValueError, or the OverflowError of an infinity. */
  datatype Compliance = OneText(text: string) | Items(items: seq<string>)
  datatype Quantity = Number(n: int) | NotNumber | Infinite

  datatype Payload = Payload(
    unknown: set<string>,
    fields: Attrs,
    compliance: Compliance,
    quantity: Quantity,
    children: seq<Child>)

  /** All are FormError but QuantityOverflow, which is the OverflowError itself. */
  datatype FormError =
    | QuantityOverflow(path: string)
    | TooDeep(path: string) | UnknownFields(path: string) | NoName(path: string)
    | BadQuantity(path: string) | BadCriticality(path: string) | ChildNotAnObject(path: string, index: nat)

  datatype FormResult<+T> = Ok(value: T) | Err(error: FormError)

  function FormText(a: Attr, v: string): string {
    if a == Criticality then Lower(Strip(v)) else Strip(v)
  }

  function FormCompliance(c: Compliance): seq<string> {
    match c
    case OneText(text) => ComplianceItems(text)
    case Items(items) => CleanList(items)
  }

  predicate GoodCriticality(v: string) {
    Lower(Strip(v)) == "" || Lower(Strip(v)) in CRITICALITY_VALUES
  }

  /** The component a payload's own fields make, before its children. */
  function OwnComponent(p: Payload, depth: nat, id: string): Component
    requires p.quantity.Number?
  {
    Component(id, None, depth, None, if p.quantity.n < 1 then 1 else p.quantity.n,
              MapAttrs(p.fields, FormText), FormCompliance(p.compliance))
  }

  function OwnError(p: Payload, depth: nat, path: string): Option<FormError> {
    if depth > MAX_DEPTH then Some(TooDeep(path))
    else if p.unknown != {} then Some(UnknownFields(path))
    else if Strip(Get(p.fields, ProductName)) == "" then Some(NoName(path))
    else if p.quantity.NotNumber? then Some(BadQuantity(path))
    else if p.quantity.Infinite? then Some(FormError.QuantityOverflow(path))
    else if !GoodCriticality(Get(p.fields, Criticality)) then Some(BadCriticality(path))
    else None
  }

  function ChildId(parent: string, index: nat): string {
    parent + " > child " + Decimal(index)
  }

  function WithParent(t: Tree<Component>, parent: string): Tree<Component> {
    Node(t.data.(parentLocalId := Some(parent)), t.kids)
  }

  function CleanTree(t: Tree<Component>): Tree<Component> {
    Node(Clean(t.data), CleanForest(t.kids))
  }

  /** `from_payload`: every level normalizes the whole tree below it again. */
  function FromPayload(p: Payload, depth: nat, id: string): FormResult<Tree<Component>>
    decreases p, 1
  {
    match OwnError(p, depth, id)
    case Some(e) => Err(e)
    case None =>
      match FromChildren(p.children, 0, depth, id)
      case Err(e) => Err(e)
      case Ok(kids) => Ok(CleanTree(Node(OwnComponent(p, depth, id), kids)))
  }

  function FromChildren(children: seq<Child>, index: nat, depth: nat, parent: string): FormResult<seq<Tree<Component>>>
    decreases children, 0
  {
    if children == [] then Ok([])
    else
      assert (children decreases to children[0]);
      match children[0]
      case NotAnObject => Err(ChildNotAnObject(parent, index))
      case Object(p) =>
        match FromPayload(p, depth + 1, ChildId(parent, index))
        case Err(e) => Err(e)
        case Ok(t) =>
          match FromChildren(children[1..], index + 1, depth, parent)
          case Err(e) => Err(e)
          case Ok(rest) => Ok([WithParent(t, parent)] + rest)
  }

  // ---- which payloads are accepted ----------------------------------------------------

  /** Every node is within the cap, named, numeric, rated from the closed set, and nothing is unknown. */
  predicate Acceptable(p: Payload, depth: nat)
    decreases p, 1
  {
    && depth <= MAX_DEPTH && p.unknown == {} && p.quantity.Number?
    && Strip(Get(p.fields, ProductName)) != ""
    && GoodCriticality(Get(p.fields, Criticality))
    && AllAcceptable(p.children, depth + 1)
  }

  predicate AllAcceptable(children: seq<Child>, depth: nat)
    decreases children, 0
  {
    children == [] ||
      assert (children decreases to children[0]);
      (children[0].Object? && Acceptable(children[0].p, depth) && AllAcceptable(children[1..], depth))
  }

  lemma {:induction false} AcceptedPayloads(p: Payload, depth: nat, id: string)
    ensures FromPayload(p, depth, id).Ok? <==> Acceptable(p, depth)
    decreases p, 1
  {
    AcceptedChildren(p.children, 0, depth, id);
  }

  lemma {:induction false} AcceptedChildren(children: seq<Child>, index: nat, depth: nat, parent: string)
    ensures FromChildren(children, index, depth, parent).Ok? <==> AllAcceptable(children, depth + 1)
    decreases children, 0
  {
    if children != [] {
      assert (children decreases to children[0]);
      if children[0].Object? {
        AcceptedPayloads(children[0].p, depth + 1, ChildId(parent, index));
      }
      AcceptedChildren(children[1..], index + 1, depth, parent);
    }
  }

  // ---- which error a rejected payload is told ----------------------------------------------

  /** A node's own checks, in the order in which they are made: the first that fails is told. */
  lemma ChecksInOrder(p: Payload, depth: nat, path: string)
    ensures
      var e := OwnError(p, depth, path);
      var named := Strip(Get(p.fields, ProductName)) != "";
      && (e == Some(TooDeep(path)) <==> depth > 10)
      && (e == Some(UnknownFields(path)) <==> depth <= 10 && p.unknown != {})
      && (e == Some(NoName(path)) <==> depth <= 10 && p.unknown == {} && !named)
      && (e == Some(BadQuantity(path)) <==> depth <= 10 && p.unknown == {} && named && p.quantity.NotNumber?)
      && (e == Some(FormError.QuantityOverflow(path)) <==> depth <= 10 && p.unknown == {} && named && p.quantity.Infinite?)
      && (e == Some(BadCriticality(path)) <==>
           depth <= 10 && p.unknown == {} && named && p.quantity.Number? && !RatingIsKnown(Get(p.fields, Criticality)))
      && (e.Some? ==> e.value.path == path && !e.value.ChildNotAnObject?)
  {
    var v := Get(p.fields, Criticality);
    RatingKnownExactly(v);
    hide Strip, Lower, RatingIsKnown;
  }

  /** No rating at all, or one of the four whatever its case and the blanks around it. */
  ghost predicate RatingIsKnown(v: string) {
    Blank(v) || exists w :: w in ["critical", "high", "medium", "low"] && SameButCase(Strip(v), w)
  }

  lemma RatingKnownExactly(v: string)
    ensures GoodCriticality(v) <==> RatingIsKnown(v)
  {
    StripBlank(v);
    assert Lower("critical") == "critical" && Lower("high") == "high" && Lower("medium") == "medium" && Lower("low") == "low";
    forall w | w in ["critical", "high", "medium", "low"] ensures Lower(Strip(v)) == w <==> SameButCase(Strip(v), w) {
      LowerSame(Strip(v), w);
    }
    assert Lower(Strip(v)) == "" <==> Strip(v) == "";
    hide Strip, Lower, SameButCase, Blank;
  }

  /** A place in a payload: its depth and id, what is there, and whose child it is. */
  datatype Spot = Spot(depth: nat, id: string, what: Child, parent: string, index: nat)

  /** All places, parents before children and children in order. */
  ghost function Spots(p: Payload, depth: nat, id: string): seq<Spot>
    decreases p, 1
  {
    [Spot(depth, id, Object(p), "", 0)] + ChildSpots(p.children, 0, depth, id)
  }

  ghost function ChildSpots(children: seq<Child>, index: nat, depth: nat, parent: string): seq<Spot>
    decreases children, 0
  {
    if children == [] then []
    else
      assert (children decreases to children[0]);
      (match children[0]
       case NotAnObject => [Spot(depth + 1, ChildId(parent, index), NotAnObject, parent, index)]
       case Object(p) => Spots(p, depth + 1, ChildId(parent, index)))
      + ChildSpots(children[1..], index + 1, depth, parent)
  }

  function Problem(s: Spot): Option<FormError> {
    match s.what
    case NotAnObject => Some(ChildNotAnObject(s.parent, s.index))
    case Object(p) => OwnError(p, s.depth, s.id)
  }

  ghost predicate NoProblem(spots: seq<Spot>) {
    forall k :: 0 <= k < |spots| ==> Problem(spots[k]).None?
  }

  ghost predicate FirstProblemIs(spots: seq<Spot>, e: FormError) {
    exists k :: 0 <= k < |spots| && Problem(spots[k]) == Some(e) && NoProblem(spots[..k])
  }

  lemma FirstOfBoth(a: seq<Spot>, b: seq<Spot>, e: FormError)
    ensures FirstProblemIs(a, e) ==> FirstProblemIs(a + b, e)
    ensures NoProblem(a) && FirstProblemIs(b, e) ==> FirstProblemIs(a + b, e)
    ensures NoProblem(a) && NoProblem(b) ==> NoProblem(a + b)
  {
    hide Problem;
    if FirstProblemIs(a, e) {
      var k :| 0 <= k < |a| && Problem(a[k]) == Some(e) && NoProblem(a[..k]);
      assert (a + b)[k] == a[k] && (a + b)[..k] == a[..k];
    }
    if NoProblem(a) && FirstProblemIs(b, e) {
      var k :| 0 <= k < |b| && Problem(b[k]) == Some(e) && NoProblem(b[..k]);
      assert (a + b)[|a| + k] == b[k] && (a + b)[..|a| + k] == a + b[..k];
    }
  }

  /** A rejected payload is told the problem of the first place, parents before children, that has
      one; an accepted one has none anywhere. */
  lemma {:induction false} FirstProblemIsTold(p: Payload, depth: nat, id: string)
    ensures match FromPayload(p, depth, id)
            case Err(e) => FirstProblemIs(Spots(p, depth, id), e)
            case Ok(_) => NoProblem(Spots(p, depth, id))
    decreases p, 1
  {
    var own := [Spot(depth, id, Object(p), "", 0)];
    FirstProblemOfChildren(p.children, 0, depth, id);
    var r := FromPayload(p, depth, id);
    var below := ChildSpots(p.children, 0, depth, id);
    var e := if r.Err? then r.error else TooDeep("");
    FirstOfBoth(own, below, e);
    assert own[..0] == [] && own[0] == Spot(depth, id, Object(p), "", 0);
    hide OwnError, OwnComponent, CleanTree, FromChildren;
    assert Problem(own[0]) == OwnError(p, depth, id);
    if Problem(own[0]).Some? {
      assert FirstProblemIs(own, e);
    }
  }

  lemma {:induction false} FirstProblemOfChildren(children: seq<Child>, index: nat, depth: nat, parent: string)
    ensures match FromChildren(children, index, depth, parent)
            case Err(e) => FirstProblemIs(ChildSpots(children, index, depth, parent), e)
            case Ok(_) => NoProblem(ChildSpots(children, index, depth, parent))
    decreases children, 0
  {
    if children != [] {
      assert (children decreases to children[0]);
      var r := FromChildren(children, index, depth, parent);
      var e := if r.Err? then r.error else TooDeep("");
      var rest := ChildSpots(children[1..], index + 1, depth, parent);
      FirstProblemOfChildren(children[1..], index + 1, depth, parent);
      match children[0] {
        case NotAnObject =>
          var here := [Spot(depth + 1, ChildId(parent, index), NotAnObject, parent, index)];
          assert here[..0] == [] && Problem(here[0]) == Some(e);
          FirstOfBoth(here, rest, e);
        case Object(p) =>
          FirstProblemIsTold(p, depth + 1, ChildId(parent, index));
          FirstOfBoth(Spots(p, depth + 1, ChildId(parent, index)), rest, e);
      }
    }
  }

  // ---- repeated normalization is one pass ------------------------------------------------

  /** The tree of an accepted payload with no normalization at all. */
  function Raw(p: Payload, depth: nat, id: string): Tree<Component>
    requires Acceptable(p, depth)
    decreases p, 1
  {
    Node(OwnComponent(p, depth, id), RawChildren(p.children, 0, depth, id))
  }

  function RawChildren(children: seq<Child>, index: nat, depth: nat, parent: string): seq<Tree<Component>>
    requires AllAcceptable(children, depth + 1)
    decreases children, 0
  {
    if children == [] then []
    else
      assert (children decreases to children[0]);
      [WithParent(Raw(children[0].p, depth + 1, ChildId(parent, index)), parent)]
      + RawChildren(children[1..], index + 1, depth, parent)
  }

  /** Normalizing bottom-up at every level gives the raw tree normalized once. */
  lemma {:induction false} NormalizedOnce(p: Payload, depth: nat, id: string)
    requires Acceptable(p, depth)
    ensures FromPayload(p, depth, id) == Ok(CleanTree(Raw(p, depth, id)))
    decreases p, 1
  {
    AcceptedPayloads(p, depth, id);
    AcceptedChildren(p.children, 0, depth, id);
    ChildrenNormalizedOnce(p.children, 0, depth, id);
    CleanForestIdempotent(RawChildren(p.children, 0, depth, id));
  }

  lemma {:induction false} ChildrenNormalizedOnce(children: seq<Child>, index: nat, depth: nat, parent: string)
    requires AllAcceptable(children, depth + 1)
    ensures FromChildren(children, index, depth, parent) == Ok(CleanForest(RawChildren(children, index, depth, parent)))
    decreases children, 0
  {
    if children != [] {
      assert (children decreases to children[0]);
      var id := ChildId(parent, index);
      NormalizedOnce(children[0].p, depth + 1, id);
      ChildrenNormalizedOnce(children[1..], index + 1, depth, parent);
      var raw := RawChildren(children, index, depth, parent);
      var t := Raw(children[0].p, depth + 1, id);
      assert raw[0] == WithParent(t, parent) && raw[1..] == RawChildren(children[1..], index + 1, depth, parent);
      assert WithParent(CleanTree(t), parent) == CleanTree(raw[0]);
    }
  }

  // ---- local ids ------------------------------------------------------------------------------

  /** The id of the node reached by these child indices. */
  function PathId(path: seq<nat>): string {
    if path == [] then "root" else ChildId(PathId(path[..|path| - 1]), path[|path| - 1])
  }

  lemma ChildIdInjective(s: string, j: nat, t: string, k: nat)
    requires ChildId(s, j) == ChildId(t, k)
    ensures s == t && j == k
  {
    var mid := " > child ";
    var dj, dk := Decimal(j), Decimal(k);
    var a, b := s + mid, t + mid;
    SpaceThenDigits(a, dj, b, dk);
    assert s == a[..|s|] && t == b[..|t|];
    DecimalInjective(j, k);
  }

  /** Two texts that end in a blank followed by digits split at the same place. */
  lemma SpaceThenDigits(a: string, d: string, b: string, e: string)
    requires a != "" && b != "" && a[|a| - 1] == ' ' && b[|b| - 1] == ' '
    requires AllDigits(d) && AllDigits(e) && a + d == b + e
    ensures a == b && d == e
  {
    var whole := a + d;
    BlankIsLast(a, d, b, e);
    BlankIsLast(b, e, a, d);
    assert a == whole[..|a|] && b == (b + e)[..|b|];
    assert d == whole[|a|..] && e == (b + e)[|b|..];
  }

  lemma BlankIsLast(a: string, d: string, b: string, e: string)
    requires b != "" && b[|b| - 1] == ' ' && AllDigits(d) && a + d == b + e
    ensures |b| <= |a|
  {
    assert forall k :: |a| <= k < |a + d| ==> (a + d)[k] == d[k - |a|];
    assert (b + e)[|b| - 1] == ' ';
  }

  lemma PathIdLength(path: seq<nat>)
    ensures |PathId(path)| >= 4
    ensures path != [] ==> |PathId(path)| > 4
  {
    if path != [] {
      PathIdLength(path[..|path| - 1]);
    }
  }

  /** Different places in the payload get different ids. */
  lemma {:induction false} PathIdInjective(p: seq<nat>, q: seq<nat>)
    requires PathId(p) == PathId(q)
    ensures p == q
    decreases |p|
  {
    PathIdLength(p);
    PathIdLength(q);
    if p != [] && q != [] {
      ChildIdInjective(PathId(p[..|p| - 1]), p[|p| - 1], PathId(q[..|q| - 1]), q[|q| - 1]);
      PathIdInjective(p[..|p| - 1], q[..|q| - 1]);
    }
  }

  /** The index paths of a forest's nodes, in walk order; its trees are children `start`, `start + 1`, ... of `prefix`. */
  ghost function Paths<T>(f: seq<Tree<T>>, prefix: seq<nat>, start: nat): seq<seq<nat>>
    decreases f
  {
    if f == [] then []
    else [prefix + [start]] + Paths(f[0].kids, prefix + [start], 0) + Paths(f[1..], prefix, start + 1)
  }

  ghost predicate Branch(path: seq<nat>, prefix: seq<nat>, start: nat) {
    |path| > |prefix| && prefix <= path && path[|prefix|] >= start
  }

  lemma {:induction false} PathsBranch<T>(f: seq<Tree<T>>, prefix: seq<nat>, start: nat)
    ensures forall i :: 0 <= i < |Paths(f, prefix, start)| ==> Branch(Paths(f, prefix, start)[i], prefix, start)
    decreases f
  {
    if f != [] {
      var here := prefix + [start];
      PathsBranch(f[0].kids, here, 0);
      PathsBranch(f[1..], prefix, start + 1);
      var mine := Paths(f[0].kids, here, 0);
      forall i | 0 <= i < |mine| ensures Branch(mine[i], prefix, start) {
        assert here <= mine[i];
        assert mine[i][..|here|] == here;
        assert mine[i][|prefix|] == here[|prefix|];
        assert prefix == here[..|prefix|] == mine[i][..|prefix|];
      }
    }
  }

  ghost predicate AllDistinct<T>(s: seq<T>) {
    forall i, j :: 0 <= i < j < |s| ==> s[i] != s[j]
  }

  lemma {:induction false} PathsDistinct<T>(f: seq<Tree<T>>, prefix: seq<nat>, start: nat)
    ensures AllDistinct(Paths(f, prefix, start))
    decreases f
  {
    if f != [] {
      var here := prefix + [start];
      PathsDistinct(f[0].kids, here, 0);
      PathsDistinct(f[1..], prefix, start + 1);
      PathsBranch(f[0].kids, here, 0);
      PathsBranch(f[1..], prefix, start + 1);
      var mine, rest := Paths(f[0].kids, here, 0), Paths(f[1..], prefix, start + 1);
      forall i | 0 <= i < |mine| ensures mine[i][|prefix|] == start && |mine[i]| > |here| {
        assert Branch(mine[i], here, 0);
        assert mine[i][..|here|] == here;
        assert mine[i][|prefix|] == here[|prefix|];
      }
      forall i | 0 <= i < |rest| ensures rest[i][|prefix|] > start {
        assert Branch(rest[i], prefix, start + 1);
      }
      DistinctBlocks(here, mine, rest, |prefix|, start);
    }
  }

  lemma DistinctBlocks(here: seq<nat>, mine: seq<seq<nat>>, rest: seq<seq<nat>>, at: nat, start: nat)
    requires AllDistinct(mine) && AllDistinct(rest) && |here| == at + 1 && here[at] == start
    requires forall i :: 0 <= i < |mine| ==> |mine[i]| > |here| && mine[i][at] == start
    requires forall i :: 0 <= i < |rest| ==> |rest[i]| > at && rest[i][at] > start
    ensures AllDistinct([here] + mine + rest)
  {
    var all := [here] + mine + rest;
    forall i, j | 0 <= i < j < |all| ensures all[i] != all[j] {
      if j > |mine| {
        assert all[j] == rest[j - 1 - |mine|];
        if i > |mine| {
          assert all[i] == rest[i - 1 - |mine|];
        } else if i > 0 {
          assert all[i] == mine[i - 1];
        }
      } else {
        assert all[j] == mine[j - 1];
        if i > 0 {
          assert all[i] == mine[i - 1];
        }
      }
    }
  }

  /** In a forest under `parent`: every node's id is its path's, its parent id its parent's, its level its depth. */
  lemma {:induction false} RawIds(children: seq<Child>, index: nat, depth: nat, prefix: seq<nat>)
    requires AllAcceptable(children, depth + 1)
    ensures
      var f := RawChildren(children, index, depth, PathId(prefix));
      var walk, paths := Preorder(f, depth + 1), Paths(f, prefix, index);
      && |walk| == |paths|
      && forall i :: 0 <= i < |walk| ==>
        && paths[i] != [] && walk[i].1.localId == PathId(paths[i])
        && walk[i].1.parentLocalId == Some(PathId(paths[i][..|paths[i]| - 1]))
        && walk[i].1.level == walk[i].0
    decreases children
  {
    hide MapAttrs, ChildId, FormCompliance, Strip, GoodCriticality;
    if children != [] {
      assert (children decreases to children[0]);
      var here := prefix + [index];
      assert here[..|here| - 1] == prefix;
      var p := children[0].p;
      RawIds(p.children, 0, depth + 1, here);
      RawIds(children[1..], index + 1, depth, prefix);
      var f := RawChildren(children, index, depth, PathId(prefix));
      assert f[0] == WithParent(Raw(p, depth + 1, PathId(here)), PathId(prefix));
      assert f[1..] == RawChildren(children[1..], index + 1, depth, PathId(prefix));
    }
  }

  ghost predicate WellWired(walk: seq<(nat, Component)>, paths: seq<seq<nat>>) {
    && |walk| == |paths| && AllDistinct(paths)
    && (forall i, j :: 0 <= i < j < |walk| ==> walk[i].1.localId != walk[j].1.localId)
    && forall i :: 0 <= i < |walk| ==>
      && walk[i].1.localId == PathId(paths[i]) && walk[i].1.level == walk[i].0
      && walk[i].1.parentLocalId == if paths[i] == [] then None else Some(PathId(paths[i][..|paths[i]| - 1]))
  }

  /** An accepted payload's tree: ids pairwise distinct, each parent id that of the node one
      step up the same path, each level the walk depth. */
  lemma FormIdsAreSound(p: Payload)
    requires Acceptable(p, 0)
    ensures FromPayload(p, 0, "root").Ok?
    ensures
      var t := FromPayload(p, 0, "root").value;
      WellWired(Preorder([t], 0), [[]] + Paths(t.kids, [], 0))
  {
    hide FromPayload, WellWired, Clean, MapAttrs;
    NormalizedOnce(p, 0, "root");
    var raw := Raw(p, 0, "root");
    RawRootIds(p);
    PreorderSingle(CleanTree(raw), 0);
    PreorderSingle(raw, 0);
    PreorderOfMap(raw.kids, Clean, 1);
    PathsOfMap(raw.kids, Clean, [], 0);
    CleanKeepsWiring(Preorder([raw], 0), [[]] + Paths(raw.kids, [], 0));
    assert Preorder([CleanTree(raw)], 0) == MapRows(Preorder([raw], 0), Clean);
  }

  lemma CleanKeepsWiring(walk: seq<(nat, Component)>, paths: seq<seq<nat>>)
    requires WellWired(walk, paths)
    ensures WellWired(MapRows(walk, Clean), paths)
  {
  }

  lemma RawRootIds(p: Payload)
    requires Acceptable(p, 0)
    ensures WellWired(Preorder([Raw(p, 0, "root")], 0), [[]] + Paths(Raw(p, 0, "root").kids, [], 0))
  {
    hide MapAttrs, ChildId, FormCompliance, RawChildren, FormText;
    var raw := Raw(p, 0, "root");
    assert PathId([]) == "root";
    RawIds(p.children, 0, 0, []);
    PreorderSingle(raw, 0);
    RootPathsDistinct(raw.kids);
    DistinctIds(Preorder([raw], 0), [[]] + Paths(raw.kids, [], 0));
  }

  lemma RootPathsDistinct<T>(f: seq<Tree<T>>)
    ensures AllDistinct([[]] + Paths(f, [], 0))
    ensures forall i :: 0 <= i < |Paths(f, [], 0)| ==> Paths(f, [], 0)[i] != []
  {
    PathsDistinct(f, [], 0);
    PathsBranch(f, [], 0);
    var paths := Paths(f, [], 0);
    forall i | 0 <= i < |paths| ensures paths[i] != [] {
      assert Branch(paths[i], [], 0);
    }
    var all := [[]] + paths;
    forall i, j | 0 <= i < j < |all| ensures all[i] != all[j] {
      assert all[j] == paths[j - 1];
      if i > 0 {
        assert all[i] == paths[i - 1];
      }
    }
  }

  lemma DistinctIds(walk: seq<(nat, Component)>, paths: seq<seq<nat>>)
    requires |walk| == |paths| && AllDistinct(paths)
    requires forall i :: 0 <= i < |walk| ==> walk[i].1.localId == PathId(paths[i])
    ensures forall i, j :: 0 <= i < j < |walk| ==> walk[i].1.localId != walk[j].1.localId
  {
    forall i, j | 0 <= i < j < |walk| ensures walk[i].1.localId != walk[j].1.localId {
      if walk[i].1.localId == walk[j].1.localId {
        PathIdInjective(paths[i], paths[j]);
      }
    }
  }

  lemma {:induction false} PathsOfMap<S, T>(f: seq<Tree<S>>, g: S -> T, prefix: seq<nat>, start: nat)
    ensures Paths(MapForest(f, g), prefix, start) == Paths(f, prefix, start)
    decreases f
  {
    if f != [] {
      PathsOfMap(f[0].kids, g, prefix + [start], 0);
      PathsOfMap(f[1..], g, prefix, start + 1);
      var mf := MapForest(f, g);
      assert mf[0].kids == MapForest(f[0].kids, g) && mf[1..] == MapForest(f[1..], g);
    }
  }

  // ---- the two routes agree ------------------------------------------------------------------

  /** The payload as a tree of payloads. */
  function PayloadTree(p: Payload): Tree<Payload>
    decreases p, 1
  {
    Node(p, PayloadForest(p.children))
  }

  function PayloadForest(children: seq<Child>): seq<Tree<Payload>>
    decreases children, 0
  {
    if children == [] then []
    else
      assert (children decreases to children[0]);
      (if children[0].Object? then [PayloadTree(children[0].p)] else []) + PayloadForest(children[1..])
  }

  /** A row says what a payload says: attribute by attribute, and for compliance and quantity. */
  ghost predicate Says(cfg: Config, values: Values, p: Payload) {
    && (forall a :: FirstFilled(cfg.columns, values, a) == Strip(Get(p.fields, a)))
    && LastCompliance(cfg.columns, values) == FormCompliance(p.compliance)
    && p.quantity.Number?
    && QuantityRead(cfg, values) == Whole(if p.quantity.n < 1 then 1 else p.quantity.n)
  }

  /** A component without its local ids and source row. */
  function Anonymous(c: Component): Component {
    c.(localId := "", parentLocalId := None, sourceRow := None)
  }

  lemma FormTextCleans(m: Attrs, a: Attr)
    requires GoodCriticality(Get(m, Criticality))
    ensures CleanText(a, FormText(a, Get(m, a))) == CleanText(a, Get(m, a))
    ensures CleanText(a, Strip(Get(m, a))) == CleanText(a, Get(m, a))
    ensures FormText(a, "") == ""
  {
    var v := Get(m, a);
    StripIdempotent(v);
    assert Lower("") == "";
    if a == Criticality {
      var c := Lower(Strip(v));
      assert Trimmed(c) by {
        StripShape(v);
        assert c == "" || c in CRITICALITY_VALUES;
      }
      StripOfTrimmed(c);
      assert Lower(c) == c;
    }
  }

  lemma MapAttrsReads(m: Attrs, g: (Attr, string) -> string)
    requires forall a :: g(a, "") == ""
    ensures forall a :: Get(MapAttrs(m, g), a) == g(a, Get(m, a))
  {
  }

  /** The row's component and the payload's component are the same value once cleaned. */
  lemma {:induction false} RowMatchesPayload(cfg: Config, values: Values, p: Payload, depth: nat, row: nat, id: string)
    requires Says(cfg, values, p)
    requires Strip(Get(p.fields, ProductName)) != "" && GoodCriticality(Get(p.fields, Criticality))
    ensures QuantityRead(cfg, values).Whole?
    ensures Anonymous(Clean(RowComponent(cfg, values, depth, row))) == Anonymous(Clean(OwnComponent(p, depth, id)))
  {
    var c, o := RowComponent(cfg, values, depth, row), OwnComponent(p, depth, id);
    assert Get(ColumnAttrs(cfg.columns, values), ProductName) != "";
    assert c.attrs == ColumnAttrs(cfg.columns, values);
    forall a ensures FormText(a, "") == "" && Get(c.attrs, a) == Strip(Get(p.fields, a)) {
      FormTextCleans(p.fields, a);
    }
    MapAttrsReads(p.fields, FormText);
    CleanAttrsIdempotent(c.attrs);
    CleanAttrsIdempotent(o.attrs);
    forall a ensures Get(CleanAttrs(c.attrs), a) == Get(CleanAttrs(o.attrs), a) {
      FormTextCleans(p.fields, a);
    }
    SameReads(CleanAttrs(c.attrs), CleanAttrs(o.attrs));
  }

  /** The walk of the raw tree follows the walk of the payload tree. */
  ghost predicate Follows(walk: seq<(nat, Component)>, payloads: seq<(nat, Payload)>) {
    |walk| == |payloads| && forall i :: 0 <= i < |walk| ==> FollowsAt(walk[i], payloads[i])
  }

  ghost predicate FollowsAt(w: (nat, Component), p: (nat, Payload)) {
    && w.0 == p.0 <= MAX_DEPTH && p.1.quantity.Number?
    && Strip(Get(p.1.fields, ProductName)) != "" && GoodCriticality(Get(p.1.fields, Criticality))
    && Anonymous(w.1) == Anonymous(OwnComponent(p.1, p.0, ""))
  }

  lemma FollowsJoined(w: (nat, Component), p: (nat, Payload), a: seq<(nat, Component)>, b: seq<(nat, Payload)>,
                      c: seq<(nat, Component)>, d: seq<(nat, Payload)>)
    requires FollowsAt(w, p) && Follows(a, b) && Follows(c, d)
    ensures Follows([w] + a + c, [p] + b + d)
  {
    hide FollowsAt;
    var walk, payloads := [w] + a + c, [p] + b + d;
    forall i | 0 <= i < |walk| ensures FollowsAt(walk[i], payloads[i]) {
      if 0 < i <= |a| {
        assert walk[i] == a[i - 1] && payloads[i] == b[i - 1];
      } else if i > |a| {
        assert walk[i] == c[i - 1 - |a|] && payloads[i] == d[i - 1 - |a|];
      }
    }
  }

  lemma {:induction false} RawFollows(children: seq<Child>, index: nat, depth: nat, parent: string)
    requires AllAcceptable(children, depth + 1)
    ensures Follows(Preorder(RawChildren(children, index, depth, parent), depth + 1),
                    Preorder(PayloadForest(children), depth + 1))
    decreases children
  {
    hide Strip, GoodCriticality, MapAttrs, ChildId, FormText, FormCompliance;
    if children != [] {
      assert (children decreases to children[0]);
      var p := children[0].p;
      RawFollows(p.children, 0, depth + 1, ChildId(parent, index));
      RawFollows(children[1..], index + 1, depth, parent);
      var f, g := RawChildren(children, index, depth, parent), PayloadForest(children);
      assert f[0] == WithParent(Raw(p, depth + 1, ChildId(parent, index)), parent);
      assert f[1..] == RawChildren(children[1..], index + 1, depth, parent);
      assert g[0] == PayloadTree(p) && g[1..] == PayloadForest(children[1..]);
      FollowsJoined((depth + 1, f[0].data), (depth + 1, p),
        Preorder(f[0].kids, depth + 2), Preorder(g[0].kids, depth + 2), Preorder(f[1..], depth + 1), Preorder(g[1..], depth + 1));
    }
  }

  lemma {:induction false} PayloadHeight(children: seq<Child>, depth: nat)
    requires AllAcceptable(children, depth)
    ensures Height(PayloadForest(children)) == 0 || Height(PayloadForest(children)) + depth <= MAX_DEPTH + 1
    decreases children
  {
    if children != [] {
      assert (children decreases to children[0]);
      PayloadHeight(children[0].p.children, depth + 1);
      PayloadHeight(children[1..], depth);
      var g := PayloadForest(children);
      assert g[0] == PayloadTree(children[0].p) && g[1..] == PayloadForest(children[1..]);
    }
  }

  /** For any acceptable payload and any file whose rows say it, node by node in walk order:
      both routes accept, and build the same tree apart from local ids and source rows. */
  lemma {:induction false} TwoRoutesAgree(cfg: Config, p: Payload, rows: seq<Values>)
    requires Acceptable(p, 0) && |rows| <= cfg.maxRows
    requires Spells(rows, [PayloadTree(p)])
    requires forall i :: 0 <= i < |rows| ==> Says(cfg, rows[i], Preorder([PayloadTree(p)], 0)[i].1)
    ensures FromPayload(p, 0, "root").Ok? && Run(cfg, rows).Running?
    ensures MapForest(CleanForest(Run(cfg, rows).scan.forest), Anonymous)
         == MapForest([FromPayload(p, 0, "root").value], Anonymous)
  {
    NormalizedOnce(p, 0, "root");
    var g, raw := [PayloadTree(p)], [Raw(p, 0, "root")];
    PayloadHeight(p.children, 1);
    HeightSingle(PayloadTree(p));
    RawFollowsRoot(p);
    ImportRebuilds(cfg, rows, g);
    var f := Run(cfg, rows).scan.forest;
    MatchingWalks(cfg, rows, Preorder(f, 0), Preorder(raw, 0), Preorder(g, 0));
    SameAnonymously(f, raw);
    CleanSingle(Raw(p, 0, "root"));
  }

  lemma CleanSingle(t: Tree<Component>)
    ensures CleanForest([t]) == [CleanTree(t)]
  {
    MapLength([t], Clean);
  }

  lemma SameAnonymously(f: seq<Tree<Component>>, g: seq<Tree<Component>>)
    requires MapRows(MapRows(Preorder(f, 0), Clean), Anonymous) == MapRows(MapRows(Preorder(g, 0), Clean), Anonymous)
    ensures MapForest(CleanForest(f), Anonymous) == MapForest(CleanForest(g), Anonymous)
  {
    PreorderOfMap(f, Clean, 0);
    PreorderOfMap(g, Clean, 0);
    PreorderOfMap(CleanForest(f), Anonymous, 0);
    PreorderOfMap(CleanForest(g), Anonymous, 0);
    WalkDeterminesForest(MapForest(CleanForest(f), Anonymous), MapForest(CleanForest(g), Anonymous));
  }

  lemma RawFollowsRoot(p: Payload)
    requires Acceptable(p, 0)
    ensures Follows(Preorder([Raw(p, 0, "root")], 0), Preorder([PayloadTree(p)], 0))
  {
    hide Strip, GoodCriticality, MapAttrs, ChildId, RawChildren, PayloadForest, FormText;
    RawFollows(p.children, 0, 0, "root");
    PreorderSingle(Raw(p, 0, "root"), 0);
    PreorderSingle(PayloadTree(p), 0);
  }

  lemma {:induction false} MatchingWalks(cfg: Config, rows: seq<Values>, walk: seq<(nat, Component)>, raw: seq<(nat, Component)>, payloads: seq<(nat, Payload)>)
    requires |walk| == |rows| && Follows(raw, payloads) && |payloads| == |rows|
    requires forall i :: 0 <= i < |rows| ==> Says(cfg, rows[i], payloads[i].1)
    requires forall i :: 0 <= i < |rows| ==>
      walk[i].0 == payloads[i].0 && QuantityRead(cfg, rows[i]).Whole? && Unwired(walk[i].1) == RowComponent(cfg, rows[i], walk[i].0, i + 2)
    ensures MapRows(MapRows(walk, Clean), Anonymous) == MapRows(MapRows(raw, Clean), Anonymous)
  {
    var a, b := MapRows(MapRows(walk, Clean), Anonymous), MapRows(MapRows(raw, Clean), Anonymous);
    forall i | 0 <= i < |rows| ensures a[i] == b[i] {
      RowMatchesPayload(cfg, rows[i], payloads[i].1, walk[i].0, i + 2, "");
      AnonymousClean(walk[i].1, Unwired(walk[i].1));
      AnonymousClean(raw[i].1, OwnComponent(payloads[i].1, payloads[i].0, ""));
    }
  }

  lemma AnonymousClean(c: Component, d: Component)
    requires Anonymous(c) == Anonymous(d)
    ensures Anonymous(Clean(c)) == Anonymous(Clean(d))
  {
  }
}
