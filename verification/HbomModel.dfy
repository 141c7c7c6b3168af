/** workers/hbom/model.py: the hardware component, its values and its objects. */
module HbomModel {
  import opened Optional
  import opened Text
  import opened Forest

  const MAX_DEPTH: nat := 10

  /** The text attributes of HardwareComponent. */
  datatype Attr =
    | ProductName | ProductVersion | ProductDetails | WarrantyAmc | ManufacturerName
    | ManufacturerLocation | ManufacturingDate | SupplierInfo | SupplierLocation
    | ModelNumber | SerialNumber | TechnicalSpecification | ComponentSupplierInfo
    | ComponentSupplierLocation | TechnologyNode | PowerSupply | LicenseInfo
    | TestResult | FirmwareVersion | Origin | Criticality

  /** Attributes that hold text; an attribute not in the map is the empty string. */
  type Attrs = map<Attr, string>

  function Get(m: Attrs, a: Attr): string {
    if a in m then m[a] else ""
  }

  function Set(m: Attrs, a: Attr, v: string): (r: Attrs)
    ensures forall b :: Get(r, b) == if b == a then v else Get(m, b)
  {
    if v == "" then m - {a} else m[a := v]
  }

  /** The value of one HardwareComponent, its sub-components apart. */
  datatype Component = Component(
    localId: string,
    parentLocalId: Option<string>,
    level: int,
    sourceRow: Option<nat>,
    quantity: int,
    attrs: Attrs,
    compliance: seq<string>)

  const CRITICALITY_VALUES: seq<string> := ["critical", "high", "medium", "low"]

  // ---- normalize, on values ---------------------------------------------------

  function CleanCriticality(v: string): string {
    var c := Lower(Strip(v));
    if c in CRITICALITY_VALUES then c else ""
  }

  function CleanText(a: Attr, v: string): string {
    if a == Criticality then CleanCriticality(v) else Strip(v)
  }

  function CleanAttrs(m: Attrs): Attrs {
    MapAttrs(m, CleanText)
  }

  /** Rewrite every attribute; one that comes out empty is no longer in the map. */
  function MapAttrs(m: Attrs, g: (Attr, string) -> string): Attrs {
    map a | a in m && g(a, m[a]) != "" :: g(a, m[a])
  }

  function CleanList(cs: seq<string>): seq<string> {
    if cs == [] then []
    else (if Strip(cs[0]) == "" then [] else [Strip(cs[0])]) + CleanList(cs[1..])
  }

  function Clean(c: Component): Component {
    c.(attrs := CleanAttrs(c.attrs), compliance := CleanList(c.compliance))
  }

  function CleanForest(f: seq<Tree<Component>>): seq<Tree<Component>> {
    MapForest(f, Clean)
  }

  /** A rating is kept exactly when it is one of the four but for case and blanks around it, and is
      then that one; any other becomes empty. Every other text is only trimmed. */
  lemma RatingKeptExactly(v: string, w: string)
    ensures w in ["critical", "high", "medium", "low"] ==> (CleanText(Criticality, v) == w <==> SameButCase(Strip(v), w))
    ensures (forall w :: w in ["critical", "high", "medium", "low"] ==> !SameButCase(Strip(v), w)) ==> CleanText(Criticality, v) == ""
    ensures forall a :: a != Criticality ==> CleanText(a, v) == Strip(v)
  {
    assert Lower("critical") == "critical" && Lower("high") == "high" && Lower("medium") == "medium" && Lower("low") == "low";
    forall w | w in ["critical", "high", "medium", "low"] ensures Lower(Strip(v)) == w <==> SameButCase(Strip(v), w) {
      LowerSame(Strip(v), w);
    }
    hide Lower, Strip, SameButCase;
  }

  /** List clean-up works item by item: a blank one is dropped, any other is trimmed and keeps its place. */
  lemma {:induction false} CleanListPointwise(a: seq<string>, x: string, b: seq<string>)
    ensures CleanList(a + [x] + b) == CleanList(a) + (if Strip(x) == "" then [] else [Strip(x)]) + CleanList(b)
    decreases |a|
  {
    var all := a + [x] + b;
    if a == [] {
      assert all[1..] == b && all[0] == x;
    } else {
      assert all[0] == a[0] && all[1..] == a[1..] + [x] + b;
      CleanListPointwise(a[1..], x, b);
    }
  }

  lemma CleanTextIdempotent(a: Attr, v: string)
    ensures CleanText(a, CleanText(a, v)) == CleanText(a, v)
  {
    StripIdempotent(v);
    if a == Criticality {
      var c := Lower(Strip(v));
      if c in CRITICALITY_VALUES {
        assert Trimmed(c);
        StripOfTrimmed(c);
        assert Lower(c) == c;
      } else {
        assert Strip("") == "" && Lower("") == "";
      }
    }
  }

  lemma MapAttrsIdempotent(m: Attrs, g: (Attr, string) -> string)
    requires forall a :: g(a, "") == ""
    requires forall a, v {:trigger g(a, g(a, v))} :: g(a, g(a, v)) == g(a, v)
    ensures MapAttrs(MapAttrs(m, g), g) == MapAttrs(m, g)
    ensures forall a :: Get(MapAttrs(m, g), a) == g(a, Get(m, a))
  {
    forall a | a in m ensures g(a, g(a, m[a])) == g(a, m[a]) {}
  }

  /** Two attribute maps without empty entries are equal when they read the same. */
  lemma SameReads(m: Attrs, n: Attrs)
    requires forall a :: a in m ==> m[a] != ""
    requires forall a :: a in n ==> n[a] != ""
    requires forall a :: Get(m, a) == Get(n, a)
    ensures m == n
  {
    forall a ensures a in m <==> a in n {
      assert Get(m, a) == Get(n, a);
    }
    forall a | a in m ensures m[a] == n[a] {
      assert Get(m, a) == Get(n, a);
    }
  }

  lemma CleanTextOfEmpty(a: Attr)
    ensures CleanText(a, "") == ""
  {
    assert Lower("") == "";
  }

  lemma CleanAttrsIdempotent(m: Attrs)
    ensures CleanAttrs(CleanAttrs(m)) == CleanAttrs(m)
    ensures forall a :: Get(CleanAttrs(m), a) == CleanText(a, Get(m, a))
  {
    forall a, v ensures CleanText(a, CleanText(a, v)) == CleanText(a, v) {
      CleanTextIdempotent(a, v);
    }
    forall a ensures CleanText(a, "") == "" {
      CleanTextOfEmpty(a);
    }
    MapAttrsIdempotent(m, CleanText);
  }

  lemma {:induction false} CleanListIdempotent(cs: seq<string>)
    ensures CleanList(CleanList(cs)) == CleanList(cs)
    ensures forall i :: 0 <= i < |CleanList(cs)| ==> CleanList(cs)[i] != "" && Trimmed(CleanList(cs)[i])
    decreases |cs|
  {
    if cs != [] {
      CleanListIdempotent(cs[1..]);
      StripShape(cs[0]);
      StripIdempotent(cs[0]);
      var r := CleanList(cs);
      if Strip(cs[0]) != "" {
        assert r == [Strip(cs[0])] + CleanList(cs[1..]);
        assert r[1..] == CleanList(cs[1..]);
        assert CleanList(r) == [Strip(cs[0])] + CleanList(r[1..]);
      } else {
        assert r == CleanList(cs[1..]);
      }
    }
  }

  /** Normalizing twice is normalizing once, for a component and for whole trees. */
  lemma CleanIdempotent(c: Component)
    ensures Clean(Clean(c)) == Clean(c)
  {
    CleanAttrsIdempotent(c.attrs);
    CleanListIdempotent(c.compliance);
  }

  lemma CleanForestIdempotent(f: seq<Tree<Component>>)
    ensures CleanForest(CleanForest(f)) == CleanForest(f)
  {
    forall c: Component ensures Clean(Clean(c)) == Clean(c) {
      CleanIdempotent(c);
    }
    MapTwice(f, Clean, Clean, Clean);
  }

  // ---- objects ------------------------------------------------------------------

  /** HardwareComponent: the importers fill in fields and append to `children` in place. */
  class Node {
    var localId: string
    var parentLocalId: Option<string>
    var level: int
    var sourceRow: Option<nat>
    var quantity: int
    var attrs: Attrs
    var compliance: seq<string>
    var children: seq<Node>

    constructor (localId: string, level: int, sourceRow: Option<nat>)
      ensures Value() == Component(localId, None, level, sourceRow, 1, map[], [])
      ensures children == []
    {
      this.localId, this.level, this.sourceRow := localId, level, sourceRow;
      parentLocalId, quantity, attrs, compliance, children := None, 1, map[], [], [];
    }

    function Value(): Component
      reads this
    {
      Component(localId, parentLocalId, level, sourceRow, quantity, attrs, compliance)
    }
  }

  /** Child lists as indices; a child always comes after its parent. */
  ghost predicate Shaped(kids: seq<seq<nat>>) {
    forall i, m :: 0 <= i < |kids| && 0 <= m < |kids[i]| ==> i < kids[i][m] < |kids|
  }

  ghost function Refs(nodes: seq<Node>, ks: seq<nat>): (r: seq<Node>)
    requires forall m :: 0 <= m < |ks| ==> ks[m] < |nodes|
    ensures |r| == |ks|
    ensures forall m :: 0 <= m < |ks| ==> r[m] == nodes[ks[m]]
  {
    seq(|ks|, m requires 0 <= m < |ks| => nodes[ks[m]])
  }

  ghost predicate Distinct(nodes: seq<Node>) {
    forall i, j :: 0 <= i < j < |nodes| ==> nodes[i] != nodes[j]
  }

  /** The objects `nodes` point at each other exactly as `kids` says. */
  ghost predicate Linked(nodes: seq<Node>, kids: seq<seq<nat>>)
    reads nodes
  {
    && |nodes| == |kids| && Shaped(kids) && Distinct(nodes)
    && forall i :: 0 <= i < |nodes| ==> nodes[i].children == Refs(nodes, kids[i])
  }

  ghost function Contents(nodes: seq<Node>): (r: seq<Component>)
    reads nodes
    ensures |r| == |nodes|
    ensures forall i :: 0 <= i < |nodes| ==> r[i] == nodes[i].Value()
  {
    seq(|nodes|, i reads nodes requires 0 <= i < |nodes| => nodes[i].Value())
  }

  /** The tree an index stands for. */
  ghost function TreeAt<T>(kids: seq<seq<nat>>, xs: seq<T>, i: nat): Tree<T>
    requires Shaped(kids) && |xs| == |kids| && i < |kids|
    decreases |kids| - i
  {
    Tree.Node(xs[i], seq(|kids[i]|, m requires 0 <= m < |kids[i]| => TreeAt(kids, xs, kids[i][m])))
  }

  ghost function ForestAt<T>(kids: seq<seq<nat>>, xs: seq<T>, roots: seq<nat>): (f: seq<Tree<T>>)
    requires Shaped(kids) && |xs| == |kids|
    requires forall m :: 0 <= m < |roots| ==> roots[m] < |kids|
    ensures |f| == |roots|
    ensures forall m :: 0 <= m < |roots| ==> f[m] == TreeAt(kids, xs, roots[m])
  {
    seq(|roots|, m requires 0 <= m < |roots| => TreeAt(kids, xs, roots[m]))
  }

  /** Two indices stand for the same tree when their data and their subtrees are the same. */
  lemma SameTree<T>(kids: seq<seq<nat>>, xs: seq<T>, i: nat, ks: seq<seq<nat>>, ys: seq<T>, j: nat)
    requires Shaped(kids) && |xs| == |kids| && i < |kids| && Shaped(ks) && |ys| == |ks| && j < |ks|
    requires xs[i] == ys[j] && |kids[i]| == |ks[j]|
    requires forall m :: 0 <= m < |kids[i]| ==> TreeAt(kids, xs, kids[i][m]) == TreeAt(ks, ys, ks[j][m])
    ensures TreeAt(kids, xs, i) == TreeAt(ks, ys, j)
  {
    assert TreeAt(kids, xs, i).kids == TreeAt(ks, ys, j).kids;
  }

  /** The tree at an index, from its subtrees. */
  lemma TreeFrom<T>(kids: seq<seq<nat>>, xs: seq<T>, i: nat, f: seq<Tree<T>>)
    requires Shaped(kids) && |xs| == |kids| && i < |kids| && |f| == |kids[i]|
    requires forall m :: 0 <= m < |kids[i]| ==> TreeAt(kids, xs, kids[i][m]) == f[m]
    ensures TreeAt(kids, xs, i) == Tree.Node(xs[i], f)
  {
    assert TreeAt(kids, xs, i).kids == f;
  }

  lemma SubtreesAt<T>(kids: seq<seq<nat>>, xs: seq<T>, i: nat)
    requires Shaped(kids) && |xs| == |kids| && i < |kids|
    ensures |TreeAt(kids, xs, i).kids| == |kids[i]|
    ensures forall m :: 0 <= m < |kids[i]| ==> TreeAt(kids, xs, i).kids[m] == TreeAt(kids, xs, kids[i][m])
  {
  }

  /** j is i or a descendant of i. */
  ghost predicate Under(kids: seq<seq<nat>>, i: nat, j: nat)
    requires Shaped(kids) && i < |kids|
    decreases |kids| - i
  {
    i == j || exists m :: 0 <= m < |kids[i]| && Under(kids, kids[i][m], j)
  }

  lemma {:induction false} TreeOfMapped<S, T>(kids: seq<seq<nat>>, xs: seq<S>, ys: seq<T>, g: S -> T, i: nat)
    requires Shaped(kids) && |xs| == |kids| == |ys| && i < |kids|
    requires forall j :: 0 <= j < |kids| && Under(kids, i, j) ==> ys[j] == g(xs[j])
    ensures [TreeAt(kids, ys, i)] == MapForest([TreeAt(kids, xs, i)], g)
    decreases |kids| - i
  {
    var t, u := TreeAt(kids, xs, i), TreeAt(kids, ys, i);
    assert Under(kids, i, i);
    forall m | 0 <= m < |kids[i]|
      ensures [u.kids[m]] == MapForest([t.kids[m]], g)
    {
      forall j | 0 <= j < |kids| && Under(kids, kids[i][m], j)
        ensures ys[j] == g(xs[j])
      {
        assert Under(kids, i, j);
      }
      TreeOfMapped(kids, xs, ys, g, kids[i][m]);
    }
    MapPointwise(t.kids, u.kids, g);
    assert [t][1..] == [];
    assert MapForest([t], g) == [Tree.Node(g(t.data), MapForest(t.kids, g))] + [];
  }

  lemma {:induction false} MapPointwise<S, T>(f: seq<Tree<S>>, h: seq<Tree<T>>, g: S -> T)
    requires |f| == |h|
    requires forall m :: 0 <= m < |f| ==> [h[m]] == MapForest([f[m]], g)
    ensures h == MapForest(f, g)
    decreases |f|
  {
    if f != [] {
      MapPointwise(f[1..], h[1..], g);
      assert f == [f[0]] + f[1..];
      MapConcat([f[0]], f[1..], g);
      assert h == [h[0]] + h[1..];
    }
  }

  lemma ForestOfMapped<S, T>(kids: seq<seq<nat>>, xs: seq<S>, ys: seq<T>, g: S -> T, roots: seq<nat>)
    requires Shaped(kids) && |xs| == |kids| == |ys|
    requires forall m :: 0 <= m < |roots| ==> roots[m] < |kids|
    requires forall m, j :: 0 <= m < |roots| && 0 <= j < |kids| && Under(kids, roots[m], j) ==> ys[j] == g(xs[j])
    ensures ForestAt(kids, ys, roots) == MapForest(ForestAt(kids, xs, roots), g)
  {
    var f, h := ForestAt(kids, xs, roots), ForestAt(kids, ys, roots);
    forall m | 0 <= m < |roots| ensures [h[m]] == MapForest([f[m]], g) {
      TreeOfMapped(kids, xs, ys, g, roots[m]);
    }
    MapPointwise(f, h, g);
  }

  // ---- normalize, on objects ------------------------------------------------------

  /** The attributes `normalize` trims in its loop; the name and the criticality come first. */
  const TRIMMED_ATTRIBUTES: seq<Attr> := [
    ProductVersion, ProductDetails, WarrantyAmc, ManufacturerName, ManufacturerLocation,
    ManufacturingDate, SupplierInfo, SupplierLocation, ModelNumber, SerialNumber,
    TechnicalSpecification, ComponentSupplierInfo, ComponentSupplierLocation, TechnologyNode,
    PowerSupply, LicenseInfo, TestResult, FirmwareVersion, Origin
  ]

  lemma TrimmedAttributesCoverAll(a: Attr)
    ensures a == ProductName || a == Criticality || a in TRIMMED_ATTRIBUTES
    ensures ProductName !in TRIMMED_ATTRIBUTES && Criticality !in TRIMMED_ATTRIBUTES
  {
    var t := TRIMMED_ATTRIBUTES;
    match a {
      case ProductName => case Criticality =>
      case ProductVersion => assert t[0] == a;
      case ProductDetails => assert t[1] == a;
      case WarrantyAmc => assert t[2] == a;
      case ManufacturerName => assert t[3] == a;
      case ManufacturerLocation => assert t[4] == a;
      case ManufacturingDate => assert t[5] == a;
      case SupplierInfo => assert t[6] == a;
      case SupplierLocation => assert t[7] == a;
      case ModelNumber => assert t[8] == a;
      case SerialNumber => assert t[9] == a;
      case TechnicalSpecification => assert t[10] == a;
      case ComponentSupplierInfo => assert t[11] == a;
      case ComponentSupplierLocation => assert t[12] == a;
      case TechnologyNode => assert t[13] == a;
      case PowerSupply => assert t[14] == a;
      case LicenseInfo => assert t[15] == a;
      case TestResult => assert t[16] == a;
      case FirmwareVersion => assert t[17] == a;
      case Origin => assert t[18] == a;
    }
  }

  /** The field part of `normalize`: afterwards the object holds the cleaned value. */
  method NormalizeFields(n: Node)
    modifies n`attrs, n`compliance
    ensures n.Value() == Clean(old(n.Value()))
  {
    ghost var was := n.attrs;
    n.attrs := Set(n.attrs, ProductName, Strip(Get(n.attrs, ProductName)));
    NormalizeCriticality(n);
    ghost var mid := n.attrs;
    forall a: Attr ensures a == ProductName || a == Criticality || a in TRIMMED_ATTRIBUTES
    {
      TrimmedAttributesCoverAll(a);
    }
    TrimmedAttributesCoverAll(ProductName);
    TrimAttributes(n, TRIMMED_ATTRIBUTES);
    NormalizedAttrs(was, mid, n.attrs, TRIMMED_ATTRIBUTES);
    n.compliance := CleanCompliance(n.compliance);
  }

  lemma {:induction false} NormalizedAttrs(was: Attrs, mid: Attrs, now: Attrs, list: seq<Attr>)
    requires forall a: Attr :: a == ProductName || a == Criticality || a in list
    requires ProductName !in list && Criticality !in list
    requires mid == Set(Set(was, ProductName, Strip(Get(was, ProductName))), Criticality, CleanCriticality(Get(was, Criticality)))
    requires forall a :: Get(now, a) == if a in list then Strip(Get(mid, a)) else Get(mid, a)
    requires forall a :: a in now && a in list ==> now[a] != ""
    requires forall a :: a !in list ==> (a in now <==> a in mid)
    ensures now == CleanAttrs(was)
  {
    CleanAttrsIdempotent(was);
    forall a ensures Get(now, a) == Get(CleanAttrs(was), a) {
      assert Get(CleanAttrs(was), a) == CleanText(a, Get(was, a));
    }
    SameReads(now, CleanAttrs(was));
  }

  /** The attribute loop of `normalize`. */
  method TrimAttributes(n: Node, list: seq<Attr>)
    modifies n`attrs
    ensures forall a :: Get(n.attrs, a) == if a in list then Strip(Get(old(n.attrs), a)) else Get(old(n.attrs), a)
    ensures forall a :: a in n.attrs && a in list ==> n.attrs[a] != ""
    ensures forall a :: a !in list ==> (a in n.attrs <==> a in old(n.attrs))
  {
    for k := 0 to |list|
      invariant forall a :: Get(n.attrs, a) == if a in list[..k] then Strip(Get(old(n.attrs), a)) else Get(old(n.attrs), a)
      invariant forall a :: a in n.attrs && a in list[..k] ==> n.attrs[a] != ""
      invariant forall a :: a !in list ==> (a in n.attrs <==> a in old(n.attrs))
    {
      var a := list[k];
      assert list[..k + 1] == list[..k] + [a];
      StripIdempotent(Get(old(n.attrs), a));
      n.attrs := Set(n.attrs, a, Strip(Get(n.attrs, a)));
    }
    assert list[..|list|] == list;
  }

  method NormalizeCriticality(n: Node)
    modifies n`attrs
    ensures n.attrs == Set(old(n.attrs), Criticality, CleanCriticality(Get(old(n.attrs), Criticality)))
  {
    var criticality := Lower(Strip(Get(n.attrs, Criticality)));
    n.attrs := Set(n.attrs, Criticality, criticality);
    if criticality != "" && criticality !in CRITICALITY_VALUES {
      n.attrs := Set(n.attrs, Criticality, "");
    }
  }

  lemma CleanListStep(cs: seq<string>, i: nat)
    requires i < |cs|
    ensures CleanList(cs[i..]) == (if Strip(cs[i]) == "" then [] else [Strip(cs[i])]) + CleanList(cs[i + 1..])
  {
    assert cs[i..][1..] == cs[i + 1..];
  }

  method CleanCompliance(cs: seq<string>) returns (out: seq<string>)
    ensures out == CleanList(cs)
  {
    hide Strip;
    out := [];
    for i := 0 to |cs|
      invariant out + CleanList(cs[i..]) == CleanList(cs)
    {
      CleanListStep(cs, i);
      if Strip(cs[i]) != "" {
        out := out + [Strip(cs[i])];
      }
    }
  }

  /** i itself, or something under one of its first k children. */
  ghost predicate Reached(kids: seq<seq<nat>>, i: nat, k: nat, j: nat)
    requires Shaped(kids) && i < |kids| && k <= |kids[i]|
  {
    j == i || exists m :: 0 <= m < k && Under(kids, kids[i][m], j)
  }

  ghost predicate CleanedSoFar(kids: seq<seq<nat>>, i: nat, k: nat, was: seq<Component>, now: seq<Component>)
    requires Shaped(kids) && i < |kids| && k <= |kids[i]|
    requires |was| == |now| == |kids|
  {
    forall j {:trigger Reached(kids, i, k, j)} :: 0 <= j < |kids| ==> now[j] == if Reached(kids, i, k, j) then Clean(was[j]) else was[j]
  }

  ghost predicate CleanedUnder(kids: seq<seq<nat>>, i: nat, was: seq<Component>, now: seq<Component>)
    requires Shaped(kids) && i < |kids|
    requires |was| == |now| == |kids|
  {
    forall j {:trigger Under(kids, i, j)} :: 0 <= j < |kids| ==> now[j] == if Under(kids, i, j) then Clean(was[j]) else was[j]
  }

  lemma CleanNextChild(kids: seq<seq<nat>>, i: nat, k: nat, was: seq<Component>, mid: seq<Component>, now: seq<Component>)
    requires Shaped(kids) && i < |kids| && k < |kids[i]|
    requires |was| == |mid| == |now| == |kids|
    requires CleanedSoFar(kids, i, k, was, mid) && CleanedUnder(kids, kids[i][k], mid, now)
    ensures CleanedSoFar(kids, i, k + 1, was, now)
  {
    forall j | 0 <= j < |kids|
      ensures now[j] == if Reached(kids, i, k + 1, j) then Clean(was[j]) else was[j]
    {
      CleanIdempotent(was[j]);
      var earlier, here := Reached(kids, i, k, j), Under(kids, kids[i][k], j);
      assert Reached(kids, i, k + 1, j) <==> earlier || here;
    }
  }

  /** `normalize`: every object under `n` holds its cleaned value, no other object
      changes, and no object is relinked. */
  method Normalize(n: Node, ghost nodes: seq<Node>, ghost kids: seq<seq<nat>>, ghost i: nat)
    requires Linked(nodes, kids) && i < |nodes| && nodes[i] == n
    modifies nodes
    ensures Linked(nodes, kids)
    ensures CleanedUnder(kids, i, old(Contents(nodes)), Contents(nodes))
    decreases |nodes| - i, 1
  {
    ghost var was := Contents(nodes);
    NormalizeFields(n);
    assert CleanedSoFar(kids, i, 0, was, Contents(nodes));
    var children := NormalizeChildren(n, nodes, kids, i, was);
    n.children := children;
    forall j | 0 <= j < |kids| ensures Under(kids, i, j) <==> Reached(kids, i, |kids[i]|, j) {}
  }

  /** The list comprehension at the end of `normalize`: the same children, each normalized. */
  method NormalizeChildren(n: Node, ghost nodes: seq<Node>, ghost kids: seq<seq<nat>>, ghost i: nat, ghost was: seq<Component>)
    returns (children: seq<Node>)
    requires Linked(nodes, kids) && i < |nodes| && nodes[i] == n
    requires |was| == |nodes| && CleanedSoFar(kids, i, 0, was, Contents(nodes))
    modifies nodes
    ensures Linked(nodes, kids) && children == n.children
    ensures CleanedSoFar(kids, i, |kids[i]|, was, Contents(nodes))
    decreases |nodes| - i, 0
  {
    children := [];
    var k := 0;
    while k < |n.children|
      invariant 0 <= k <= |n.children|
      invariant Linked(nodes, kids)
      invariant children == n.children[..k]
      invariant CleanedSoFar(kids, i, k, was, Contents(nodes))
      decreases |n.children| - k
    {
      ghost var mid := Contents(nodes);
      Normalize(n.children[k], nodes, kids, kids[i][k]);
      CleanNextChild(kids, i, k, was, mid, Contents(nodes));
      children := children + [n.children[k]];
      k := k + 1;
    }
  }
}
