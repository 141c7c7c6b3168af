/** workers/hbom/csv_import.py: `parse` on objects. The stack aliases nodes of the
    tree under construction; appending to `stack[level - 1].children` grows the tree. */
module HbomParse {
  import opened Optional
  import opened Text
  import opened Forest
  import opened HbomModel
  import opened HbomRows
  import opened HbomImport

  // ---- the pointer structure, as indices -----------------------------------------

  ghost predicate Increasing(s: seq<nat>) {
    forall i, j :: 0 <= i < j < |s| ==> s[i] < s[j]
  }

  ghost predicate EndsWith(s: seq<nat>, x: nat) {
    s != [] && s[|s| - 1] == x
  }

  ghost predicate Below(s: seq<nat>, n: nat) {
    forall i :: 0 <= i < |s| ==> s[i] < n
  }

  /** Nodes by creation index: their children, their parents (-1 for a root), and the
      stack, i.e. the open node at each depth. */
  datatype Arena = Arena(kids: seq<seq<nat>>, parents: seq<int>, roots: seq<nat>, spine: seq<nat>) {

    ghost predicate InRange() {
      Shaped(kids) && |parents| == |kids| && Below(roots, |kids|) && Below(spine, |kids|)
    }

    /** The sibling list the spine node at depth k is the last element of. */
    ghost function ListAt(k: nat): (r: seq<nat>)
      requires InRange() && k <= |spine|
      ensures Below(r, |kids|)
    {
      if k == 0 then roots
      else
        var i := spine[k - 1];
        assert forall m :: 0 <= m < |kids[i]| ==> kids[i][m] < |kids|;
        kids[i]
    }

    ghost function OwnerAt(k: nat): int
      requires InRange() && k <= |spine|
    {
      if k == 0 then -1 else spine[k - 1]
    }

    ghost predicate OneParentEach() {
      && InRange()
      && (forall i, m :: 0 <= i < |kids| && 0 <= m < |kids[i]| ==> parents[kids[i][m]] == i)
      && (forall m :: 0 <= m < |roots| ==> parents[roots[m]] == -1)
      && Increasing(roots)
      && (forall i :: 0 <= i < |kids| ==> Increasing(kids[i]))
    }

    ghost predicate Valid() {
      && OneParentEach()
      && Increasing(spine)
      && (forall k {:trigger SpineAt(k)} :: 0 <= k < |spine| ==> SpineAt(k))
      && ListAt(|spine|) == []
    }

    /** The spine node at depth k is the last child of the one above it. */
    ghost predicate SpineAt(k: nat)
      requires InRange() && k < |spine|
    {
      parents[spine[k]] == OwnerAt(k) && EndsWith(ListAt(k), spine[k])
    }

    /** A new node under the spine node above depth d; the spine is cut there. */
    ghost function Grow(d: nat): Arena
      requires InRange() && d <= |spine|
    {
      var n := |kids|;
      Arena(
        GrownKids(d), parents + [OwnerAt(d)],
        if d == 0 then roots + [n] else roots,
        spine[..d] + [n])
    }

    ghost function GrownKids(d: nat): (r: seq<seq<nat>>)
      requires InRange() && d <= |spine|
      ensures |r| == |kids| + 1
      ensures forall i :: 0 <= i < |kids| ==>
        r[i] == if d > 0 && i == spine[d - 1] then kids[i] + [|kids|] else kids[i]
      ensures r[|kids|] == []
    {
      (if d == 0 then kids else kids[spine[d - 1] := kids[spine[d - 1]] + [|kids|]]) + [[]]
    }
  }

  const EMPTY_ARENA := Arena([], [], [], [])

  lemma GrowInRange(a: Arena, d: nat)
    requires a.InRange() && d <= |a.spine|
    ensures a.Grow(d).InRange()
  {
  }

  lemma GrownParents(a: Arena, d: nat, i: nat, m: nat)
    requires a.Valid() && d <= |a.spine|
    requires a.Grow(d).InRange() && i < |a.Grow(d).kids| && m < |a.Grow(d).kids[i]|
    ensures a.Grow(d).parents[a.Grow(d).kids[i][m]] == i
  {
    hide Increasing, Arena.SpineAt;
    if i < |a.kids| && m < |a.kids[i]| {
      assert a.Grow(d).kids[i][m] == a.kids[i][m];
      assert a.parents[a.kids[i][m]] == i;
    } else {
      assert d > 0 && i == a.spine[d - 1] && a.Grow(d).kids[i][m] == |a.kids|;
    }
  }

  lemma GrownIncreasing(a: Arena, d: nat)
    requires a.Valid() && d <= |a.spine|
    ensures Increasing(a.Grow(d).roots)
    ensures forall i :: 0 <= i < |a.Grow(d).kids| ==> Increasing(a.Grow(d).kids[i])
  {
    hide Arena.SpineAt;
    var b := a.Grow(d);
    forall i | 0 <= i < |a.kids| ensures Increasing(b.kids[i]) {
      assert Increasing(a.kids[i]) && Below(a.kids[i], |a.kids|);
    }
  }

  lemma {:induction false} GrowOneParent(a: Arena, d: nat)
    requires a.Valid() && d <= |a.spine|
    ensures a.Grow(d).OneParentEach()
  {
    hide Arena.GrownKids, Increasing, Arena.SpineAt;
    GrowInRange(a, d);
    GrownIncreasing(a, d);
    var b := a.Grow(d);
    forall i, m | 0 <= i < |b.kids| && 0 <= m < |b.kids[i]| ensures b.parents[b.kids[i][m]] == i {
      GrownParents(a, d, i, m);
    }
  }

  lemma GrownSpineAt(a: Arena, d: nat, k: nat)
    requires a.Valid() && k <= d <= |a.spine|
    ensures a.Grow(d).InRange() && a.Grow(d).SpineAt(k)
  {
    GrowInRange(a, d);
    var b := a.Grow(d);
    if k == d {
      assert b.ListAt(k) == a.ListAt(d) + [|a.kids|];
    } else {
      assert a.SpineAt(k);
      assert k > 0 ==> a.spine[k - 1] < a.spine[d - 1];
      assert b.ListAt(k) == a.ListAt(k);
    }
  }

  lemma {:induction false} GrowValid(a: Arena, d: nat)
    requires a.Valid() && d <= |a.spine|
    ensures a.Grow(d).Valid()
  {
    hide Arena.SpineAt, Arena.GrownKids;
    GrowOneParent(a, d);
    forall k | 0 <= k < |a.Grow(d).spine| ensures a.Grow(d).SpineAt(k) {
      GrownSpineAt(a, d, k);
    }
  }

  /** i is one of the first d spine nodes. */
  ghost predicate OnSpine(a: Arena, d: nat, i: nat)
    requires d <= |a.spine|
  {
    exists k :: 0 <= k < d && a.spine[k] == i
  }

  lemma ParentOnSpine(a: Arena, d: nat, i: nat, m: nat)
    requires a.Valid() && d <= |a.spine| && i < |a.kids| && m < |a.kids[i]|
    requires OnSpine(a, d, a.kids[i][m])
    ensures OnSpine(a, d, i)
  {
    var k :| 0 <= k < d && a.spine[k] == a.kids[i][m];
    assert a.SpineAt(k);
    assert a.spine[k - 1] == i;
  }

  /** Off the kept part of the spine nothing changes. */
  lemma {:induction false} GrowElsewhere(a: Arena, d: nat, xs: seq<Component>, x: Component, i: nat)
    requires a.Valid() && d <= |a.spine| && |xs| == |a.kids| && i < |a.kids|
    requires !OnSpine(a, d, i)
    ensures a.Grow(d).InRange()
    ensures TreeAt(a.Grow(d).kids, xs + [x], i) == TreeAt(a.kids, xs, i)
    decreases |a.kids| - i
  {
    hide TreeAt;
    GrowInRange(a, d);
    var b := a.Grow(d);
    assert b.kids[i] == a.kids[i];
    forall m | 0 <= m < |a.kids[i]|
      ensures TreeAt(b.kids, xs + [x], a.kids[i][m]) == TreeAt(a.kids, xs, a.kids[i][m])
    {
      if OnSpine(a, d, a.kids[i][m]) {
        ParentOnSpine(a, d, i, m);
      }
      GrowElsewhere(a, d, xs, x, a.kids[i][m]);
    }
    SameTree(b.kids, xs + [x], i, a.kids, xs, i);
  }

  ghost function SpineForest(a: Arena, xs: seq<Component>, k: nat): seq<Tree<Component>>
    requires a.InRange() && |xs| == |a.kids| && k <= |a.spine|
  {
    ForestAt(a.kids, xs, a.ListAt(k))
  }

  lemma SpineUnfold(a: Arena, xs: seq<Component>, k: nat)
    requires a.Valid() && |xs| == |a.kids| && k < |a.spine|
    ensures
      var f := SpineForest(a, xs, k);
      f != [] && f[|f| - 1] == Tree.Node(xs[a.spine[k]], SpineForest(a, xs, k + 1))
  {
    assert a.SpineAt(k);
    assert TreeAt(a.kids, xs, a.spine[k]).kids == SpineForest(a, xs, k + 1);
  }

  ghost function Descent(a: Arena, xs: seq<Component>, d: nat): (r: seq<seq<Tree<Component>>>)
    requires a.InRange() && |xs| == |a.kids| && d <= |a.spine|
    ensures |r| == d + 1
    ensures forall k :: 0 <= k <= d ==> r[k] == SpineForest(a, xs, k)
  {
    seq(d + 1, k requires 0 <= k <= d => SpineForest(a, xs, k))
  }

  ghost function SpineData(a: Arena, xs: seq<Component>, d: nat): (r: seq<Component>)
    requires a.InRange() && |xs| == |a.kids| && d <= |a.spine|
    ensures |r| == d
    ensures forall k :: 0 <= k < d ==> r[k] == xs[a.spine[k]]
  {
    seq(d, k requires 0 <= k < d => xs[a.spine[k]])
  }

  lemma {:induction false} DescentDescends(a: Arena, xs: seq<Component>, d: nat)
    requires a.Valid() && |xs| == |a.kids| && d <= |a.spine|
    ensures Descends(Descent(a, xs, d), SpineData(a, xs, d))
  {
    forall k | 0 <= k < d ensures StepsDown(Descent(a, xs, d), SpineData(a, xs, d), k) {
      SpineUnfold(a, xs, k);
    }
  }

  /** The stack is the rightmost spine of the forest. */
  lemma StackIsSpine(a: Arena, xs: seq<Component>)
    requires a.Valid() && |xs| == |a.kids|
    ensures Spine(SpineForest(a, xs, 0)) == |a.spine|
    ensures forall d :: 0 <= d < |a.spine| ==> OpenAt(SpineForest(a, xs, 0), d) == xs[a.spine[d]]
  {
    DescentDescends(a, xs, |a.spine|);
    DescentIsSpine(Descent(a, xs, |a.spine|), SpineData(a, xs, |a.spine|));
  }

  lemma SameOwner(a: Arena, j: nat, k: nat)
    requires a.InRange() && Increasing(a.spine) && j <= |a.spine| && k <= |a.spine|
    requires a.OwnerAt(j) == a.OwnerAt(k)
    ensures j == k
  {
  }

  /** Of the siblings at depth k only the last can be a spine node. */
  lemma SpineEndsList(a: Arena, d: nat, k: nat, m: nat)
    requires a.Valid() && k <= d <= |a.spine| && m < |a.ListAt(k)|
    requires OnSpine(a, d, a.ListAt(k)[m])
    ensures k < d && m == |a.ListAt(k)| - 1
  {
    var list := a.ListAt(k);
    assert Increasing(list);
    assert a.parents[list[m]] == a.OwnerAt(k);
    var j :| 0 <= j < d && a.spine[j] == list[m];
    assert a.SpineAt(j);
    SameOwner(a, j, k);
  }

  /** The trees at depth k of the spine, but for the last above the cut, are untouched. */
  lemma {:induction false} SiblingsUntouched(a: Arena, d: nat, xs: seq<Component>, x: Component, k: nat, m: nat)
    requires a.Valid() && k <= d <= |a.spine| && |xs| == |a.kids|
    requires m < |a.ListAt(k)| && (k == d || m < |a.ListAt(k)| - 1)
    ensures a.Grow(d).InRange()
    ensures TreeAt(a.Grow(d).kids, xs + [x], a.ListAt(k)[m]) == SpineForest(a, xs, k)[m]
  {
    if OnSpine(a, d, a.ListAt(k)[m]) {
      SpineEndsList(a, d, k, m);
    }
    GrowElsewhere(a, d, xs, x, a.ListAt(k)[m]);
  }

  lemma {:induction false} InitUntouched(a: Arena, d: nat, xs: seq<Component>, x: Component, k: nat)
    requires a.Valid() && k < d <= |a.spine| && |xs| == |a.kids|
    ensures a.Grow(d).InRange() && k < |a.Grow(d).spine|
    ensures
      var f, g := SpineForest(a, xs, k), SpineForest(a.Grow(d), xs + [x], k);
      |g| == |f| && forall m :: 0 <= m < |f| - 1 ==> g[m] == f[m]
  {
    GrownList(a, d, k);
    var f, g := SpineForest(a, xs, k), SpineForest(a.Grow(d), xs + [x], k);
    forall m | 0 <= m < |f| - 1 ensures g[m] == f[m] {
      SiblingsUntouched(a, d, xs, x, k, m);
    }
  }

  lemma {:induction false} LastRegrown(a: Arena, d: nat, xs: seq<Component>, x: Component, k: nat)
    requires a.Valid() && k < d <= |a.spine| && |xs| == |a.kids|
    ensures a.Grow(d).InRange() && k < |a.Grow(d).spine|
    ensures
      var g := SpineForest(a.Grow(d), xs + [x], k);
      g != [] && g[|g| - 1] == Tree.Node(xs[a.spine[k]], SpineForest(a.Grow(d), xs + [x], k + 1))
  {
    GrowValid(a, d);
    GrownList(a, d, k);
    SpineUnfold(a.Grow(d), xs + [x], k);
  }

  lemma {:induction false} ListRegrown(a: Arena, d: nat, xs: seq<Component>, x: Component, k: nat)
    requires a.Valid() && k < d <= |a.spine| && |xs| == |a.kids|
    ensures a.Grow(d).Valid()
    ensures RegrownAt(Descent(a, xs, d), SpineData(a, xs, d), Descent(a.Grow(d), xs + [x], d), k)
  {
    GrowValid(a, d);
    InitUntouched(a, d, xs, x, k);
    LastRegrown(a, d, xs, x, k);
    ReplaceLast(SpineForest(a, xs, k), SpineForest(a.Grow(d), xs + [x], k));
  }

  lemma ReplaceLast<T>(f: seq<Tree<T>>, g: seq<Tree<T>>)
    requires |f| == |g| > 0 && forall m :: 0 <= m < |f| - 1 ==> g[m] == f[m]
    ensures g == f[..|f| - 1] + [g[|g| - 1]]
  {
  }

  lemma {:induction false} ListExtended(a: Arena, d: nat, xs: seq<Component>, x: Component)
    requires a.Valid() && d <= |a.spine| && |xs| == |a.kids|
    ensures a.Grow(d).Valid()
    ensures SpineForest(a.Grow(d), xs + [x], d) == SpineForest(a, xs, d) + [Tree.Node(x, [])]
  {
    GrowValid(a, d);
    var b := a.Grow(d);
    var f, g := SpineForest(a, xs, d), SpineForest(b, xs + [x], d);
    assert b.ListAt(d) == a.ListAt(d) + [|a.kids|];
    assert g[|f|] == Tree.Node(x, []);
    forall m | 0 <= m < |f| ensures g[m] == f[m] {
      SiblingsUntouched(a, d, xs, x, d, m);
    }
  }

  /** Growing the pointer structure under spine[d - 1] is attaching at depth d. */
  lemma {:induction false} GrowAttaches(a: Arena, d: nat, xs: seq<Component>, x: Component)
    requires a.Valid() && d <= |a.spine| && |xs| == |a.kids|
    ensures a.Grow(d).Valid()
    ensures d <= Spine(SpineForest(a, xs, 0))
    ensures SpineForest(a.Grow(d), xs + [x], 0) == Attach(SpineForest(a, xs, 0), d, x)
  {
    GrowValid(a, d);
    DescentDescends(a, xs, d);
    var down, data, up := Descent(a, xs, d), SpineData(a, xs, d), Descent(a.Grow(d), xs + [x], d);
    ListExtended(a, d, xs, x);
    forall k | 0 <= k < d ensures RegrownAt(down, data, up, k) {
      ListRegrown(a, d, xs, x, k);
    }
    RegrownIsAttach(down, data, up, x);
  }

  lemma GrownList(a: Arena, d: nat, k: nat)
    requires a.Valid() && k < d <= |a.spine|
    ensures a.Grow(d).InRange() && a.Grow(d).ListAt(k) == a.ListAt(k) && a.Grow(d).spine[k] == a.spine[k]
  {
    GrowInRange(a, d);
    if k > 0 {
      assert a.spine[k - 1] < a.spine[d - 1];
    }
  }

  // ---- parse --------------------------------------------------------------------------

  /** The objects behind a scan: every kept node in creation order, the pointer structure
      between them, and the stack as a list of references. */
  ghost predicate Represents(nodes: seq<Node>, a: Arena, roots: seq<Node>, stack: seq<Node>, f: seq<Tree<Component>>)
    reads nodes
  {
    && a.Valid() && Linked(nodes, a.kids)
    && roots == Refs(nodes, a.roots) && stack == Refs(nodes, a.spine)
    && f == SpineForest(a, Contents(nodes), 0)
  }

  /** What `parse` leaves on success. */
  class ImportResult {
    var roots: seq<Node>
    var emptyRows: seq<nat>
    var cappedRows: seq<nat>

    constructor ()
      ensures roots == [] && emptyRows == [] && cappedRows == []
    {
      roots, emptyRows, cappedRows := [], [], [];
    }
  }

  datatype ParseError = Rejected(row: nat, reason: Reason) | Crashed(row: nat, fault: Fault)

  lemma RefsGrow(nodes: seq<Node>, c: Node, ks: seq<nat>)
    requires Below(ks, |nodes|)
    ensures Refs(nodes + [c], ks) == Refs(nodes, ks)
    ensures Refs(nodes + [c], ks + [|nodes|]) == Refs(nodes, ks) + [c]
  {
  }

  /** `stack` and `roots` after the arena grew at depth d. */
  lemma {:induction false} RefsAfterGrow(nodes: seq<Node>, c: Node, a: Arena, d: nat)
    requires a.Valid() && |nodes| == |a.kids| && d <= |a.spine|
    ensures a.Grow(d).InRange()
    ensures Refs(nodes + [c], a.Grow(d).spine) == Refs(nodes, a.spine)[..d] + [c]
    ensures Refs(nodes + [c], a.Grow(d).roots) == if d == 0 then Refs(nodes, a.roots) + [c] else Refs(nodes, a.roots)
  {
    GrowInRange(a, d);
    RefsGrow(nodes, c, a.roots);
    RefsGrow(nodes, c, a.spine[..d]);
    assert Refs(nodes, a.spine)[..d] == Refs(nodes, a.spine[..d]);
  }

  ghost function ChildLists(nodes: seq<Node>): (r: seq<seq<Node>>)
    reads nodes
    ensures |r| == |nodes| && forall i :: 0 <= i < |nodes| ==> r[i] == nodes[i].children
  {
    seq(|nodes|, i reads nodes requires 0 <= i < |nodes| => nodes[i].children)
  }

  /** Appending the new object to its parent's list links the grown arena. */
  lemma {:induction false} LinkedAfterAppend(nodes: seq<Node>, c: Node, a: Arena, d: nat, was: seq<seq<Node>>)
    requires a.Valid() && d <= |a.spine| && |nodes| == |a.kids| == |was|
    requires Distinct(nodes) && c !in nodes && c.children == []
    requires forall i {:trigger was[i]} :: 0 <= i < |nodes| ==> was[i] == Refs(nodes, a.kids[i])
    requires forall i {:trigger nodes[i]} :: 0 <= i < |nodes| ==>
      nodes[i].children == if d > 0 && i == a.spine[d - 1] then was[i] + [c] else was[i]
    ensures Linked(nodes + [c], a.Grow(d).kids)
  {
    GrowInRange(a, d);
    var all, kids := nodes + [c], a.Grow(d).kids;
    forall i | 0 <= i < |all| ensures all[i].children == Refs(all, kids[i]) {
      if i < |nodes| {
        assert all[i] == nodes[i];
        assert was[i] == Refs(nodes, a.kids[i]);
        RefsGrow(nodes, c, a.kids[i]);
      }
    }
  }

  /** A new root changes no object. */
  lemma {:induction false} RootRepresents(component: Node, roots: seq<Node>, stack: seq<Node>, nodes: seq<Node>, a: Arena, f: seq<Tree<Component>>)
    requires Represents(nodes, a, roots, stack, f)
    requires component !in nodes && component.children == []
    ensures a.Grow(0).Valid()
    ensures Represents(nodes + [component], a.Grow(0), roots + [component], [component], Attach(f, 0, component.Value()))
  {
    hide Arena.Grow, SpineForest, Attach;
    GrowAttaches(a, 0, Contents(nodes), component.Value());
    RefsAfterGrow(nodes, component, a, 0);
    LinkedAfterAppend(nodes, component, a, 0, ChildLists(nodes));
    assert Contents(nodes + [component]) == Contents(nodes) + [component.Value()];
  }

  /** The objects after an in-place append below spine[d - 1]. */
  lemma {:induction false} AppendRepresents(component: Node, roots: seq<Node>, stack: seq<Node>, nodes: seq<Node>,
                         a: Arena, d: nat, xs: seq<Component>, was: seq<seq<Node>>)
    requires a.Valid() && 0 < d <= |a.spine| && |nodes| == |a.kids| == |was| == |xs|
    requires Distinct(nodes) && component !in nodes && component.children == []
    requires roots == Refs(nodes, a.roots) && stack == Refs(nodes, a.spine)
    requires Contents(nodes) == xs
    requires forall i {:trigger was[i]} :: 0 <= i < |nodes| ==> was[i] == Refs(nodes, a.kids[i])
    requires forall i {:trigger nodes[i]} :: 0 <= i < |nodes| ==>
      nodes[i].children == if i == a.spine[d - 1] then was[i] + [component] else was[i]
    ensures a.Grow(d).Valid() && d <= Spine(SpineForest(a, xs, 0))
    ensures Represents(nodes + [component], a.Grow(d), roots, stack[..d] + [component],
                       Attach(SpineForest(a, xs, 0), d, component.Value()))
  {
    hide Arena.Grow, SpineForest, Attach;
    GrowAttaches(a, d, xs, component.Value());
    RefsAfterGrow(nodes, component, a, d);
    LinkedAfterAppend(nodes, component, a, d, was);
    assert Contents(nodes + [component]) == xs + [component.Value()];
  }

  /** Attaching below an open node, in place. */
  method PlaceUnder(component: Node, parent: Node, stack: seq<Node>, cut: nat, ghost roots: seq<Node>,
                    ghost nodes: seq<Node>, ghost a: Arena, ghost f: seq<Tree<Component>>)
    returns (stack': seq<Node>)
    requires Represents(nodes, a, roots, stack, f)
    requires component !in nodes && component.children == []
    requires 0 < cut <= |stack| && parent == stack[cut - 1]
    modifies parent`children, component`parentLocalId
    ensures a.Grow(cut).Valid() && Spine(f) == |stack|
    ensures Represents(nodes + [component], a.Grow(cut), roots, stack', Attach(f, cut, Wired(old(component.Value()), f, cut)))
  {
    hide Arena.Grow, SpineForest, Attach;
    ghost var xs, was := Contents(nodes), ChildLists(nodes);
    StackIsSpine(a, xs);
    component.parentLocalId := Some(parent.localId);
    parent.children := parent.children + [component];
    stack' := stack[..cut] + [component];
    assert Contents(nodes) == xs;
    AppendRepresents(component, roots, stack, nodes, a, cut, xs, was);
  }

  /** The parent's index and the bound of `del stack[level:]` are one apart, negative levels included. */
  lemma CutIsBelowParent(length: nat, level: int)
    requires level != 0 && length != 0
    ensures PyIndex(length, level - 1).Some? ==> PyCut(length, level) == PyIndex(length, level - 1).value + 1
  {
  }

  lemma OpenIsNode(nodes: seq<Node>, a: Arena, roots: seq<Node>, stack: seq<Node>, f: seq<Tree<Component>>)
    requires Represents(nodes, a, roots, stack, f)
    ensures forall n :: n in stack ==> n in nodes
  {
  }

  /** The stack step: attach a new object under `stack[level - 1]`, with Python's
      negative indices, or as a root; out of range it fails and changes nothing. */
  method PlaceInTree(component: Node, level: int, roots: seq<Node>, stack: seq<Node>,
                     ghost nodes: seq<Node>, ghost a: Arena, ghost f: seq<Tree<Component>>)
    returns (ok: bool, roots': seq<Node>, stack': seq<Node>, ghost d: nat, ghost a': Arena, ghost f': seq<Tree<Component>>)
    requires Represents(nodes, a, roots, stack, f)
    requires component !in nodes && component.children == []
    modifies nodes, component`parentLocalId
    ensures ok <==> Place(level, Spine(f)).Some?
    ensures ok ==> Place(level, Spine(f)) == Some(d) && f' == Attach(f, d, Wired(old(component.Value()), f, d))
    ensures ok ==> Represents(nodes + [component], a', roots', stack', f')
  {
    hide Linked, SpineForest, Arena.SpineAt, Attach, OpenAt;
    ok := SpineIsOpen(level, stack, roots, nodes, a, f);
    roots', stack', d, a', f' := roots, stack, 0, a, f;
    if level == 0 || |stack| == 0 {
      f' := Attach(f, 0, component.Value());
      RootRepresents(component, roots, stack, nodes, a, f);
      roots', stack', a' := roots + [component], [component], a.Grow(0);
    } else if ok {
      CutIsBelowParent(|stack|, level);
      var cut := PyCut(|stack|, level);
      d := cut;
      f' := Attach(f, cut, Wired(component.Value(), f, cut));
      var parent := stack[PyIndex(|stack|, level - 1).value];
      OpenIsNode(nodes, a, roots, stack, f);
      assert parent in nodes;
      stack' := PlaceUnder(component, parent, stack, cut, roots, nodes, a, f);
      a' := a.Grow(cut);
    }
  }

  /** Whether the row has a place: read off the length of the stack. */
  method SpineIsOpen(level: int, stack: seq<Node>, ghost roots: seq<Node>,
                     ghost nodes: seq<Node>, ghost a: Arena, ghost f: seq<Tree<Component>>) returns (ok: bool)
    requires Represents(nodes, a, roots, stack, f)
    ensures Spine(f) == |stack| == |a.spine|
    ensures ok <==> Place(level, Spine(f)).Some?
  {
    StackIsSpine(a, Contents(nodes));
    ok := level == 0 || |stack| == 0 || PyIndex(|stack|, level - 1).Some?;
  }

  // ---- the loop -------------------------------------------------------------------------

  datatype ParseOutcome =
    | Parsed(result: ImportResult)
    | NoHeaderRow
    | NoLevelColumn
    | RowRejected(row: nat, reason: Reason)
    | RowCrashed(row: nat, fault: Fault)

  function AllValues(rows: seq<RawRow>, mapping: Mapping): (r: seq<Values>)
    ensures |r| == |rows|
  {
    seq(|rows|, i requires 0 <= i < |rows| => CanonicalValues(rows[i], mapping))
  }

  /** The error a stopped fold reports. */
  ghost predicate Reports(o: Outcome, error: ParseOutcome) {
    match o
    case Running(_) => false
    case Rejected(row, reason) => error == RowRejected(row, reason)
    case Crashed(row, fault) => error == RowCrashed(row, fault)
  }

  /** One turn of the loop: the objects, the stack and the row lists move as the fold does. */
  method ImportRow(cfg: Config, values: Values, row: nat, result: ImportResult,
                   roots: seq<Node>, stack: seq<Node>, previous: Option<int>,
                   ghost nodes: seq<Node>, ghost a: Arena, ghost s: Scan)
    returns (error: Option<ParseOutcome>, roots': seq<Node>, stack': seq<Node>, previous': Option<int>,
             ghost added: seq<Node>, ghost a': Arena)
    requires Represents(nodes, a, roots, stack, s.forest) && s.previous == previous
    requires s.empty == result.emptyRows && s.capped == result.cappedRows
    modifies result, nodes
    ensures error.Some? ==> Reports(Step(cfg, s, values, row), error.value)
    ensures error.None? ==>
      && Step(cfg, s, values, row).Running?
      && var s' := Step(cfg, s, values, row).scan;
      && Represents(nodes + added, a', roots', stack', s'.forest) && s'.previous == previous'
      && s'.empty == result.emptyRows && s'.capped == result.cappedRows
    ensures fresh(added)
  {
    hide Represents, Attach, RowComponent, ReadLevel, Wired;
    error, roots', stack', previous', added, a' := None, roots, stack, previous, [], a;
    assert nodes + added == nodes;
    if row - 1 > cfg.maxRows {
      error := Some(RowRejected(row, TooManyRows));
      return;
    }
    if EmptyRow(values) {
      result.emptyRows := result.emptyRows + [row];
      return;
    }
    var read := RowLevel(values);
    if read.Unreadable? {
      error := Some(RowRejected(row, read.reason));
      return;
    }
    var level := read.n;
    if previous.Some? && level > previous.value + 1 {
      error := Some(RowRejected(row, SkippedLevel(level, previous.value)));
      return;
    }
    if level > MAX_DEPTH {
      result.cappedRows := result.cappedRows + [row];
      previous' := Some(level);
      return;
    }
    var component := Build(cfg, values, level, row);
    if component == null {
      error := Some(RowCrashed(row, QuantityOverflow));
      return;
    }
    ghost var d, f;
    var ok;
    ok, roots', stack', d, a', f := PlaceInTree(component, level, roots, stack, nodes, a, s.forest);
    if !ok {
      error := Some(RowCrashed(row, NoSuchAncestor));
      return;
    }
    added := [component];
    previous' := Some(level);
  }

  lemma RunOneMore(cfg: Config, values: seq<Values>, i: nat)
    requires i < |values| && Run(cfg, values[..i]).Running?
    ensures Run(cfg, values[..i + 1]) == Step(cfg, Run(cfg, values[..i]).scan, values[i], i + 2)
    ensures !Run(cfg, values[..i + 1]).Running? ==> Run(cfg, values) == Run(cfg, values[..i + 1])
  {
    hide Step, Represents;
    assert values[..i + 1][..i] == values[..i];
    if !Run(cfg, values[..i + 1]).Running? {
      StoppedStays(cfg, values[..i + 1], values[i + 1..]);
      assert values[..i + 1] + values[i + 1..] == values;
    }
  }

  /** The loop over all rows. */
  method ImportRows(cfg: Config, mapping: Mapping, rows: seq<RawRow>, result: ImportResult)
    returns (error: Option<ParseOutcome>, roots: seq<Node>, ghost stack: seq<Node>, ghost nodes: seq<Node>, ghost a: Arena, ghost s: Scan)
    requires result.emptyRows == [] && result.cappedRows == []
    modifies result
    ensures fresh(nodes)
    ensures error.Some? ==> Reports(Run(cfg, AllValues(rows, mapping)), error.value)
    ensures error.None? ==> Run(cfg, AllValues(rows, mapping)) == Running(s)
    ensures error.None? ==> Represents(nodes, a, roots, stack, s.forest)
    ensures error.None? ==> result.emptyRows == s.empty && result.cappedRows == s.capped
  {
    hide Step;
    var open: seq<Node> := [];
    var previous: Option<int> := None;
    error, roots, stack, nodes, a, s := None, [], [], [], EMPTY_ARENA, START;
    ghost var values := AllValues(rows, mapping);
    var i := 0;
    while i < |rows|
      invariant 0 <= i <= |rows|
      invariant error.None? && fresh(nodes)
      invariant Run(cfg, values[..i]) == Running(s)
      invariant Represents(nodes, a, roots, open, s.forest)
      invariant s.previous == previous && s.empty == result.emptyRows && s.capped == result.cappedRows
      modifies result, nodes
    {
      var rowValues := Canonicalize(rows[i], mapping);
      assert rowValues == values[i];
      RunOneMore(cfg, values, i);
      assert Run(cfg, values[..i + 1]) == Step(cfg, s, rowValues, i + 2);
      ghost var added;
      error, roots, open, previous, added, a :=
        ImportRow(cfg, rowValues, i + 2, result, roots, open, previous, nodes, a, s);
      if error.Some? {
        return;
      }
      assert forall n :: n in nodes + added ==> n in nodes || n in added;
      nodes := nodes + added;
      s := Step(cfg, s, rowValues, i + 2).scan;
      i := i + 1;
    }
    assert values[..|rows|] == values;
    stack := open;
  }

  // ---- the normalization pass over the roots --------------------------------------------

  ghost predicate ReachedFromRoots(kids: seq<seq<nat>>, roots: seq<nat>, k: nat, j: nat)
    requires Shaped(kids) && Below(roots, |kids|) && k <= |roots|
  {
    exists m :: 0 <= m < k && Under(kids, roots[m], j)
  }

  ghost predicate RootsCleaned(kids: seq<seq<nat>>, roots: seq<nat>, k: nat, was: seq<Component>, now: seq<Component>)
    requires Shaped(kids) && Below(roots, |kids|) && k <= |roots| && |was| == |now| == |kids|
  {
    forall j {:trigger ReachedFromRoots(kids, roots, k, j)} :: 0 <= j < |kids| ==> now[j] == if ReachedFromRoots(kids, roots, k, j) then Clean(was[j]) else was[j]
  }

  lemma CleanNextRoot(kids: seq<seq<nat>>, roots: seq<nat>, k: nat, was: seq<Component>, mid: seq<Component>, now: seq<Component>)
    requires Shaped(kids) && Below(roots, |kids|) && k < |roots| && |was| == |mid| == |now| == |kids|
    requires RootsCleaned(kids, roots, k, was, mid) && CleanedUnder(kids, roots[k], mid, now)
    ensures RootsCleaned(kids, roots, k + 1, was, now)
  {
    forall j | 0 <= j < |kids|
      ensures now[j] == if ReachedFromRoots(kids, roots, k + 1, j) then Clean(was[j]) else was[j]
    {
      CleanIdempotent(was[j]);
      var earlier, here := ReachedFromRoots(kids, roots, k, j), Under(kids, roots[k], j);
      assert ReachedFromRoots(kids, roots, k + 1, j) <==> earlier || here;
    }
  }

  /** `[normalize(root) for root in roots]`: the same objects, holding the cleaned forest. */
  method NormalizeRoots(roots: seq<Node>, ghost nodes: seq<Node>, ghost kids: seq<seq<nat>>, ghost rootIds: seq<nat>)
    returns (out: seq<Node>)
    requires Linked(nodes, kids) && Below(rootIds, |kids|) && roots == Refs(nodes, rootIds)
    modifies nodes
    ensures Linked(nodes, kids) && out == roots
    ensures ForestAt(kids, Contents(nodes), rootIds) == CleanForest(old(ForestAt(kids, Contents(nodes), rootIds)))
  {
    out := [];
    ghost var was := Contents(nodes);
    var k := 0;
    while k < |roots|
      invariant 0 <= k <= |roots|
      invariant Linked(nodes, kids) && out == roots[..k]
      invariant RootsCleaned(kids, rootIds, k, was, Contents(nodes))
    {
      ghost var mid := Contents(nodes);
      Normalize(roots[k], nodes, kids, rootIds[k]);
      CleanNextRoot(kids, rootIds, k, was, mid, Contents(nodes));
      out := out + [roots[k]];
      k := k + 1;
    }
    CleanedForest(kids, rootIds, was, Contents(nodes));
  }

  lemma CleanedForest(kids: seq<seq<nat>>, roots: seq<nat>, was: seq<Component>, now: seq<Component>)
    requires Shaped(kids) && Below(roots, |kids|) && |was| == |now| == |kids|
    requires RootsCleaned(kids, roots, |roots|, was, now)
    ensures ForestAt(kids, now, roots) == CleanForest(ForestAt(kids, was, roots))
  {
    forall m, j | 0 <= m < |roots| && 0 <= j < |kids| && Under(kids, roots[m], j) ensures now[j] == Clean(was[j]) {
      assert ReachedFromRoots(kids, roots, |roots|, j);
    }
    ForestOfMapped(kids, was, now, Clean, roots);
  }

  /** The result's roots are linked as the normalized forest of the scan. */
  ghost predicate Delivers(result: ImportResult, nodes: seq<Node>, a: Arena, s: Scan)
    reads result, nodes
  {
    && a.Valid() && Linked(nodes, a.kids) && result.roots == Refs(nodes, a.roots)
    && ForestAt(a.kids, Contents(nodes), a.roots) == CleanForest(s.forest)
    && result.emptyRows == s.empty && result.cappedRows == s.capped
  }

  /** `parse`. Its error is the one the fold over the rows stops with. On success the
      result's roots are fresh objects, linked as the normalized forest of the fold, and
      the rows that left no node are listed. */
  method Parse(cfg: Config, mapping: Mapping, hasHeader: bool, rows: seq<RawRow>)
    returns (out: ParseOutcome, ghost nodes: seq<Node>, ghost a: Arena)
    ensures out.NoHeaderRow? <==> !hasHeader
    ensures out.NoLevelColumn? <==> hasHeader && "level" !in mapping.Values
    ensures hasHeader && "level" in mapping.Values ==>
      match Run(cfg, AllValues(rows, mapping))
      case Running(s) => out.Parsed? && fresh(nodes) && fresh(out.result) && Delivers(out.result, nodes, a, s)
      case stopped => Reports(stopped, out)
  {
    nodes, a := [], EMPTY_ARENA;
    if !hasHeader {
      return NoHeaderRow, nodes, a;
    }
    if "level" !in mapping.Values {
      return NoLevelColumn, nodes, a;
    }
    var result := new ImportResult();
    var error, roots;
    ghost var stack, s;
    error, roots, stack, nodes, a, s := ImportRows(cfg, mapping, rows, result);
    if error.Some? {
      return error.value, nodes, a;
    }
    Finish(result, roots, stack, nodes, a, s);
    out := Parsed(result);
  }

  /** The statement after the loop. */
  method Finish(result: ImportResult, roots: seq<Node>, ghost stack: seq<Node>, ghost nodes: seq<Node>, ghost a: Arena, ghost s: Scan)
    requires Represents(nodes, a, roots, stack, s.forest)
    requires result.emptyRows == s.empty && result.cappedRows == s.capped
    modifies result`roots, nodes
    ensures Delivers(result, nodes, a, s)
  {
    assert a.ListAt(0) == a.roots;
    var normalized := NormalizeRoots(roots, nodes, a.kids, a.roots);
    result.roots := normalized;
  }
}
