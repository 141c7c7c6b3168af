/** The two walks over component objects: the generator of workers/hbom/model.py, which stops
    at the depth cap, and `flatten` of frontend/src/lib/hbom.ts, which does not. */
module HbomWalk {
  import opened Forest
  import opened HbomModel
  import opened HbomRows
  import opened HbomImport
  import opened HbomParse

  /** One more tree at the end of the list being walked. */
  lemma WalkNext<T>(kids: seq<seq<nat>>, xs: seq<T>, roots: seq<nat>, k: nat, depth: nat)
    requires Shaped(kids) && |xs| == |kids| && k < |roots| && forall m :: 0 <= m < |roots| ==> roots[m] < |kids|
    ensures Preorder(ForestAt(kids, xs, roots[..k + 1]), depth)
         == Preorder(ForestAt(kids, xs, roots[..k]), depth) + Preorder([TreeAt(kids, xs, roots[k])], depth)
    ensures CappedPreorder(ForestAt(kids, xs, roots[..k + 1]), depth, MAX_DEPTH)
         == CappedPreorder(ForestAt(kids, xs, roots[..k]), depth, MAX_DEPTH)
          + CappedPreorder([TreeAt(kids, xs, roots[k])], depth, MAX_DEPTH)
  {
    hide Preorder, CappedPreorder, TreeAt;
    var f, g := ForestAt(kids, xs, roots[..k]), [TreeAt(kids, xs, roots[k])];
    assert ForestAt(kids, xs, roots[..k + 1]) == f + g;
    PreorderConcat(f, g, depth);
    CappedConcat(f, g, depth, MAX_DEPTH);
  }

  /** A tree's walk from its children's. */
  lemma WalkOfTree<T>(kids: seq<seq<nat>>, xs: seq<T>, i: nat, depth: nat)
    requires Shaped(kids) && |xs| == |kids| && i < |kids|
    ensures Preorder([TreeAt(kids, xs, i)], depth) == [(depth, xs[i])] + Preorder(ForestAt(kids, xs, kids[i]), depth + 1)
    ensures CappedPreorder([TreeAt(kids, xs, i)], depth, MAX_DEPTH)
         == [(depth, xs[i])] + if depth >= MAX_DEPTH then [] else CappedPreorder(ForestAt(kids, xs, kids[i]), depth + 1, MAX_DEPTH)
    ensures kids[i][..|kids[i]|] == kids[i]
    ensures Preorder(ForestAt(kids, xs, kids[i][..0]), depth + 1) == []
    ensures CappedPreorder(ForestAt(kids, xs, kids[i][..0]), depth + 1, MAX_DEPTH) == []
  {
    var t := TreeAt(kids, xs, i);
    assert t.kids == ForestAt(kids, xs, kids[i]);
    PreorderSingle(t, depth);
    assert [t][1..] == [];
  }

  /** `walk`: this node at its depth, then the children's walks while the cap allows. */
  method Walk(n: Node, depth: nat, ghost nodes: seq<Node>, ghost kids: seq<seq<nat>>, ghost i: nat)
    returns (out: seq<(nat, Component)>)
    requires Linked(nodes, kids) && i < |nodes| && nodes[i] == n && depth <= MAX_DEPTH
    ensures out == CappedPreorder([TreeAt(kids, Contents(nodes), i)], depth, MAX_DEPTH)
    decreases |nodes| - i
  {
    hide Preorder, CappedPreorder, TreeAt, ForestAt, Node.Value;
    out := [(depth, n.Value())];
    ghost var xs := Contents(nodes);
    WalkOfTree(kids, xs, i, depth);
    if depth >= MAX_DEPTH {
      return;
    }
    var k := 0;
    while k < |n.children|
      invariant 0 <= k <= |n.children|
      invariant out == [(depth, n.Value())] + CappedPreorder(ForestAt(kids, xs, kids[i][..k]), depth + 1, MAX_DEPTH)
    {
      var below := Walk(n.children[k], depth + 1, nodes, kids, kids[i][k]);
      WalkNext(kids, xs, kids[i], k, depth + 1);
      out := out + below;
      k := k + 1;
    }
  }

  lemma {:induction false} CappedConcat<T>(f: seq<Tree<T>>, g: seq<Tree<T>>, depth: nat, cap: nat)
    ensures CappedPreorder(f + g, depth, cap) == CappedPreorder(f, depth, cap) + CappedPreorder(g, depth, cap)
    decreases |f|
  {
    if f == [] {
      assert f + g == g;
    } else {
      assert (f + g)[0] == f[0] && (f + g)[1..] == f[1..] + g;
      CappedConcat(f[1..], g, depth, cap);
    }
  }

  /** The closure inside `flatten`: it pushes onto one shared list. */
  method FlattenFrom(n: Node, depth: nat, acc: seq<(nat, Component)>,
                     ghost nodes: seq<Node>, ghost kids: seq<seq<nat>>, ghost i: nat) returns (out: seq<(nat, Component)>)
    requires Linked(nodes, kids) && i < |nodes| && nodes[i] == n
    ensures out == acc + Preorder([TreeAt(kids, Contents(nodes), i)], depth)
    decreases |nodes| - i
  {
    hide Preorder, CappedPreorder, TreeAt, ForestAt, Node.Value;
    out := acc + [(depth, n.Value())];
    ghost var xs := Contents(nodes);
    WalkOfTree(kids, xs, i, depth);
    var k := 0;
    while k < |n.children|
      invariant 0 <= k <= |n.children|
      invariant out == acc + [(depth, n.Value())] + Preorder(ForestAt(kids, xs, kids[i][..k]), depth + 1)
    {
      WalkNext(kids, xs, kids[i], k, depth + 1);
      out := FlattenFrom(n.children[k], depth + 1, out, nodes, kids, kids[i][k]);
      k := k + 1;
    }
  }

  /** `flatten` over a parsed result lists the kept rows of the file, cleaned, in file order;
      the capped walk of each root lists the same. */
  method FlattenResult(result: ImportResult, ghost nodes: seq<Node>, ghost a: Arena, ghost s: Scan,
                       ghost cfg: Config, ghost rows: seq<Values>)
    returns (flat: seq<(nat, Component)>, walked: seq<(nat, Component)>)
    requires Delivers(result, nodes, a, s)
    requires Run(cfg, rows) == Outcome.Running(s)
    ensures walked == flat && |flat| == |KeptRows(cfg, rows)|
    ensures flat == Preorder(CleanForest(s.forest), 0) == MapRows(Preorder(s.forest, 0), Clean)
    ensures |flat| + |result.cappedRows| + |result.emptyRows| == |rows|
  {
    hide Run, KeptRows, Preorder, CappedPreorder, TreeAt, ForestAt, Clean;
    flat, walked := [], [];
    ghost var xs := Contents(nodes);
    NothingToWalk(a.kids, xs, a.roots);
    var k := 0;
    while k < |result.roots|
      invariant 0 <= k <= |result.roots|
      invariant flat == Preorder(ForestAt(a.kids, xs, a.roots[..k]), 0)
      invariant walked == CappedPreorder(ForestAt(a.kids, xs, a.roots[..k]), 0, MAX_DEPTH)
    {
      WalkNext(a.kids, xs, a.roots, k, 0);
      flat := FlattenFrom(result.roots[k], 0, flat, nodes, a.kids, a.roots[k]);
      var below := Walk(result.roots[k], 0, nodes, a.kids, a.roots[k]);
      walked := walked + below;
      k := k + 1;
    }
    AcceptedWalk(cfg, rows);
  }

  lemma {:induction false} AcceptedWalk(cfg: Config, rows: seq<Values>)
    requires Run(cfg, rows).Running?
    ensures
      var s := Run(cfg, rows).scan;
      var flat := Preorder(CleanForest(s.forest), 0);
      && CappedPreorder(CleanForest(s.forest), 0, MAX_DEPTH) == flat == MapRows(Preorder(s.forest, 0), Clean)
      && |flat| == |KeptRows(cfg, rows)| && |flat| + |s.capped| + |s.empty| == |rows|
  {
    hide Run, KeptRows, Preorder, CappedPreorder, Clean;
    CappedAndUncappedAgree(cfg, rows);
    CountRows(cfg, rows);
    WalkListsKeptRows(cfg, rows);
  }

  lemma NothingToWalk<T>(kids: seq<seq<nat>>, xs: seq<T>, roots: seq<nat>)
    requires Shaped(kids) && |xs| == |kids| && forall m :: 0 <= m < |roots| ==> roots[m] < |kids|
    ensures Preorder(ForestAt(kids, xs, roots[..0]), 0) == CappedPreorder(ForestAt(kids, xs, roots[..0]), 0, MAX_DEPTH) == []
    ensures roots[..|roots|] == roots
  {
  }
}
