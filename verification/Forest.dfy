/** Ordered trees and the one mutation the importer performs on them: appending
    a node under an ancestor that is still open, i.e. along the rightmost spine. */
module Forest {

  datatype Tree<T> = Node(data: T, kids: seq<Tree<T>>)

  /** (depth, data) for every node, parents before children: `walk` without a cap. */
  function Preorder<T>(f: seq<Tree<T>>, depth: nat): seq<(nat, T)>
    decreases f
  {
    if f == [] then []
    else [(depth, f[0].data)] + Preorder(f[0].kids, depth + 1) + Preorder(f[1..], depth)
  }

  /** `walk` with its cap: a node at depth `cap` is yielded, its children are not. */
  function CappedPreorder<T>(f: seq<Tree<T>>, depth: nat, cap: nat): seq<(nat, T)>
    decreases f
  {
    if f == [] then []
    else
      [(depth, f[0].data)]
      + (if depth >= cap then [] else CappedPreorder(f[0].kids, depth + 1, cap))
      + CappedPreorder(f[1..], depth, cap)
  }

  /** Number of levels: 0 for the empty forest. */
  function Height<T>(f: seq<Tree<T>>): nat
    decreases f
  {
    if f == [] then 0
    else
      var here := 1 + Height(f[0].kids);
      var rest := Height(f[1..]);
      if here > rest then here else rest
  }

  /** Length of the rightmost spine: how many ancestors are open. */
  function Spine<T>(f: seq<Tree<T>>): nat
    decreases f
  {
    if f == [] then 0 else 1 + Spine(f[|f| - 1].kids)
  }

  /** The open node at a depth. */
  function OpenAt<T>(f: seq<Tree<T>>, depth: nat): T
    requires depth < Spine(f)
    decreases depth
  {
    var last := f[|f| - 1];
    if depth == 0 then last.data else OpenAt(last.kids, depth - 1)
  }

  /** Append a leaf at `depth` on the rightmost spine. */
  function Attach<T>(f: seq<Tree<T>>, depth: nat, x: T): seq<Tree<T>>
    requires depth <= Spine(f)
    decreases depth
  {
    if depth == 0 then f + [Node(x, [])]
    else
      var last := f[|f| - 1];
      f[..|f| - 1] + [Node(last.data, Attach(last.kids, depth - 1, x))]
  }

  function MapForest<S, T>(f: seq<Tree<S>>, g: S -> T): seq<Tree<T>>
    decreases f
  {
    if f == [] then []
    else [Node(g(f[0].data), MapForest(f[0].kids, g))] + MapForest(f[1..], g)
  }

  function MapRows<S, T>(rows: seq<(nat, S)>, g: S -> T): (r: seq<(nat, T)>)
    ensures |r| == |rows|
    ensures forall i :: 0 <= i < |rows| ==> r[i] == (rows[i].0, g(rows[i].1))
  {
    seq(|rows|, i requires 0 <= i < |rows| => (rows[i].0, g(rows[i].1)))
  }

  /** A depth sequence a stack can follow: never more than one step deeper than what is open. */
  ghost predicate Legal<T>(open: nat, rows: seq<(nat, T)>)
    decreases |rows|
  {
    rows == [] || (rows[0].0 <= open && Legal(rows[0].0 + 1, rows[1..]))
  }

  /** Attach rows one after another. */
  ghost function AttachAll<T>(f: seq<Tree<T>>, rows: seq<(nat, T)>): seq<Tree<T>>
    requires Legal(Spine(f), rows)
    decreases |rows|
  {
    if rows == [] then f
    else
      SpineAfterAttach(f, rows[0].0, rows[0].1);
      AttachAll(Attach(f, rows[0].0, rows[0].1), rows[1..])
  }

  // ---- what Attach does to the walk and to the spine ----------------------

  lemma {:induction false} PreorderConcat<T>(a: seq<Tree<T>>, b: seq<Tree<T>>, depth: nat)
    ensures Preorder(a + b, depth) == Preorder(a, depth) + Preorder(b, depth)
    decreases a
  {
    if a == [] {
      assert a + b == b;
    } else {
      assert (a + b)[1..] == a[1..] + b;
      PreorderConcat(a[1..], b, depth);
    }
  }

  lemma {:induction false} PreorderSingle<T>(t: Tree<T>, depth: nat)
    ensures Preorder([t], depth) == [(depth, t.data)] + Preorder(t.kids, depth + 1)
  {
    assert [t][1..] == [];
    assert Preorder([t], depth) == [(depth, t.data)] + Preorder(t.kids, depth + 1) + [];
  }

  /** Attaching appends exactly one row to the walk, at the attachment depth. */
  lemma {:induction false} PreorderAfterAttach<T>(f: seq<Tree<T>>, depth: nat, x: T, base: nat)
    requires depth <= Spine(f)
    ensures Preorder(Attach(f, depth, x), base) == Preorder(f, base) + [(base + depth, x)]
    decreases depth
  {
    if depth == 0 {
      PreorderConcat(f, [Node(x, [])], base);
      PreorderSingle(Node(x, []), base);
    } else {
      var init, last := f[..|f| - 1], f[|f| - 1];
      var grown := Node(last.data, Attach(last.kids, depth - 1, x));
      PreorderAfterAttach(last.kids, depth - 1, x, base + 1);
      PreorderConcat(init, [grown], base);
      PreorderSingle(grown, base);
      assert f == init + [last];
      PreorderConcat(init, [last], base);
      PreorderSingle(last, base);
    }
  }

  lemma {:induction false} SpineAfterAttach<T>(f: seq<Tree<T>>, depth: nat, x: T)
    requires depth <= Spine(f)
    ensures Spine(Attach(f, depth, x)) == depth + 1
    decreases depth
  {
    if depth != 0 {
      SpineAfterAttach(f[|f| - 1].kids, depth - 1, x);
    }
  }

  /** The ancestors above the attachment point stay open; the new node is open at its own depth. */
  lemma {:induction false} OpenAfterAttach<T>(f: seq<Tree<T>>, depth: nat, x: T, k: nat)
    requires depth <= Spine(f) && k <= depth
    ensures Spine(Attach(f, depth, x)) == depth + 1
    ensures OpenAt(Attach(f, depth, x), k) == if k == depth then x else OpenAt(f, k)
    decreases depth
  {
    SpineAfterAttach(f, depth, x);
    if depth != 0 && k != 0 {
      OpenAfterAttach(f[|f| - 1].kids, depth - 1, x, k - 1);
    }
  }

  /** `down` lists the sibling lists met on the way down the rightmost spine, `data` the
      nodes passed. */
  ghost predicate Descends<T>(down: seq<seq<Tree<T>>>, data: seq<T>) {
    && |down| == |data| + 1
    && forall k {:trigger StepsDown(down, data, k)} :: 0 <= k < |data| ==> StepsDown(down, data, k)
  }

  ghost predicate StepsDown<T>(down: seq<seq<Tree<T>>>, data: seq<T>, k: nat)
    requires k < |data| && |down| == |data| + 1
  {
    down[k] != [] && down[k][|down[k]| - 1] == Node(data[k], down[k + 1])
  }

  lemma {:induction false} DescentIsSpine<T>(down: seq<seq<Tree<T>>>, data: seq<T>)
    requires Descends(down, data) && down[|data|] == []
    ensures Spine(down[0]) == |data|
    ensures forall d: nat {:trigger OpenAt(down[0], d)} :: d < |data| ==> OpenAt(down[0], d) == data[d]
    decreases |data|
  {
    if data != [] {
      assert StepsDown(down, data, 0);
      TailDescends(down, data);
      DescentIsSpine(down[1..], data[1..]);
      forall d: nat | d < |data| ensures OpenAt(down[0], d) == data[d] {
        if d > 0 {
          assert OpenAt(down[1..][0], d - 1) == data[1..][d - 1];
        }
      }
    }
  }

  lemma TailDescends<T>(down: seq<seq<Tree<T>>>, data: seq<T>)
    requires Descends(down, data) && data != []
    ensures Descends(down[1..], data[1..])
  {
    forall k | 0 <= k < |data[1..]| ensures StepsDown(down[1..], data[1..], k) {
      assert StepsDown(down, data, k + 1);
    }
  }

  /** The sibling lists along the spine, after a leaf was appended to the last of them. */
  ghost predicate Regrown<T>(down: seq<seq<Tree<T>>>, data: seq<T>, up: seq<seq<Tree<T>>>, x: T) {
    && |up| == |down| == |data| + 1
    && up[|data|] == down[|data|] + [Node(x, [])]
    && forall k {:trigger RegrownAt(down, data, up, k)} :: 0 <= k < |data| ==> RegrownAt(down, data, up, k)
  }

  ghost predicate RegrownAt<T>(down: seq<seq<Tree<T>>>, data: seq<T>, up: seq<seq<Tree<T>>>, k: nat)
    requires |up| == |down| == |data| + 1 && k < |data|
  {
    down[k] != [] && up[k] == down[k][..|down[k]| - 1] + [Node(data[k], up[k + 1])]
  }

  lemma {:induction false} RegrownIsAttach<T>(down: seq<seq<Tree<T>>>, data: seq<T>, up: seq<seq<Tree<T>>>, x: T)
    requires Descends(down, data) && Regrown(down, data, up, x)
    ensures |data| <= Spine(down[0]) && up[0] == Attach(down[0], |data|, x)
    decreases |data|
  {
    if data != [] {
      assert StepsDown(down, data, 0) && RegrownAt(down, data, up, 0);
      TailDescends(down, data);
      forall k | 0 <= k < |data[1..]| ensures RegrownAt(down[1..], data[1..], up[1..], k) {
        assert RegrownAt(down, data, up, k + 1);
      }
      RegrownIsAttach(down[1..], data[1..], up[1..], x);
    }
  }

  lemma {:induction false} HeightConcat<T>(a: seq<Tree<T>>, b: seq<Tree<T>>)
    ensures Height(a + b) == if Height(a) > Height(b) then Height(a) else Height(b)
    decreases a
  {
    if a == [] {
      assert a + b == b;
    } else {
      assert (a + b)[1..] == a[1..] + b;
      HeightConcat(a[1..], b);
    }
  }

  lemma {:induction false} HeightSingle<T>(t: Tree<T>)
    ensures Height([t]) == 1 + Height(t.kids)
  {
    assert [t][1..] == [];
  }

  lemma {:induction false} HeightAfterAttach<T>(f: seq<Tree<T>>, depth: nat, x: T)
    requires depth <= Spine(f)
    ensures Height(Attach(f, depth, x)) == if Height(f) > depth + 1 then Height(f) else depth + 1
    decreases depth
  {
    if depth == 0 {
      HeightConcat(f, [Node(x, [])]);
      HeightSingle(Node(x, []));
    } else {
      var init, last := f[..|f| - 1], f[|f| - 1];
      var grown := Node(last.data, Attach(last.kids, depth - 1, x));
      HeightAfterAttach(last.kids, depth - 1, x);
      HeightConcat(init, [grown]);
      HeightSingle(grown);
      assert f == init + [last];
      HeightConcat(init, [last]);
      HeightSingle(last);
    }
  }

  // ---- the capped walk against the uncapped one ---------------------------

  /** The cap hides nothing exactly when no node lies below it. */
  lemma {:induction false} CapHidesNothing<T>(f: seq<Tree<T>>, depth: nat, cap: nat)
    requires depth <= cap
    ensures |CappedPreorder(f, depth, cap)| <= |Preorder(f, depth)|
    ensures CappedPreorder(f, depth, cap) == Preorder(f, depth) <==> depth + Height(f) <= cap + 1
    decreases f
  {
    if f != [] {
      CapHidesNothing(f[1..], depth, cap);
      var head := [(depth, f[0].data)];
      var mine, rest := Preorder(f[0].kids, depth + 1), Preorder(f[1..], depth);
      var mineC := if depth >= cap then [] else CappedPreorder(f[0].kids, depth + 1, cap);
      var restC := CappedPreorder(f[1..], depth, cap);
      if depth < cap {
        CapHidesNothing(f[0].kids, depth + 1, cap);
      }
      assert |mineC| <= |mine|;
      if head + mineC + restC == head + mine + rest {
        assert |mineC| == |mine| && |restC| == |rest|;
        assert mineC == (head + mineC + restC)[1..1 + |mineC|];
        assert mine == (head + mine + rest)[1..1 + |mine|];
        assert restC == (head + mineC + restC)[1 + |mineC|..];
        assert rest == (head + mine + rest)[1 + |mine|..];
      }
    }
  }

  // ---- parse after print ----------------------------------------------------

  lemma {:induction false} PreorderLegal<T>(f: seq<Tree<T>>, depth: nat, open: nat)
    requires depth <= open
    ensures Legal(open, Preorder(f, depth))
    ensures f != [] ==> EndDepth(Preorder(f, depth)) >= depth
    decreases f
  {
    if f != [] {
      var mine, rest := Preorder(f[0].kids, depth + 1), Preorder(f[1..], depth);
      PreorderLegal(f[0].kids, depth + 1, depth + 1);
      var last := if mine == [] then depth else EndDepth(mine);
      PreorderLegal(f[1..], depth, last + 1);
      LegalConcat(depth + 1, mine, rest);
      assert Preorder(f, depth) == [(depth, f[0].data)] + (mine + rest);
    }
  }

  ghost function EndDepth<T>(rows: seq<(nat, T)>): nat
    requires rows != []
  {
    rows[|rows| - 1].0
  }

  lemma {:induction false} LegalConcat<T>(open: nat, a: seq<(nat, T)>, b: seq<(nat, T)>)
    ensures Legal(open, a + b)
       <==> Legal(open, a) && Legal(if a == [] then open else EndDepth(a) + 1, b)
    decreases |a|
  {
    if a == [] {
      assert a + b == b;
    } else {
      assert (a + b)[1..] == a[1..] + b;
      LegalConcat(a[0].0 + 1, a[1..], b);
    }
  }

  /** Attaching a concatenation is attaching the parts in turn. */
  lemma {:induction false} AttachAllConcat<T>(f: seq<Tree<T>>, a: seq<(nat, T)>, b: seq<(nat, T)>)
    requires Legal(Spine(f), a + b)
    ensures Legal(Spine(f), a) && Legal(Spine(AttachAll(f, a)), b)
    ensures AttachAll(f, a + b) == AttachAll(AttachAll(f, a), b)
    decreases |a|
  {
    LegalConcat(Spine(f), a, b);
    if a == [] {
      assert a + b == b;
    } else {
      SpineAfterAttach(f, a[0].0, a[0].1);
      assert (a + b)[1..] == a[1..] + b;
      AttachAllConcat(Attach(f, a[0].0, a[0].1), a[1..], b);
    }
  }

  lemma {:induction false} WalkOfAttachAll<T>(f: seq<Tree<T>>, rows: seq<(nat, T)>)
    requires Legal(Spine(f), rows)
    ensures Preorder(AttachAll(f, rows), 0) == Preorder(f, 0) + rows
    decreases |rows|
  {
    if rows != [] {
      SpineAfterAttach(f, rows[0].0, rows[0].1);
      PreorderAfterAttach(f, rows[0].0, rows[0].1, 0);
      WalkOfAttachAll(Attach(f, rows[0].0, rows[0].1), rows[1..]);
      assert Preorder(f, 0) + [rows[0]] + rows[1..] == Preorder(f, 0) + rows;
    }
  }

  /** Graft a whole forest at a depth of the spine, as attaching its rows one by one does. */
  function Graft<T>(f: seq<Tree<T>>, depth: nat, g: seq<Tree<T>>): seq<Tree<T>>
    requires depth <= Spine(f)
    decreases depth
  {
    if depth == 0 then f + g
    else
      var last := f[|f| - 1];
      f[..|f| - 1] + [Node(last.data, Graft(last.kids, depth - 1, g))]
  }

  lemma {:induction false} GraftNothing<T>(f: seq<Tree<T>>, depth: nat)
    requires depth <= Spine(f)
    ensures Graft(f, depth, []) == f
    decreases depth
  {
    if depth != 0 {
      GraftNothing(f[|f| - 1].kids, depth - 1);
    }
  }

  lemma {:induction false} SpineAfterGraft<T>(f: seq<Tree<T>>, depth: nat, g: seq<Tree<T>>)
    requires depth <= Spine(f)
    ensures Spine(Graft(f, depth, g)) == if g == [] then Spine(f) else depth + Spine(g)
    decreases depth
  {
    if depth == 0 {
      if g != [] {
        assert (f + g)[|f + g| - 1] == g[|g| - 1];
      } else {
        assert f + g == f;
      }
    } else {
      SpineAfterGraft(f[|f| - 1].kids, depth - 1, g);
    }
  }

  /** Grafting deeper than the top level only touches the last tree. */
  lemma GraftBelowLast<T>(init: seq<Tree<T>>, data: T, kids: seq<Tree<T>>, depth: nat, g: seq<Tree<T>>)
    requires depth <= Spine(kids)
    ensures Spine(init + [Node(data, kids)]) == Spine(kids) + 1
    ensures Graft(init + [Node(data, kids)], depth + 1, g) == init + [Node(data, Graft(kids, depth, g))]
  {
    var f := init + [Node(data, kids)];
    assert f[|f| - 1] == Node(data, kids) && f[..|f| - 1] == init;
  }

  lemma GraftUnfoldTop<T>(f: seq<Tree<T>>, t: Tree<T>, rest: seq<Tree<T>>)
    ensures Spine(f + [Node(t.data, [])]) == 1
    ensures Graft(f + [Node(t.data, [])], 1, t.kids) + rest == f + ([t] + rest)
  {
    GraftBelowLast(f, t.data, [], 0, t.kids);
    assert [] + t.kids == t.kids;
    assert f + [t] + rest == f + ([t] + rest);
  }

  /** Grafting [t] + rest is attaching t's data, grafting its kids below it, then the rest. */
  lemma {:induction false} GraftUnfold<T>(f: seq<Tree<T>>, depth: nat, t: Tree<T>, rest: seq<Tree<T>>)
    requires depth <= Spine(f)
    ensures Spine(Attach(f, depth, t.data)) == depth + 1
    ensures depth <= Spine(Graft(Attach(f, depth, t.data), depth + 1, t.kids))
    ensures Graft(Graft(Attach(f, depth, t.data), depth + 1, t.kids), depth, rest)
         == Graft(f, depth, [t] + rest)
    decreases depth
  {
    SpineAfterAttach(f, depth, t.data);
    SpineAfterGraft(Attach(f, depth, t.data), depth + 1, t.kids);
    if depth == 0 {
      GraftUnfoldTop(f, t, rest);
    } else {
      var init, last := f[..|f| - 1], f[|f| - 1];
      GraftUnfold(last.kids, depth - 1, t, rest);
      var a := Attach(last.kids, depth - 1, t.data);
      var b := Graft(a, depth, t.kids);
      assert Attach(f, depth, t.data) == init + [Node(last.data, a)];
      GraftBelowLast(init, last.data, a, depth, t.kids);
      GraftBelowLast(init, last.data, b, depth - 1, rest);
    }
  }

  /** Attaching a forest's own walk rebuilds that forest in place. */
  lemma {:induction false} AttachPreorder<T>(f: seq<Tree<T>>, depth: nat, g: seq<Tree<T>>)
    requires depth <= Spine(f)
    ensures Legal(Spine(f), Preorder(g, depth))
    ensures AttachAll(f, Preorder(g, depth)) == Graft(f, depth, g)
    decreases g
  {
    PreorderLegal(g, depth, Spine(f));
    if g == [] {
      GraftNothing(f, depth);
    } else {
      var t, rest := g[0], g[1..];
      GraftUnfold(f, depth, t, rest);
      var a := Attach(f, depth, t.data);
      AttachPreorder(a, depth + 1, t.kids);
      AttachPreorder(Graft(a, depth + 1, t.kids), depth, rest);
      AttachSubtreeRows(f, depth, t, rest);
      assert [t] + rest == g;
    }
  }

  /** The rows of [t] + rest attach as t's row, then t's kids, then rest. */
  lemma AttachSubtreeRows<T>(f: seq<Tree<T>>, depth: nat, t: Tree<T>, rest: seq<Tree<T>>)
    requires depth <= Spine(f)
    ensures Spine(Attach(f, depth, t.data)) == depth + 1
    ensures Legal(depth + 1, Preorder(t.kids, depth + 1))
    ensures
      var mid := AttachAll(Attach(f, depth, t.data), Preorder(t.kids, depth + 1));
      && Legal(Spine(mid), Preorder(rest, depth))
      && Legal(Spine(f), Preorder([t] + rest, depth))
      && AttachAll(f, Preorder([t] + rest, depth)) == AttachAll(mid, Preorder(rest, depth))
  {
    var g := [t] + rest;
    assert g[1..] == rest;
    SpineAfterAttach(f, depth, t.data);
    PreorderLegal(g, depth, Spine(f));
    var mine, after := Preorder(t.kids, depth + 1), Preorder(rest, depth);
    var all := Preorder(g, depth);
    assert all == [(depth, t.data)] + (mine + after);
    assert all[1..] == mine + after;
    AttachAllConcat(Attach(f, depth, t.data), mine, after);
  }

  /** Walk then rebuild is the identity on every forest. */
  lemma RebuildFromWalk<T>(g: seq<Tree<T>>)
    ensures Legal(0, Preorder(g, 0))
    ensures AttachAll([], Preorder(g, 0)) == g
  {
    AttachPreorder([], 0, g);
    assert [] + g == g;
  }

  /** Rebuild then walk is the identity on every row sequence a stack can follow. */
  lemma WalkOfRebuild<T>(rows: seq<(nat, T)>)
    requires Legal(0, rows)
    ensures Preorder(AttachAll([], rows), 0) == rows
  {
    WalkOfAttachAll([], rows);
  }

  // ---- maps -------------------------------------------------------------------

  lemma {:induction false} PreorderOfMap<S, T>(f: seq<Tree<S>>, g: S -> T, depth: nat)
    ensures Preorder(MapForest(f, g), depth) == MapRows(Preorder(f, depth), g)
    decreases f
  {
    if f != [] {
      PreorderOfMap(f[0].kids, g, depth + 1);
      PreorderOfMap(f[1..], g, depth);
      var mf := MapForest(f, g);
      assert mf[0].kids == MapForest(f[0].kids, g) && mf[1..] == MapForest(f[1..], g);
    }
  }

  lemma {:induction false} HeightOfMap<S, T>(f: seq<Tree<S>>, g: S -> T)
    ensures Height(MapForest(f, g)) == Height(f)
    decreases f
  {
    if f != [] {
      HeightOfMap(f[0].kids, g);
      HeightOfMap(f[1..], g);
      var mf := MapForest(f, g);
      assert mf[0].kids == MapForest(f[0].kids, g) && mf[1..] == MapForest(f[1..], g);
    }
  }

  lemma {:induction false} MapTwice<S, T, U>(f: seq<Tree<S>>, g: S -> T, h: T -> U, k: S -> U)
    requires forall x: S {:trigger k(x)} :: h(g(x)) == k(x)
    ensures MapForest(MapForest(f, g), h) == MapForest(f, k)
    decreases f
  {
    if f != [] {
      MapTwice(f[0].kids, g, h, k);
      MapTwice(f[1..], g, h, k);
      var mf := MapForest(f, g);
      assert mf[0].kids == MapForest(f[0].kids, g) && mf[1..] == MapForest(f[1..], g);
    }
  }

  lemma {:induction false} MapConcat<S, T>(a: seq<Tree<S>>, b: seq<Tree<S>>, g: S -> T)
    ensures MapForest(a + b, g) == MapForest(a, g) + MapForest(b, g)
    decreases a
  {
    if a == [] {
      assert a + b == b;
    } else {
      assert (a + b)[1..] == a[1..] + b;
      MapConcat(a[1..], b, g);
    }
  }

  lemma {:induction false} MapLength<S, T>(f: seq<Tree<S>>, g: S -> T)
    ensures |MapForest(f, g)| == |f|
    ensures forall i :: 0 <= i < |f| ==> MapForest(f, g)[i] == Node(g(f[i].data), MapForest(f[i].kids, g))
    decreases f
  {
    if f != [] {
      MapLength(f[1..], g);
    }
  }
}
