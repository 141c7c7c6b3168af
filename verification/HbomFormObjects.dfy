/** workers/hbom/form.py: `from_payload` on objects. Each call makes one node, appends the
    nodes its children made, and normalizes everything below it. */
module HbomFormObjects {
  import opened Optional
  import opened Text
  import opened Forest
  import opened HbomModel
  import opened HbomRows
  import opened HbomForm

  // ---- putting two pointer structures side by side ----------------------------------

  ghost function Shift(ks: seq<nat>, offset: nat): (r: seq<nat>)
    ensures |r| == |ks| && forall m :: 0 <= m < |ks| ==> r[m] == ks[m] + offset
  {
    seq(|ks|, m requires 0 <= m < |ks| => ks[m] + offset)
  }

  /** `block` placed after `kids`, its first node a new last child of node 0. */
  ghost function Adopt(kids: seq<seq<nat>>, block: seq<seq<nat>>): (r: seq<seq<nat>>)
    requires kids != []
    ensures |r| == |kids| + |block|
    ensures r[0] == kids[0] + [|kids|]
    ensures forall i :: 1 <= i < |kids| ==> r[i] == kids[i]
    ensures forall i :: 0 <= i < |block| ==> r[|kids| + i] == Shift(block[i], |kids|)
  {
    kids[0 := kids[0] + [|kids|]] + seq(|block|, i requires 0 <= i < |block| => Shift(block[i], |kids|))
  }

  lemma AdoptShaped(kids: seq<seq<nat>>, block: seq<seq<nat>>)
    requires kids != [] && block != [] && Shaped(kids) && Shaped(block)
    ensures Shaped(Adopt(kids, block))
  {
    var r := Adopt(kids, block);
    forall i, m | 0 <= i < |r| && 0 <= m < |r[i]| ensures i < r[i][m] < |r| {
      if i >= |kids| {
        assert r[i] == Shift(block[i - |kids|], |kids|);
      } else if i > 0 {
        assert r[i] == kids[i];
      }
    }
  }

  lemma {:induction false} AdoptedBlock<T>(kids: seq<seq<nat>>, xs: seq<T>, block: seq<seq<nat>>, ys: seq<T>, i: nat)
    requires kids != [] && Shaped(kids) && Shaped(block) && |xs| == |kids| && |ys| == |block| && i < |block|
    ensures Shaped(Adopt(kids, block))
    ensures TreeAt(Adopt(kids, block), xs + ys, |kids| + i) == TreeAt(block, ys, i)
    decreases |block| - i
  {
    hide Adopt, Shift, TreeAt;
    AdoptShaped(kids, block);
    var r := Adopt(kids, block);
    assert r[|kids| + i] == Shift(block[i], |kids|);
    forall m | 0 <= m < |block[i]|
      ensures TreeAt(r, xs + ys, r[|kids| + i][m]) == TreeAt(block, ys, block[i][m])
    {
      AdoptedBlock(kids, xs, block, ys, block[i][m]);
    }
    SameTree(r, xs + ys, |kids| + i, block, ys, i);
  }

  lemma {:induction false} AdoptedOld<T>(kids: seq<seq<nat>>, xs: seq<T>, block: seq<seq<nat>>, ys: seq<T>, i: nat)
    requires kids != [] && block != [] && Shaped(kids) && Shaped(block) && |xs| == |kids| && |ys| == |block|
    requires 0 < i < |kids|
    ensures Shaped(Adopt(kids, block))
    ensures TreeAt(Adopt(kids, block), xs + ys, i) == TreeAt(kids, xs, i)
    decreases |kids| - i
  {
    hide Adopt, Shift, TreeAt;
    AdoptShaped(kids, block);
    var r := Adopt(kids, block);
    assert r[i] == kids[i];
    forall m | 0 <= m < |kids[i]| ensures TreeAt(r, xs + ys, kids[i][m]) == TreeAt(kids, xs, kids[i][m]) {
      AdoptedOld(kids, xs, block, ys, kids[i][m]);
    }
    SameTree(r, xs + ys, i, kids, xs, i);
  }

  /** Node 0 gains exactly one tree, the block's. */
  lemma {:induction false} AdoptAppendsTree<T>(kids: seq<seq<nat>>, xs: seq<T>, block: seq<seq<nat>>, ys: seq<T>)
    requires kids != [] && block != [] && Shaped(kids) && Shaped(block) && |xs| == |kids| && |ys| == |block|
    ensures Shaped(Adopt(kids, block))
    ensures TreeAt(Adopt(kids, block), xs + ys, 0)
         == Tree.Node(xs[0], TreeAt(kids, xs, 0).kids + [TreeAt(block, ys, 0)])
  {
    hide Adopt, Shift, TreeAt;
    AdoptShaped(kids, block);
    var r := Adopt(kids, block);
    forall m | 0 <= m < |kids[0]| ensures TreeAt(r, xs + ys, kids[0][m]) == TreeAt(kids, xs, kids[0][m]) {
      AdoptedOld(kids, xs, block, ys, kids[0][m]);
    }
    AdoptedBlock(kids, xs, block, ys, 0);
    SubtreesAt(kids, xs, 0);
    TreeFrom(r, xs + ys, 0, TreeAt(kids, xs, 0).kids + [TreeAt(block, ys, 0)]);
  }

  lemma RefsAdopt(nodes: seq<Node>, block: seq<Node>, ks: seq<nat>)
    requires forall m :: 0 <= m < |ks| ==> ks[m] < |nodes|
    ensures Refs(nodes + block, ks) == Refs(nodes, ks)
  {
  }

  lemma RefsShift(nodes: seq<Node>, block: seq<Node>, ks: seq<nat>)
    requires forall m :: 0 <= m < |ks| ==> ks[m] < |block|
    ensures Refs(nodes + block, Shift(ks, |nodes|)) == Refs(block, ks)
  {
  }

  lemma DistinctConcat(nodes: seq<Node>, block: seq<Node>)
    requires Distinct(nodes) && Distinct(block) && forall n :: n in block ==> n !in nodes
    ensures Distinct(nodes + block)
  {
    var all := nodes + block;
    forall i, j | 0 <= i < j < |all| ensures all[i] != all[j] {
      if i < |nodes| <= j {
        assert all[j] in block;
      }
    }
  }

  /** Appending a linked block's first node to node 0's children links the whole. */
  lemma LinkedAfterAdopt(nodes: seq<Node>, kids: seq<seq<nat>>, was: seq<Node>, block: seq<Node>, blockKids: seq<seq<nat>>)
    requires nodes != [] && block != [] && |nodes| == |kids| && Shaped(kids) && Distinct(nodes)
    requires Linked(block, blockKids) && forall n :: n in block ==> n !in nodes
    requires was == Refs(nodes, kids[0]) && nodes[0].children == was + [block[0]]
    requires forall i :: 1 <= i < |nodes| ==> nodes[i].children == Refs(nodes, kids[i])
    ensures Linked(nodes + block, Adopt(kids, blockKids))
  {
    AdoptShaped(kids, blockKids);
    DistinctConcat(nodes, block);
    var all, r := nodes + block, Adopt(kids, blockKids);
    forall i | 0 <= i < |nodes| ensures all[i].children == Refs(all, r[i]) {
      RefsAdopt(nodes, block, kids[i]);
      if i == 0 {
        assert Refs(all, r[0]) == Refs(all, kids[0]) + [block[0]];
      }
    }
    forall j | |nodes| <= j < |all| ensures all[j].children == Refs(all, r[j]) {
      var i := j - |nodes|;
      assert all[j] == block[i] && r[j] == r[|nodes| + i] == Shift(blockKids[i], |nodes|);
      RefsShift(nodes, block, blockKids[i]);
    }
  }

  // ---- from_payload ---------------------------------------------------------------------

  /** The objects hold exactly this tree, its root first. */
  ghost predicate Holds(nodes: seq<Node>, kids: seq<seq<nat>>, t: Tree<Component>)
    reads nodes
  {
    nodes != [] && Linked(nodes, kids) && TreeAt(kids, Contents(nodes), 0) == t
  }

  method OwnNode(p: Payload, depth: nat, id: string) returns (n: Node, error: Option<FormError>)
    ensures error == OwnError(p, depth, id)
    ensures fresh(n) && n.children == []
    ensures error.None? ==> n.Value() == OwnComponent(p, depth, id)
  {
    n := new Node(id, depth, None);
    error := None;
    if depth > MAX_DEPTH {
      error := Some(TooDeep(id));
    } else if p.unknown != {} {
      error := Some(UnknownFields(id));
    } else if Strip(Get(p.fields, ProductName)) == "" {
      error := Some(NoName(id));
    } else {
      n.attrs := MapAttrs(p.fields, FormText);
      n.compliance := FormCompliance(p.compliance);
      if p.quantity.NotNumber? {
        error := Some(BadQuantity(id));
        return;
      }
      if p.quantity.Infinite? {
        error := Some(FormError.QuantityOverflow(id));
        return;
      }
      n.quantity := if p.quantity.n < 1 then 1 else p.quantity.n;
      if !GoodCriticality(Get(p.fields, Criticality)) {
        error := Some(BadCriticality(id));
      }
    }
  }

  /** `from_payload`: fresh objects holding the tree of the specification, or its error. */
  method BuildFromPayload(p: Payload, depth: nat, id: string)
    returns (r: FormResult<Node>, ghost nodes: seq<Node>, ghost kids: seq<seq<nat>>)
    ensures r.Ok? <==> FromPayload(p, depth, id).Ok?
    ensures r.Err? ==> FromPayload(p, depth, id) == Err(r.error)
    ensures r.Ok? ==> fresh(nodes) && Holds(nodes, kids, FromPayload(p, depth, id).value) && nodes[0] == r.value
    decreases p, 3
  {
    nodes, kids := [], [];
    var n, error := OwnNode(p, depth, id);
    if error.Some? {
      return Err(error.value), nodes, kids;
    }
    var childError;
    childError, nodes, kids := BuildChildren(p, depth, id, n);
    if childError.Some? {
      return Err(childError.value), nodes, kids;
    }
    ghost var was := Contents(nodes);
    Normalize(n, nodes, kids, 0);
    CleanedTree(kids, was, Contents(nodes));
    r := Ok(n);
  }

  lemma {:induction false} CleanedTree(kids: seq<seq<nat>>, was: seq<Component>, now: seq<Component>)
    requires Shaped(kids) && kids != [] && |was| == |now| == |kids| && CleanedUnder(kids, 0, was, now)
    ensures TreeAt(kids, now, 0) == CleanTree(TreeAt(kids, was, 0))
  {
    TreeOfMapped(kids, was, now, Clean, 0);
    MapLength([TreeAt(kids, was, 0)], Clean);
    assert [TreeAt(kids, now, 0)][0] == CleanForest([TreeAt(kids, was, 0)])[0];
  }

  /** What one element of `children` makes. */
  function ChildResult(c: Child, index: nat, depth: nat, parent: string): FormResult<Tree<Component>> {
    match c
    case NotAnObject => Err(ChildNotAnObject(parent, index))
    case Object(p) =>
      match FromPayload(p, depth + 1, ChildId(parent, index))
      case Err(e) => Err(e)
      case Ok(t) => Ok(WithParent(t, parent))
  }

  function Prepend<T>(first: FormResult<T>, rest: FormResult<seq<T>>): FormResult<seq<T>> {
    if first.Err? then Err(first.error) else if rest.Err? then rest else Ok([first.value] + rest.value)
  }

  function Append<T>(done: FormResult<seq<T>>, last: FormResult<T>): FormResult<seq<T>> {
    if done.Err? then done else if last.Err? then Err(last.error) else Ok(done.value + [last.value])
  }

  lemma PrependAppend<T>(first: FormResult<T>, mid: FormResult<seq<T>>, last: FormResult<T>)
    ensures Prepend(first, Append(mid, last)) == Append(Prepend(first, mid), last)
  {
    if first.Ok? && mid.Ok? && last.Ok? {
      assert [first.value] + (mid.value + [last.value]) == [first.value] + mid.value + [last.value];
    }
  }

  lemma FirstChild(children: seq<Child>, index: nat, depth: nat, parent: string)
    requires children != []
    ensures FromChildren(children, index, depth, parent)
         == Prepend(ChildResult(children[0], index, depth, parent), FromChildren(children[1..], index + 1, depth, parent))
  {
    assert (children decreases to children[0]);
  }

  /** The first k + 1 children make what the first k make and the k-th. */
  lemma {:induction false} ChildrenSnoc(children: seq<Child>, k: nat, index: nat, depth: nat, parent: string)
    requires k < |children|
    ensures FromChildren(children[..k + 1], index, depth, parent)
         == Append(FromChildren(children[..k], index, depth, parent), ChildResult(children[k], index + k, depth, parent))
    decreases k
  {
    hide FromPayload, ChildResult, Append, Prepend;
    var upTo, before, rest := children[..k + 1], children[..k], children[1..];
    FirstChild(upTo, index, depth, parent);
    assert upTo[1..] == rest[..k];
    if k == 0 {
      assert upTo == [children[0]] && before == [];
      OneChild(children[0], index, depth, parent);
    } else {
      FirstChild(before, index, depth, parent);
      assert before[1..] == rest[..k - 1];
      ChildrenSnoc(rest, k - 1, index + 1, depth, parent);
      SnocStep(ChildResult(children[0], index, depth, parent), FromChildren(before[1..], index + 1, depth, parent),
        FromChildren(upTo[1..], index + 1, depth, parent), ChildResult(children[k], index + k, depth, parent),
        FromChildren(before, index, depth, parent), FromChildren(upTo, index, depth, parent));
    }
  }

  lemma OneChild(c: Child, index: nat, depth: nat, parent: string)
    ensures FromChildren([c], index, depth, parent)
         == Append(FromChildren([], index, depth, parent), ChildResult(c, index, depth, parent))
  {
    FirstChild([c], index, depth, parent);
    NoChildren(index, depth, parent);
    NoChildren(index + 1, depth, parent);
    var r := ChildResult(c, index, depth, parent);
    if r.Ok? {
      assert [r.value] + [] == [] + [r.value];
    }
  }

  lemma SnocStep<T>(first: FormResult<T>, mid: FormResult<seq<T>>, next: FormResult<seq<T>>, last: FormResult<T>,
                    before: FormResult<seq<T>>, upTo: FormResult<seq<T>>)
    requires next == Append(mid, last) && before == Prepend(first, mid) && upTo == Prepend(first, next)
    ensures upTo == Append(before, last)
  {
    PrependAppend(first, mid, last);
  }

  lemma NoChildren(index: nat, depth: nat, parent: string)
    ensures FromChildren([], index, depth, parent) == Ok([])
  {
  }

  /** The first failing child decides the result. */
  lemma {:induction false} FirstFailure(children: seq<Child>, k: nat, index: nat, depth: nat, parent: string)
    requires k <= |children| && FromChildren(children[..k], index, depth, parent).Err?
    ensures FromChildren(children, index, depth, parent) == FromChildren(children[..k], index, depth, parent)
    decreases |children| - k
  {
    hide FromPayload, ChildResult;
    if k == |children| {
      assert children[..k] == children;
    } else {
      ChildrenSnoc(children, k, index, depth, parent);
      FirstFailure(children, k + 1, index, depth, parent);
    }
  }

  /** The loop over `children`: each built node is told its parent and appended in place. */
  method BuildChildren(p: Payload, depth: nat, id: string, n: Node)
    returns (error: Option<FormError>, ghost nodes: seq<Node>, ghost kids: seq<seq<nat>>)
    requires OwnError(p, depth, id).None? && n.children == [] && n.Value() == OwnComponent(p, depth, id)
    modifies n`children
    ensures error.Some? <==> FromChildren(p.children, 0, depth, id).Err?
    ensures error.Some? ==> FromChildren(p.children, 0, depth, id) == Err(error.value)
    ensures error.None? ==>
      && nodes != [] && nodes[0] == n && (forall i :: 1 <= i < |nodes| ==> fresh(nodes[i]))
      && Holds(nodes, kids, Tree.Node(OwnComponent(p, depth, id), FromChildren(p.children, 0, depth, id).value))
    decreases p, 2
  {
    hide FromPayload, FromChildren, ChildResult, Linked, TreeAt, Holds;
    error, nodes, kids := None, [n], [[]];
    var k := 0;
    ghost var own := OwnComponent(p, depth, id);
    Alone(n);
    NoChildren(0, depth, id);
    assert p.children[..0] == [];
    while k < |p.children|
      invariant 0 <= k <= |p.children|
      invariant error.None? && Rooted(n, nodes)
      invariant FromChildren(p.children[..k], 0, depth, id).Ok?
      invariant Holds(nodes, kids, Tree.Node(own, FromChildren(p.children[..k], 0, depth, id).value))
      invariant forall i :: 1 <= i < |nodes| ==> fresh(nodes[i])
    {
      error, nodes, kids := BuildChild(p, k, depth, id, n, nodes, kids);
      if error.Some? {
        FirstFailure(p.children, k + 1, 0, depth, id);
        return;
      }
      k := k + 1;
    }
    assert p.children[..k] == p.children;
  }

  lemma Alone(n: Node)
    requires n.children == []
    ensures Holds([n], [[]], Tree.Node(n.Value(), []))
  {
    assert TreeAt([[]], Contents([n]), 0).kids == [];
  }

  ghost predicate Rooted(n: Node, nodes: seq<Node>) {
    nodes != [] && nodes[0] == n
  }

  method BuildChild(p: Payload, k: nat, depth: nat, id: string, n: Node, ghost nodes: seq<Node>, ghost kids: seq<seq<nat>>)
    returns (error: Option<FormError>, ghost nodes': seq<Node>, ghost kids': seq<seq<nat>>)
    requires k < |p.children| && Rooted(n, nodes) && FromChildren(p.children[..k], 0, depth, id).Ok?
    requires Holds(nodes, kids, Tree.Node(n.Value(), FromChildren(p.children[..k], 0, depth, id).value))
    modifies n`children
    ensures n.Value() == old(n.Value()) && Rooted(n, nodes')
    ensures error.Some? ==> FromChildren(p.children[..k + 1], 0, depth, id) == Err(error.value)
    ensures error.None? ==>
      && FromChildren(p.children[..k + 1], 0, depth, id).Ok?
      && Holds(nodes', kids', Tree.Node(n.Value(), FromChildren(p.children[..k + 1], 0, depth, id).value))
    ensures nodes <= nodes' && forall i :: |nodes| <= i < |nodes'| ==> fresh(nodes'[i])
    decreases p, 1
  {
    hide OwnComponent, OwnError, Linked, TreeAt;
    error, nodes', kids' := None, nodes, kids;
    ChildrenSnoc(p.children, k, 0, depth, id);
    match p.children[k] {
      case NotAnObject =>
        error := Some(ChildNotAnObject(id, k));
      case Object(child) =>
        assert (p.children decreases to p.children[k]);
        var r;
        ghost var block, blockKids;
        r, block, blockKids := BuildFromPayload(child, depth + 1, ChildId(id, k));
        if r.Err? {
          error := Some(r.error);
          return;
        }
        nodes', kids' := AppendChild(n, r.value, id, nodes, kids, block, blockKids,
          FromChildren(p.children[..k], 0, depth, id).value, FromPayload(child, depth + 1, ChildId(id, k)).value);
    }
  }

  lemma ContentsConcat(nodes: seq<Node>, block: seq<Node>)
    ensures Contents(nodes + block) == Contents(nodes) + Contents(block)
  {
  }

  /** `built.parent_local_id = ...; component.children.append(built)`. */
  method AppendChild(n: Node, built: Node, id: string, ghost nodes: seq<Node>, ghost kids: seq<seq<nat>>,
                     ghost block: seq<Node>, ghost blockKids: seq<seq<nat>>,
                     ghost done: seq<Tree<Component>>, ghost t: Tree<Component>)
    returns (ghost nodes': seq<Node>, ghost kids': seq<seq<nat>>)
    requires nodes != [] && nodes[0] == n && block != [] && block[0] == built
    requires Holds(nodes, kids, Tree.Node(n.Value(), done)) && Holds(block, blockKids, t)
    requires forall x :: x in block ==> x !in nodes
    modifies n`children, built`parentLocalId
    ensures nodes' == nodes + block && n.Value() == old(n.Value())
    ensures Holds(nodes', kids', Tree.Node(n.Value(), done + [WithParent(t, id)]))
  {
    hide FromPayload, TreeAt, Adopt, Shaped;
    ghost var xs, ys, was := Contents(nodes), Contents(block), n.children;
    Apart(nodes, block);
    built.parentLocalId := Some(id);
    n.children := n.children + [built];
    nodes', kids' := nodes + block, Adopt(kids, blockKids);
    assert Contents(nodes) == xs;
    AppendedHolds(nodes, kids, xs, was, block, blockKids, ys, Contents(block), id, done, t);
  }

  lemma Apart(nodes: seq<Node>, block: seq<Node>)
    requires forall x :: x in block ==> x !in nodes
    ensures forall i, j :: 0 <= i < |nodes| && 0 <= j < |block| ==> nodes[i] != block[j]
  {
    assert forall j :: 0 <= j < |block| ==> block[j] in block;
  }

  lemma {:induction false} AppendedHolds(nodes: seq<Node>, kids: seq<seq<nat>>, xs: seq<Component>, was: seq<Node>,
                      block: seq<Node>, blockKids: seq<seq<nat>>, ys: seq<Component>, zs: seq<Component>,
                      id: string, done: seq<Tree<Component>>, t: Tree<Component>)
    requires nodes != [] && block != [] && |nodes| == |kids| == |xs| && Shaped(kids) && Distinct(nodes)
    requires Linked(block, blockKids) && forall x :: x in block ==> x !in nodes
    requires was == Refs(nodes, kids[0]) && nodes[0].children == was + [block[0]]
    requires forall i :: 1 <= i < |nodes| ==> nodes[i].children == Refs(nodes, kids[i])
    requires Contents(nodes) == xs && TreeAt(kids, xs, 0) == Tree.Node(xs[0], done)
    requires |ys| == |zs| == |block| && Contents(block) == zs && TreeAt(blockKids, ys, 0) == t
    requires zs[0] == ys[0].(parentLocalId := Some(id)) && forall i :: 1 <= i < |block| ==> zs[i] == ys[i]
    ensures Holds(nodes + block, Adopt(kids, blockKids), Tree.Node(xs[0], done + [WithParent(t, id)]))
  {
    RootRenamed(blockKids, ys, zs);
    LinkedAfterAdopt(nodes, kids, was, block, blockKids);
    AdoptAppendsTree(kids, xs, blockKids, zs);
    ContentsConcat(nodes, block);
    RootData(blockKids, ys);
    hide Adopt, TreeAt, Linked, Shaped, Distinct;
  }

  lemma RootData<T>(kids: seq<seq<nat>>, ys: seq<T>)
    requires kids != [] && Shaped(kids) && |ys| == |kids|
    ensures TreeAt(kids, ys, 0).data == ys[0]
  {
  }

  /** Changing node 0's data changes only the root of its tree. */
  lemma RootRenamed<T>(kids: seq<seq<nat>>, ys: seq<T>, zs: seq<T>)
    requires kids != [] && Shaped(kids) && |ys| == |zs| == |kids|
    requires forall i :: 1 <= i < |kids| ==> zs[i] == ys[i]
    ensures TreeAt(kids, zs, 0) == Tree.Node(zs[0], TreeAt(kids, ys, 0).kids)
  {
    forall m | 0 <= m < |kids[0]| ensures TreeAt(kids, zs, kids[0][m]) == TreeAt(kids, ys, kids[0][m]) {
      SameBelow(kids, ys, zs, kids[0][m]);
    }
    assert TreeAt(kids, zs, 0).kids == TreeAt(kids, ys, 0).kids;
  }

  lemma {:induction false} SameBelow<T>(kids: seq<seq<nat>>, ys: seq<T>, zs: seq<T>, i: nat)
    requires Shaped(kids) && |ys| == |zs| == |kids| && 0 < i < |kids|
    requires forall j :: 1 <= j < |kids| ==> zs[j] == ys[j]
    ensures TreeAt(kids, zs, i) == TreeAt(kids, ys, i)
    decreases |kids| - i
  {
    hide TreeAt;
    forall m | 0 <= m < |kids[i]| ensures TreeAt(kids, zs, kids[i][m]) == TreeAt(kids, ys, kids[i][m]) {
      SameBelow(kids, ys, zs, kids[i][m]);
    }
    SameTree(kids, zs, i, kids, ys, i);
  }
}
