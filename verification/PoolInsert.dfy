/**
 Adding a block to the free blocks: as a new leaf of the size tree, or behind the head of
 the ring of its size; and searching the tree for the best fit.
 */
module PoolInsert {
  import opened PoolTree
  import opened PoolFree
  import opened PoolDelete
  import opened PoolIndex

  /** The free structure depends on nothing but the headers of the free blocks. */
  lemma FreeFrame(h: Heap, h': Heap, root: Addr, tree: Tree, rings: map<Addr, seq<Addr>>)
    requires FreeOk(h, root, tree, rings)
    requires forall x :: x in h && InRings(rings, x) ==> x in h' && h'[x] == h[x]
    ensures FreeOk(h', root, tree, rings)
  {
    hide RingsOk, InRings;
    TreeNodesInRings(h, root, tree, rings);
    TreeInHeap(h, root, NIL, tree);
    TreeFrame(h, h', root, NIL, tree);
    OrderedFrame(h, h', tree);
    RingsFrame(h, h', rings);
  }

  lemma RingsFrame(h: Heap, h': Heap, rings: map<Addr, seq<Addr>>)
    requires RingsOk(h, rings)
    requires forall x :: x in h && InRings(rings, x) ==> x in h' && h'[x] == h[x]
    ensures RingsOk(h', rings)
  {
    forall a | a in rings
      ensures RingOk(h', a, rings[a])
    {
      assert forall x :: x in rings[a] ==> InRings(rings, x);
      RingFrame(h, h', rings[a]);
    }
  }

  /** Block q, on its own: no parent, no children, a ring of one. */
  predicate Lone(h: Heap, q: Addr) {
    q in h && q != NIL && h[q].magic == MagicF &&
    h[q].left == NIL && h[q].right == NIL && h[q].parent == NIL && h[q].fwd == q && h[q].prev == q
  }

  // ----- a new leaf

  function AddLeaf(h: Heap, tp: Addr, q: Addr): Heap
    requires tp in h && q in h
  {
    var h1 := h[q := h[q].(parent := tp)];
    if h[q].size < h[tp].size then h1[tp := h1[tp].(left := q)] else h1[tp := h1[tp].(right := q)]
  }

  lemma LeafAdded(h: Heap, root: Addr, rings: map<Addr, seq<Addr>>, c: Ctx, tp: Addr, q: Addr)
    requires FreeOk(h, root, Plug(c, Leaf), rings) && IsCtx(h, c, root, NIL, tp, NIL) && !c.Top?
    requires Lone(h, q) && !InRings(rings, q) && InHeap(h, CtxNodes(c)) && Fits(h, c, h[q].size)
    ensures tp in h
    ensures FreeOk(AddLeaf(h, tp, q), root, Plug(c, Node(Leaf, q, Leaf)), rings[q := [q]])
    ensures SameBlocks(h, AddLeaf(h, tp, q)) && tp != q && InRings(rings, tp)
    ensures SameOutside(h, AddLeaf(h, tp, q), {tp, q})
  {
    hide RingsOk, Ordered, Nodes, OrderedCtx, Plug, CtxNodes, AllFit, Fits, HoleApart, InRings;
    var h' := AddLeaf(h, tp, q);
    ParentInHeap(h, c, root, tp, NIL);
    PlugNodes(c, Leaf);
    NoNodes();
    TreeNodesInRings(h, root, Plug(c, Leaf), rings);
    PlugOrdered(h, c, Leaf);
    Apart(h, c, Leaf);
    FitSide(h, c, tp, h[q].size, root);
    Relink(h, h', c, root, NIL, tp, NIL, q);
    PlugIsTree(h', c, root, NIL, tp, q, Node(Leaf, q, Leaf));
    LeafOrdered(h, h', c, q);
    PlugNodes(c, Node(Leaf, q, Leaf));
    LeafRings(h, h', rings, tp, q);
  }

  lemma NoNodes()
    ensures Nodes(Leaf) == {}
    ensures forall q: Addr :: Nodes(Node(Leaf, q, Leaf)) == {q}
  {
  }

  /** The comparison with the last node visited picks the side of the hole. */
  lemma FitSide(h: Heap, c: Ctx, tp: Addr, size: int, root: Addr)
    requires IsCtx(h, c, root, NIL, tp, NIL) && !c.Top? && InHeap(h, CtxNodes(c)) && Fits(h, c, size)
    ensures tp in h && (size < h[tp].size <==> c.InLeft?)
  {
  }

  lemma LeafOrdered(h: Heap, h': Heap, c: Ctx, q: Addr)
    requires AllFit(h, c, Leaf) && q in h && Fits(h, c, h[q].size) && SameBlocks(h, h')
    ensures Ordered(h', Plug(c, Node(Leaf, q, Leaf)))
  {
    OrderedCtxFrame(h, h', c);
    FitsFrame(h, h', c, h[q].size);
    assert Ordered(h', Node(Leaf, q, Leaf));
    PlugOrdered(h', c, Node(Leaf, q, Leaf));
  }

  lemma LeafRings(h: Heap, h': Heap, rings: map<Addr, seq<Addr>>, tp: Addr, q: Addr)
    requires RingsOk(h, rings) && Lone(h, q) && !InRings(rings, q)
    requires SameBlocks(h, h') && (forall x :: x in h ==> SameRing(h, h', x))
    requires tp in rings && forall x :: x in h && x != tp && x != q ==> h'[x] == h[x]
    ensures RingsOk(h', rings[q := [q]])
  {
    var rings' := rings[q := [q]];
    forall a | a in rings'
      ensures RingOk(h', a, rings'[a])
    {
      if a == q {
        assert RingLink(h', [q], 0);
      } else {
        assert forall x :: x in rings[a] ==> InRings(rings, x);
        RingFrame(h, h', rings[a]);
        assert tp in rings[tp];
      }
    }
    assert forall a, x :: a in rings && x in rings[a] ==> InRings(rings, x);
  }

  // ----- a ring that grows

  function AddMember(h: Heap, t: Addr, q: Addr): Heap
    requires t in h && q in h && h[t].fwd in h && q != t && q != h[t].fwd
  {
    var f := h[t].fwd;
    var h1 := h[q := h[q].(fwd := f)];
    var h2 := h1[f := h1[f].(prev := q)];
    var h3 := h2[q := h2[q].(prev := t)];
    h3[t := h3[t].(fwd := q)]
  }

  lemma MemberAdded(h: Heap, root: Addr, tree: Tree, rings: map<Addr, seq<Addr>>, t: Addr, q: Addr)
    requires FreeOk(h, root, tree, rings) && t in rings
    requires Lone(h, q) && !InRings(rings, q) && t in h && h[q].size == h[t].size
    ensures t in h && h[t].fwd in h && q != t && q != h[t].fwd
    ensures var rings' := rings[t := [t, q] + rings[t][1..]];
            && FreeOk(AddMember(h, t, q), root, tree, rings') && SameBlocks(h, AddMember(h, t, q))
            && (forall x :: InRings(rings', x) <==> InRings(rings, x) || x == q)
            && InRings(rings, h[t].fwd) && InRings(rings, t)
            && SameOutside(h, AddMember(h, t, q), {t, q, h[t].fwd})
  {
    hide RingsOk, RingOk, RingsApart, Ring, Ordered, IsTree, Nodes;
    NeighbourInRing(h, rings, t);
    var s := rings[t];
    var h' := AddMember(h, t, q);
    MemberRing(h, h', t, s, q);
    hide AddMember;
    TreeInHeap(h, root, NIL, tree);
    TreeFrame(h, h', root, NIL, tree);
    OrderedFrame(h, h', tree);
    MemberOthers(h, h', rings, t, q, h[t].fwd);
    RingsGrow(h, h', rings, t, q);
  }

  lemma NeighbourInRing(h: Heap, rings: map<Addr, seq<Addr>>, t: Addr)
    requires RingsOk(h, rings) && t in rings
    ensures RingOk(h, t, rings[t]) && rings[t] != [] && rings[t][0] == t && t in h
    ensures h[t].fwd in rings[t] && h[t].fwd in h && InRings(rings, t) && InRings(rings, h[t].fwd)
  {
    RingNeighbours(h, rings[t], 0);
  }

  lemma MemberRing(h: Heap, h': Heap, t: Addr, s: seq<Addr>, q: Addr)
    requires RingOk(h, t, s) && Lone(h, q) && q !in s && h[q].size == h[t].size
    requires h[t].fwd in s && h[t].fwd in h && h' == AddMember(h, t, q)
    ensures RingOk(h', t, [t, q] + s[1..])
  {
    RingAdd(h, h', s, q);
  }

  lemma MemberOthers(h: Heap, h': Heap, rings: map<Addr, seq<Addr>>, t: Addr, q: Addr, f: Addr)
    requires RingsOk(h, rings) && t in rings && f in rings[t] && !InRings(rings, q)
    requires SameBlocks(h, h') && SameOutside(h, h', {t, q, f})
    ensures OtherRings(h, h', rings, t)
  {
    forall b, x | b in rings && b != t && x in rings[b]
      ensures x in h && h'[x] == h[x]
    {
      assert InRings(rings, x) && x !in rings[t] && t in rings[t];
    }
  }

  lemma RingsGrow(h: Heap, h': Heap, rings: map<Addr, seq<Addr>>, t: Addr, q: Addr)
    requires RingsOk(h, rings) && t in rings && rings[t] != [] && rings[t][0] == t && !InRings(rings, q)
    requires OtherRings(h, h', rings, t) && RingOk(h', t, [t, q] + rings[t][1..])
    ensures var rings' := rings[t := [t, q] + rings[t][1..]];
            && RingsOk(h', rings')
            && (forall x :: InRings(rings', x) <==> InRings(rings, x) || x == q)
  {
    hide RingOk;
    OtherRingsOk(h, h', rings, t);
    var rings' := rings[t := [t, q] + rings[t][1..]];
    forall x
      ensures x in rings'[t] <==> x in rings[t] || x == q
    {
      assert rings[t] == [t] + rings[t][1..];
    }
    forall x
      ensures InRings(rings', x) <==> InRings(rings, x) || x == q
    {
      if InRings(rings', x) {
        var b :| b in rings' && x in rings'[b];
        assert x in rings[b] || x == q;
      }
      if InRings(rings, x) {
        var b :| b in rings && x in rings[b];
        assert x in rings'[b];
      }
      if x == q { assert x in rings'[t]; }
    }
    assert forall a, x :: a in rings && x in rings[a] ==> InRings(rings, x);
  }

  // ----- best fit

  /** The smallest node of at least the given size, or NIL. */
  ghost function Best(h: Heap, t: Tree, size: int): Addr
    requires InHeap(h, Nodes(t))
  {
    match t
    case Leaf => NIL
    case Node(l, a, r) =>
      if size == h[a].size then a
      else if size < h[a].size then
        var b := Best(h, l, size);
        if b != NIL then b else a
      else Best(h, r, size)
  }

  lemma {:induction false} BestIsBest(h: Heap, t: Tree, size: int)
    requires Ordered(h, t) && NIL !in Nodes(t)
    ensures var b := Best(h, t, size);
            if b == NIL then forall x :: x in Nodes(t) ==> h[x].size < size
            else b in Nodes(t) && size <= h[b].size && forall x :: x in Nodes(t) && size <= h[x].size ==> h[b].size <= h[x].size
  {
    match t
    case Leaf =>
    case Node(l, a, r) =>
      BestIsBest(h, l, size);
      BestIsBest(h, r, size);
  }
}
