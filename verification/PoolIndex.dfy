/**
 The tree and the rings after a block was taken out: a ring without its head, and a tree without
 a block that was alone of its size.
 */
module PoolIndex {
  import opened Sequences
  import opened PoolTree
  import opened PoolFree
  import opened PoolDelete

  // ----- rings after a deletion

  lemma StayMeansOthers(h: Heap, h': Heap, rings: map<Addr, seq<Addr>>, a: Addr, s: set<Addr>)
    requires RingsOk(h, rings)
    requires RingsStay(h, h', s) && forall x :: x in s && InRings(rings, x) && x !in rings ==> a in rings && x in rings[a]
    ensures OtherRings(h, h', rings, a)
  {
    forall b, x | b in rings && b != a && x in rings[b]
      ensures SameRing(h, h', x) && h'[x].size == h[x].size && h'[x].magic == h[x].magic
      ensures x != b ==> h'[x].parent == h[x].parent
    {
      assert InRings(rings, x);
      if x in rings { assert rings[x][0] in rings[x]; }
    }
  }

  lemma RingsLess(h: Heap, h': Heap, rings: map<Addr, seq<Addr>>, t: Addr)
    requires RingsOk(h, rings)
    requires t in rings && |rings[t]| == 1 && OtherRings(h, h', rings, t)
    ensures var rings' := rings - {t};
            && RingsOk(h', rings')
            && (forall x :: InRings(rings', x) <==> InRings(rings, x) && x != t)
  {
    OtherRingsOk(h, h', rings, t);
    assert rings[t] == [t];
    hide RingOk;
    var rings' := rings - {t};
    forall x
      ensures InRings(rings', x) <==> InRings(rings, x) && x != t
    {
      if InRings(rings', x) {
        var b :| b in rings' && x in rings'[b];
        assert b in rings && x in rings[b];
      }
      if InRings(rings, x) && x != t {
        var b :| b in rings && x in rings[b];
        assert b in rings' && x in rings'[b];
      }
    }
  }

  /** Ring t, without t, is headed by f. */
  function Promoted(rings: map<Addr, seq<Addr>>, t: Addr, f: Addr): map<Addr, seq<Addr>>
    requires t in rings && rings[t] != []
  {
    (rings - {t})[f := Drop(rings[t], 0)]
  }

  lemma RingsPromote(h: Heap, h': Heap, rings: map<Addr, seq<Addr>>, t: Addr, f: Addr)
    requires RingsOk(h, rings)
    requires t in rings && 1 < |rings[t]| && rings[t][1] == f && OtherRings(h, h', rings, t)
    requires RingOk(h', f, Drop(rings[t], 0))
    ensures f !in rings
    ensures var rings' := Promoted(rings, t, f);
            && RingsOk(h', rings')
            && (forall x :: InRings(rings', x) <==> InRings(rings, x) && x != t)
  {
    hide RingOk, InRings;
    OtherRingsOk(h, h', rings, t);
    RingHead(h, rings, t);
    RingDistinct(h, rings, t);
    HeadsApart(h, rings, t, f);
    DropHas(rings[t], 0);
    PromotedMembers(rings, t, f);
  }

  lemma RingHead(h: Heap, rings: map<Addr, seq<Addr>>, t: Addr)
    requires t in rings && RingOk(h, t, rings[t])
    ensures rings[t] != [] && rings[t][0] == t
  {
  }

  lemma PromotedMembers(rings: map<Addr, seq<Addr>>, t: Addr, f: Addr)
    requires t in rings && 1 < |rings[t]| && rings[t][0] == t && Distinct(rings[t]) && f !in rings
    requires forall b :: b in rings && b != t ==> t !in rings[b]
    ensures forall x :: InRings(Promoted(rings, t, f), x) <==> InRings(rings, x) && x != t
  {
    DropHas(rings[t], 0);
    var rings' := Promoted(rings, t, f);
    forall x
      ensures InRings(rings', x) <==> InRings(rings, x) && x != t
    {
      if InRings(rings', x) {
        var b :| b in rings' && x in rings'[b];
        assert x in rings[if b == f then t else b];
      }
      if InRings(rings, x) && x != t {
        var b :| b in rings && x in rings[b];
        assert x in rings'[if b == t then f else b];
      }
    }
  }

  /** A member of a ring that is not its head heads no ring. */
  lemma HeadsApart(h: Heap, rings: map<Addr, seq<Addr>>, t: Addr, f: Addr)
    requires RingsOk(h, rings)
    requires t in rings && f in rings[t] && f != t
    ensures f !in rings
  {
  }

  lemma MembersNotHeads(h: Heap, rings: map<Addr, seq<Addr>>, t: Addr)
    requires RingsOk(h, rings) && t in rings
    ensures forall x :: x in rings[t] && x != t ==> x !in rings
    ensures forall x :: x in rings[t] ==> x in h && InRings(rings, x)
  {
    forall x | x in rings[t] && x != t
      ensures x !in rings
    {
      HeadsApart(h, rings, t, x);
    }
  }

  lemma HeadRing(h: Heap, rings: map<Addr, seq<Addr>>, t: Addr)
    requires RingsOk(h, rings) && t in rings && 1 < |rings[t]|
    ensures RingOk(h, t, rings[t]) && Distinct(rings[t]) && rings[t][0] == t
    ensures t in h && h[t].fwd == rings[t][1] && h[t].fwd in h && h[t].fwd != t && h[t].fwd != NIL
    ensures h[h[t].fwd].size == h[t].size
    ensures h[t].prev in rings[t] && h[t].fwd in rings[t] && h[t].prev in h
  {
    RingNeighbours(h, rings[t], 0);
    assert RingLink(h, rings[t], 0);
  }

  lemma TreeNodesInRings(h: Heap, root: Addr, tree: Tree, rings: map<Addr, seq<Addr>>)
    requires FreeOk(h, root, tree, rings)
    ensures forall x :: x in Nodes(tree) ==> InRings(rings, x)
  {
    forall x | x in Nodes(tree)
      ensures InRings(rings, x)
    {
      assert rings[x][0] in rings[x];
    }
  }

  /** The state after the head t of a longer ring has been deleted. */
  lemma HeadDeleted(h: Heap, root: Addr, rings: map<Addr, seq<Addr>>, c: Ctx, q: Addr, l: Tree, t: Addr, r: Tree)
    requires FreeOk(h, root, Plug(c, Node(l, t, r)), rings)
    requires IsCtx(h, c, root, NIL, q, t) && IsTree(h, t, q, Node(l, t, r))
    requires t in rings && 1 < |rings[t]|
    ensures t in h && q == h[t].parent && q != t && (q != NIL ==> q in h)
    ensures (h[t].left != NIL ==> h[t].left in h) && (h[t].right != NIL ==> h[t].right in h)
    ensures var f := h[t].fwd;
            f in h && f != t && f == rings[t][1] && f !in rings
    ensures var f := h[t].fwd;
            var h1 := Promote(h, t, f);
            && t in h1 && h1[t].prev in h1 && h1[t].fwd in h1
            && FreeOk(Unlink(h1, t), if q == NIL then f else root, Plug(c, Node(l, f, r)), Promoted(rings, t, f))
            && SameBlocks(h, Unlink(h1, t))
            && (forall x :: InRings(Promoted(rings, t, f), x) <==> InRings(rings, x) && x != t)
            && (forall x :: x in h && !InRings(rings, x) ==> Unlink(h1, t)[x] == h[x])
  {
    hide RingsOk, Promote, Unlink, Promoted, AllFit, IsCtx, IsTree, Ordered, InRings, Nodes, CtxNodes, Plug, SameLinks;
    var tree := Plug(c, Node(l, t, r));
    PlugOrdered(h, c, Node(l, t, r));
    TreeNodesInRings(h, root, tree, rings);
    HeadRing(h, rings, t);
    var f := h[t].fwd;
    MembersNotHeads(h, rings, t);
    HeadKeys(h, c, l, t, r, f);
    NodeLinks(h, c, root, q, l, t, r);
    PromoteTree(h, c, root, q, l, t, r, f);
    var h1 := Promote(h, t, f);
    HeadRings(h, h1, tree, rings, t, f);
    var h2 := Unlink(h1, t);
    var root', tree' := if q == NIL then f else root, Plug(c, Node(l, f, r));
    PromoteOrdered(h, h2, c, l, t, r, f);
    TreeInHeap(h1, root', NIL, tree');
    TreeFrame(h1, h2, root', NIL, tree');
  }

  lemma HeadKeys(h: Heap, c: Ctx, l: Tree, t: Addr, r: Tree, f: Addr)
    requires AllFit(h, c, Node(l, t, r)) && f !in Nodes(Plug(c, Node(l, t, r)))
    ensures Nodes(Plug(c, Node(l, f, r))) == Nodes(Plug(c, Node(l, t, r))) - {t} + {f}
    ensures CtxNodes(c) + Nodes(l) + Nodes(r) <= Nodes(Plug(c, Node(l, t, r)))
    ensures f !in CtxNodes(c) && f !in Nodes(Node(l, t, r)) && t !in CtxNodes(c)
  {
    hide AllFit, Plug, CtxNodes;
    PlugNodes(c, Node(l, t, r));
    PlugNodes(c, Node(l, f, r));
    NodeSets(h, c, l, t, r);
  }

  /** The rings after a promotion and an unlinking. */
  lemma HeadRings(h: Heap, h1: Heap, tree: Tree, rings: map<Addr, seq<Addr>>, t: Addr, f: Addr)
    requires RingsOk(h, rings) && rings.Keys == Nodes(tree)
    requires t in rings && 1 < |rings[t]| && rings[t][1] == f && f !in rings
    requires SameBlocks(h, h1) && (forall x :: x in h ==> SameRing(h, h1, x)) && SameOutside(h, h1, Nodes(tree) + {f})
    ensures t in h1 && h1[t].prev in h1 && h1[t].fwd in h1
    ensures var h2, rings' := Unlink(h1, t), Promoted(rings, t, f);
            && RingsOk(h2, rings') && rings'.Keys == Nodes(tree) - {t} + {f}
            && (forall x :: InRings(rings', x) <==> InRings(rings, x) && x != t)
            && SameBlocks(h, h2) && (forall x :: x in h ==> SameLinks(h1, h2, x))
            && (forall x :: x in h && !InRings(rings, x) ==> h2[x] == h1[x])
  {
    hide RingsOk, RingOk, Ring, Unlink;
    HeadRing(h, rings, t);
    MembersNotHeads(h, rings, t);
    assert SameRing(h, h1, t);
    UnlinkEffect(h1, t);
    var h2 := Unlink(h1, t);
    PromotedRing(h, h1, h2, Nodes(tree), rings[t], t, f);
    HeadOthers(h, h1, h2, tree, rings, t, f, h1[t].prev, h1[t].fwd);
    RingsPromote(h, h2, rings, t, f);
  }

  lemma PromotedRing(h: Heap, h1: Heap, h2: Heap, nodes: set<Addr>, s: seq<Addr>, t: Addr, f: Addr)
    requires RingOk(h, t, s) && 1 < |s| && s[1] == f
    requires SameBlocks(h, h1) && (forall x :: x in h ==> SameRing(h, h1, x)) && SameOutside(h, h1, nodes + {f})
    requires forall x :: x in s && x != t ==> x !in nodes
    requires t in h1 && h1[t].prev in h1 && h1[t].fwd in h1 && h2 == Unlink(h1, t)
    ensures RingOk(h2, f, Drop(s, 0))
  {
    RingFrame(h, h1, s);
    UnlinkEffect(h1, t);
    hide Unlink;
    RingDrop(h1, h2, s, 0);
    DropHas(s, 0);
    assert Drop(s, 0)[0] == f;
  }

  lemma HeadOthers(h: Heap, h1: Heap, h2: Heap, tree: Tree, rings: map<Addr, seq<Addr>>, t: Addr, f: Addr, p: Addr, g: Addr)
    requires RingsOk(h, rings) && rings.Keys == Nodes(tree)
    requires t in rings && f in rings[t] && p in rings[t] && g in rings[t]
    requires SameBlocks(h, h1) && (forall x :: x in h ==> SameRing(h, h1, x)) && SameOutside(h, h1, Nodes(tree) + {f})
    requires SameBlocks(h1, h2) && SameOutside(h1, h2, {p, g})
    ensures OtherRings(h, h2, rings, t)
  {
    hide RingOk;
    forall b, x | b in rings && b != t && x in rings[b]
      ensures SameRing(h, h2, x) && h2[x].size == h[x].size && h2[x].magic == h[x].magic
      ensures x != b ==> h2[x].parent == h[x].parent
    {
      MembersNotHeads(h, rings, b);
      assert x !in rings[t] && x in h && SameRing(h, h1, x);
      assert h2[x] == h1[x];
    }
  }

  /** The state after a block that was alone of its size has been deleted. */
  lemma AloneDeleted(h: Heap, h': Heap, root: Addr, root': Addr, rings: map<Addr, seq<Addr>>, c: Ctx, l: Tree, t: Addr, r: Tree, s: Tree)
    requires FreeOk(h, root, Plug(c, Node(l, t, r)), rings) && t in rings && |rings[t]| == 1
    requires IsTree(h', root', NIL, Plug(c, s))
    requires Ordered(h, s) && Nodes(s) == Nodes(l) + Nodes(r)
    requires RingsStay(h, h', CtxNodes(c) + Nodes(l) + Nodes(r)) && SameOutside(h, h', CtxNodes(c) + Nodes(l) + Nodes(r))
    ensures FreeOk(h', root', Plug(c, s), rings - {t})
    ensures forall x :: InRings(rings - {t}, x) <==> InRings(rings, x) && x != t
    ensures forall x :: x in h && !InRings(rings, x) ==> h'[x] == h[x]
  {
    hide RingsOk, RingsStay, InRings, AllFit, IsTree, Ordered, Nodes, CtxNodes, Plug, SameBlocks, SameRing;
    PlugOrdered(h, c, Node(l, t, r));
    AloneKeys(h, c, l, t, r, s);
    TreeNodesInRings(h, root, Plug(c, Node(l, t, r)), rings);
    AloneRings(h, h', c, l, t, r, rings);
    AloneOrdered(h, h', c, l, t, r, s);
  }

  lemma AloneKeys(h: Heap, c: Ctx, l: Tree, t: Addr, r: Tree, s: Tree)
    requires AllFit(h, c, Node(l, t, r)) && Nodes(s) == Nodes(l) + Nodes(r)
    ensures Nodes(Plug(c, s)) == Nodes(Plug(c, Node(l, t, r))) - {t}
    ensures CtxNodes(c) + Nodes(l) + Nodes(r) <= Nodes(Plug(c, Node(l, t, r)))
  {
    hide AllFit, Plug, CtxNodes, Nodes, InHeap, Ordered, HoleApart;
    PlugNodes(c, Node(l, t, r));
    PlugNodes(c, s);
    NodeSets(h, c, l, t, r);
    NodesOfNode(l, t, r);
    WithoutOne(CtxNodes(c), Nodes(l), Nodes(r), t);
  }

  lemma NodesOfNode(l: Tree, t: Addr, r: Tree)
    ensures Nodes(Node(l, t, r)) == Nodes(l) + {t} + Nodes(r)
  {
  }

  lemma WithoutOne(k: set<Addr>, l: set<Addr>, r: set<Addr>, t: Addr)
    requires t !in k && t !in l && t !in r
    ensures k + (l + r) == k + (l + {t} + r) - {t} && k + l + r <= k + (l + {t} + r)
  {
  }

  lemma AloneRings(h: Heap, h': Heap, c: Ctx, l: Tree, t: Addr, r: Tree, rings: map<Addr, seq<Addr>>)
    requires RingsOk(h, rings) && t in rings && |rings[t]| == 1 && rings.Keys == Nodes(Plug(c, Node(l, t, r)))
    requires RingsStay(h, h', CtxNodes(c) + Nodes(l) + Nodes(r))
    requires CtxNodes(c) + Nodes(l) + Nodes(r) <= Nodes(Plug(c, Node(l, t, r)))
    ensures RingsOk(h', rings - {t}) && SameBlocks(h, h')
    ensures forall x :: InRings(rings - {t}, x) <==> InRings(rings, x) && x != t
  {
    hide RingsOk, Plug, Nodes, CtxNodes, InRings;
    StayMeansOthers(h, h', rings, t, CtxNodes(c) + Nodes(l) + Nodes(r));
    RingsLess(h, h', rings, t);
  }

  lemma AloneOrdered(h: Heap, h': Heap, c: Ctx, l: Tree, t: Addr, r: Tree, s: Tree)
    requires AllFit(h, c, Node(l, t, r)) && Ordered(h, s) && Nodes(s) == Nodes(l) + Nodes(r) && SameBlocks(h, h')
    ensures Ordered(h', Plug(c, s))
  {
    OrderedFrame(h, h', s);
    assert forall b :: b in Nodes(s) ==> b in Nodes(Node(l, t, r)) && h'[b].size == h[b].size;
    Replaced(h, h', c, Node(l, t, r), s);
  }
}
