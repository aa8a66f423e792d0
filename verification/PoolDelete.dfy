/**
 Taking a block out of the free blocks: the pointer updates of the three cases, and what
 each makes of the tree and the rings.
 */
module PoolDelete {
  import opened Sequences
  import opened PoolTree
  import opened PoolFree

  function SetParent(h: Heap, x: Addr, p: Addr): Heap
    requires x != NIL ==> x in h
  {
    if x == NIL then h else h[x := h[x].(parent := p)]
  }

  /** The child pointer of s that was t is now x. */
  function SetChild(h: Heap, s: Addr, t: Addr, x: Addr): Heap
    requires s != NIL ==> s in h
  {
    if s == NIL then h
    else if h[s].left == t then h[s := h[s].(left := x)]
    else h[s := h[s].(right := x)]
  }

  function Unlink(h: Heap, t: Addr): Heap
    requires t in h && h[t].prev in h && h[t].fwd in h
  {
    var p, f := h[t].prev, h[t].fwd;
    var h1 := h[p := h[p].(fwd := f)];
    h1[f := h1[f].(prev := p)]
  }

  /** Magic and size of every block are the same. */
  ghost predicate SameBlocks(h: Heap, h': Heap) {
    h'.Keys == h.Keys && forall x :: x in h ==> h'[x].magic == h[x].magic && h'[x].size == h[x].size
  }

  ghost predicate SameOutside(h: Heap, h': Heap, s: set<Addr>) {
    h'.Keys == h.Keys && forall x :: x in h && x !in s ==> h'[x] == h[x]
  }

  // ----- changing links

  /** Ring links, sizes and magics are the same, and parents of blocks outside s. */
  ghost predicate RingsStay(h: Heap, h': Heap, s: set<Addr>) {
    && SameBlocks(h, h') && (forall x :: x in h ==> SameRing(h, h', x))
    && (forall x :: x in h && x !in s ==> h'[x].parent == h[x].parent)
  }

  /** Only links of blocks of s have changed. */
  ghost predicate LinksOf(h: Heap, h': Heap, s: set<Addr>) {
    RingsStay(h, h', s) && SameOutside(h, h', s)
  }

  lemma LinksChain(h: Heap, h1: Heap, h2: Heap, s1: set<Addr>, s2: set<Addr>, s: set<Addr>)
    requires LinksOf(h, h1, s1) && LinksOf(h1, h2, s2) && s1 <= s && s2 <= s
    ensures LinksOf(h, h2, s)
  {
  }

  lemma LinksHeap(h: Heap, h': Heap, s: set<Addr>)
    requires LinksOf(h, h', s)
    ensures h'.Keys == h.Keys && forall x :: x in h && x !in s ==> h'[x] == h[x]
  {
  }

  lemma FieldSet(h: Heap, x: Addr, b: Bhdr, s: set<Addr>)
    requires x in h && x in s && b.magic == h[x].magic && b.size == h[x].size && b.fwd == h[x].fwd && b.prev == h[x].prev
    ensures LinksOf(h, h[x := b], s)
  {
  }

  lemma ParentSet(h: Heap, x: Addr, p: Addr, s: set<Addr>)
    requires x != NIL ==> x in h && x in s
    ensures LinksOf(h, SetParent(h, x, p), s)
  {
  }

  lemma ChildSet(h: Heap, q: Addr, t: Addr, x: Addr, s: set<Addr>)
    requires q != NIL ==> q in h && q in s
    ensures LinksOf(h, SetChild(h, q, t, x), s)
  {
  }

  // ----- a ring member

  lemma UnlinkEffect(h: Heap, t: Addr)
    requires t in h && h[t].prev in h && h[t].fwd in h
    ensures var h', p, f := Unlink(h, t), h[t].prev, h[t].fwd;
            && SameBlocks(h, h') && SameOutside(h, h', {p, f})
            && (forall x :: x in h ==> SameLinks(h, h', x))
            && h'[p].fwd == f && h'[f].prev == p
            && (forall x :: x in h && x != p ==> h'[x].fwd == h[x].fwd)
            && (forall x :: x in h && x != f ==> h'[x].prev == h[x].prev)
  {
  }

  lemma RingNeighbours(h: Heap, s: seq<Addr>, k: nat)
    requires Ring(h, s) && k < |s|
    ensures var t := s[k]; t in h && h[t].prev in s && h[t].fwd in s && h[t].prev in h && h[t].fwd in h
  {
    assert RingLink(h, s, k) && RingLink(h, s, if k == 0 then |s| - 1 else k - 1);
  }

  /** Dropping block k > 0 of ring a from the rings. */
  lemma RingsDrop(h: Heap, h': Heap, rings: map<Addr, seq<Addr>>, a: Addr, k: nat)
    requires RingsOk(h, rings)
    requires a in rings && 0 < k < |rings[a]| && OtherRings(h, h', rings, a)
    requires RingOk(h', a, Drop(rings[a], k))
    ensures var rings' := rings[a := Drop(rings[a], k)];
            && RingsOk(h', rings')
            && (forall x :: InRings(rings', x) <==> InRings(rings, x) && x != rings[a][k])
  {
    hide RingOk, Ring;
    OtherRingsOk(h, h', rings, a);
    var rings' := rings[a := Drop(rings[a], k)];
    RingDistinct(h, rings, a);
    DropHas(rings[a], k);
    forall x
      ensures InRings(rings', x) <==> InRings(rings, x) && x != rings[a][k]
    {
      if InRings(rings', x) {
        var b :| b in rings' && x in rings'[b];
        assert x in rings[b];
      }
      if InRings(rings, x) && x != rings[a][k] {
        var b :| b in rings && x in rings[b];
        assert x in rings'[b];
      }
    }
  }

  lemma RingDistinct(h: Heap, rings: map<Addr, seq<Addr>>, a: Addr)
    requires a in rings && RingOk(h, a, rings[a])
    ensures Distinct(rings[a])
  {
  }

  lemma MemberDeleted(h: Heap, root: Addr, tree: Tree, rings: map<Addr, seq<Addr>>, a: Addr, k: nat)
    requires FreeOk(h, root, tree, rings) && a in rings && 0 < k < |rings[a]|
    ensures var t, rings' := rings[a][k], rings[a := Drop(rings[a], k)];
            && t in h && h[t].prev in h && h[t].fwd in h
            && FreeOk(Unlink(h, t), root, tree, rings')
            && (forall x :: InRings(rings', x) <==> InRings(rings, x) && x != t)
  {
    var s := rings[a];
    var t := s[k];
    RingNeighbours(h, s, k);
    var h' := Unlink(h, t);
    UnlinkEffect(h, t);
    hide Unlink, Ring, RingsApart;
    RingMemberDropped(h, h', a, s, k);
    OthersUntouched(h, h', rings, a, h[t].prev, h[t].fwd);
    RingsDrop(h, h', rings, a, k);
    TreeFrame(h, h', root, NIL, tree);
    OrderedFrame(h, h', tree);
  }

  lemma RingMemberDropped(h: Heap, h': Heap, a: Addr, s: seq<Addr>, k: nat)
    requires RingOk(h, a, s) && 0 < k < |s| && SameBlocks(h, h')
    requires var p, f := h[s[k]].prev, h[s[k]].fwd;
             && p in h && f in h && h'[p].fwd == f && h'[f].prev == p
             && (forall x :: x in h ==> SameLinks(h, h', x))
             && (forall x :: x in h && x != p ==> h'[x].fwd == h[x].fwd)
             && (forall x :: x in h && x != f ==> h'[x].prev == h[x].prev)
    ensures RingOk(h', a, Drop(s, k))
  {
    RingDrop(h, h', s, k);
    DropHas(s, k);
    assert Drop(s, k)[0] == a;
  }

  lemma OthersUntouched(h: Heap, h': Heap, rings: map<Addr, seq<Addr>>, a: Addr, p: Addr, f: Addr)
    requires RingsOk(h, rings)
    requires a in rings && p in rings[a] && f in rings[a] && SameOutside(h, h', {p, f})
    ensures OtherRings(h, h', rings, a)
  {
  }

  ghost function Elems(s: seq<Addr>): (e: set<Addr>)
    ensures forall x :: x in e <==> x in s
  {
    set x | x in s
  }

  // ----- the head of a ring

  /** Node t hands its place in the tree to f. */
  function Promote(h: Heap, t: Addr, f: Addr): Heap
    requires t in h && f in h && t != f
    requires h[t].parent != NIL ==> h[t].parent in h
    requires (h[t].left != NIL ==> h[t].left in h) && (h[t].right != NIL ==> h[t].right in h)
  {
    var h1 := SetChild(h[f := h[f].(parent := h[t].parent)], h[t].parent, t, f);
    var h2 := SetParent(h1[f := h1[f].(left := h[t].left)], h[t].left, f);
    SetParent(h2[f := h2[f].(right := h[t].right)], h[t].right, f)
  }

  lemma ChildInHeap(h: Heap, x: Addr, p: Addr, t: Tree)
    requires IsTree(h, x, p, t)
    ensures x != NIL ==> x in h && x in Nodes(t)
    ensures x == NIL <==> t.Leaf?
  {
  }

  lemma ParentInHeap(h: Heap, c: Ctx, root: Addr, p: Addr, x: Addr)
    requires IsCtx(h, c, root, NIL, p, x)
    ensures p == NIL <==> c.Top?
    ensures p != NIL ==> p in h && p in CtxNodes(c)
    ensures c.InLeft? ==> h[p].left == x
    ensures c.InRight? ==> h[p].right == x
    ensures c.InRight? && x != NIL && x !in CtxNodes(c) ==> h[p].left != x
  {
    if c.InRight? { ChildInHeap(h, h[p].left, p, c.l); }
  }

  /** What Promote does to the links. */
  lemma PromoteEffect(h: Heap, t: Addr, f: Addr)
    requires t in h && f in h && t != f
    requires h[t].parent != NIL ==> h[t].parent in h && h[t].parent != f && h[t].parent != t
    requires h[t].left != NIL ==> h[t].left in h && h[t].left != f && h[t].left != t && h[t].left != h[t].parent
    requires h[t].right != NIL ==> h[t].right in h && h[t].right != f && h[t].right != t && h[t].right != h[t].parent
    requires h[t].left != NIL ==> h[t].left != h[t].right
    ensures var h', q, x, y := Promote(h, t, f), h[t].parent, h[t].left, h[t].right;
            && SameBlocks(h, h') && SameOutside(h, h', {f} + ({q, x, y} - {NIL}))
            && h'[f].parent == q && h'[f].left == x && h'[f].right == y
            && (x != NIL ==> h'[x] == h[x].(parent := f)) && (y != NIL ==> h'[y] == h[y].(parent := f))
            && (q != NIL ==> h'[q] == if h[q].left == t then h[q].(left := f) else h[q].(right := f))
            && (forall x :: x in h ==> SameRing(h, h', x))
  {
    hide SetChild, SetParent, Promote, RingsStay, SameOutside;
    var q, x, y := h[t].parent, h[t].left, h[t].right;
    var s := {f} + ({q, x, y} - {NIL});
    PromoteLinks(h, t, f, s);
    LinksParts(h, Promote(h, t, f), s, s);
    PromoteValues(h, t, f);
  }

  lemma LinksParts(h: Heap, h': Heap, s: set<Addr>, s': set<Addr>)
    requires LinksOf(h, h', s) && s <= s'
    ensures SameBlocks(h, h') && SameOutside(h, h', s') && forall x :: x in h ==> SameRing(h, h', x)
  {
  }

  lemma PromoteLinks(h: Heap, t: Addr, f: Addr, s: set<Addr>)
    requires t in h && f in h && t != f && f in s
    requires h[t].parent != NIL ==> h[t].parent in h && h[t].parent in s
    requires h[t].left != NIL ==> h[t].left in h && h[t].left in s
    requires h[t].right != NIL ==> h[t].right in h && h[t].right in s
    ensures LinksOf(h, Promote(h, t, f), s)
  {
    hide LinksOf, SetChild, SetParent;
    var q, x, y := h[t].parent, h[t].left, h[t].right;
    var h1 := h[f := h[f].(parent := q)];
    FieldSet(h, f, h[f].(parent := q), s);
    var h2 := SetChild(h1, q, t, f);
    ChildSet(h1, q, t, f, s);
    LinksHeap(h1, h2, s);
    var h3 := h2[f := h2[f].(left := x)];
    FieldSet(h2, f, h2[f].(left := x), s);
    var h4 := SetParent(h3, x, f);
    ParentSet(h3, x, f, s);
    LinksHeap(h3, h4, s);
    var h5 := h4[f := h4[f].(right := y)];
    FieldSet(h4, f, h4[f].(right := y), s);
    ParentSet(h5, y, f, s);
    LinksChain(h, h1, h2, s, s, s);
    LinksChain(h, h2, h3, s, s, s);
    LinksChain(h, h3, h4, s, s, s);
    LinksChain(h, h4, h5, s, s, s);
    LinksChain(h, h5, Promote(h, t, f), s, s, s);
  }

  lemma PromoteValues(h: Heap, t: Addr, f: Addr)
    requires t in h && f in h && t != f
    requires h[t].parent != NIL ==> h[t].parent in h && h[t].parent != f && h[t].parent != t
    requires h[t].left != NIL ==> h[t].left in h && h[t].left != f && h[t].left != t && h[t].left != h[t].parent
    requires h[t].right != NIL ==> h[t].right in h && h[t].right != f && h[t].right != t && h[t].right != h[t].parent
    requires h[t].left != NIL ==> h[t].left != h[t].right
    ensures var h', q, x, y := Promote(h, t, f), h[t].parent, h[t].left, h[t].right;
            && h'.Keys == h.Keys && h'[f].parent == q && h'[f].left == x && h'[f].right == y
            && (x != NIL ==> h'[x] == h[x].(parent := f)) && (y != NIL ==> h'[y] == h[y].(parent := f))
            && (q != NIL ==> h'[q] == if h[q].left == t then h[q].(left := f) else h[q].(right := f))
  {
  }

  lemma NodeLinks(h: Heap, c: Ctx, root: Addr, q: Addr, l: Tree, t: Addr, r: Tree)
    requires IsCtx(h, c, root, NIL, q, t) && IsTree(h, t, q, Node(l, t, r))
    ensures t in h && t != NIL && h[t].parent == q && (q == NIL <==> c.Top?)
    ensures q != NIL ==> q in h && q in CtxNodes(c)
    ensures IsTree(h, h[t].left, t, l) && IsTree(h, h[t].right, t, r)
    ensures h[t].left != NIL ==> h[t].left in h && h[t].left in Nodes(l)
    ensures h[t].right != NIL ==> h[t].right in h && h[t].right in Nodes(r)
    ensures c.InLeft? ==> h[q].left == t
    ensures c.InRight? && t !in CtxNodes(c) ==> h[q].right == t && h[q].left != t
  {
    ChildInHeap(h, h[t].left, t, l);
    ChildInHeap(h, h[t].right, t, r);
    ParentInHeap(h, c, root, q, t);
  }

  lemma NodeSets(h: Heap, c: Ctx, l: Tree, t: Addr, r: Tree)
    requires AllFit(h, c, Node(l, t, r))
    ensures CtxNodes(c) !! Nodes(Node(l, t, r)) && HoleApart(c)
    ensures Nodes(l) !! Nodes(r) && t !in Nodes(l) && t !in Nodes(r)
    ensures InHeap(h, CtxNodes(c)) && InHeap(h, Nodes(Node(l, t, r))) && Ordered(h, l) && Ordered(h, r)
  {
    hide Fits, HoleApart, CtxNodes;
    Apart(h, c, Node(l, t, r));
  }

  lemma RootApart(h: Heap, t: Tree)
    requires Ordered(h, t)
    ensures t.Node? ==> t.a !in Nodes(t.l) + Nodes(t.r)
  {
  }

  lemma KeptLinks(h: Heap, h': Heap, cs: set<Addr>, ls: set<Addr>, rs: set<Addr>, f: Addr, q: Addr, x: Addr, y: Addr)
    requires SameOutside(h, h', {f} + ({q, x, y} - {NIL})) && InHeap(h, cs) && InHeap(h, ls) && InHeap(h, rs)
    requires cs !! ls && cs !! rs && ls !! rs && f !in cs + ls + rs
    requires (q != NIL ==> q in cs) && (x != NIL ==> x in ls) && (y != NIL ==> y in rs)
    ensures forall a :: a in cs && a != q ==> SameLinks(h, h', a)
    ensures forall a :: a in ls && a != x ==> SameLinks(h, h', a)
    ensures forall a :: a in rs && a != y ==> SameLinks(h, h', a)
    ensures SameOutside(h, h', cs + ls + rs + {f})
  {
  }

  lemma PromoteTree(h: Heap, c: Ctx, root: Addr, q: Addr, l: Tree, t: Addr, r: Tree, f: Addr)
    requires IsCtx(h, c, root, NIL, q, t) && IsTree(h, t, q, Node(l, t, r)) && AllFit(h, c, Node(l, t, r))
    requires f in h && f != NIL && f !in CtxNodes(c) && f !in Nodes(Node(l, t, r)) && h[f].size == h[t].size
    ensures q != NIL ==> q in h
    ensures (h[t].left != NIL ==> h[t].left in h) && (h[t].right != NIL ==> h[t].right in h)
    ensures var h' := Promote(h, t, f);
            && IsTree(h', if q == NIL then f else root, NIL, Plug(c, Node(l, f, r)))
            && SameBlocks(h, h') && SameOutside(h, h', CtxNodes(c) + Nodes(l) + Nodes(r) + {f})
            && forall x :: x in h ==> SameRing(h, h', x)
  {
    hide AllFit, Ordered, Fits, OrderedCtx, Promote, IsTree, Plug, HoleApart, SameLinks, SameOutside;
    NodeLinks(h, c, root, q, l, t, r);
    NodeSets(h, c, l, t, r);
    RootApart(h, l);
    RootApart(h, r);
    PromoteEffect(h, t, f);
    var h' := Promote(h, t, f);
    KeptLinks(h, h', CtxNodes(c), Nodes(l), Nodes(r), f, q, h[t].left, h[t].right);
    Relink(h, h', c, root, NIL, q, t, f);
    Reparent(h, h', h[t].left, t, f, l);
    Reparent(h, h', h[t].right, t, f, r);
    PlugIsTree(h', c, if c.Top? then f else root, NIL, q, f, Node(l, f, r));
  }

  lemma PromoteOrdered(h: Heap, h': Heap, c: Ctx, l: Tree, t: Addr, r: Tree, f: Addr)
    requires AllFit(h, c, Node(l, t, r)) && SameBlocks(h, h') && f in h && h[f].size == h[t].size
    ensures Ordered(h', Plug(c, Node(l, f, r)))
  {
    OrderedFrame(h, h', l);
    OrderedFrame(h, h', r);
    forall b | b in Nodes(Node(l, f, r))
      ensures exists b0 :: b0 in Nodes(Node(l, t, r)) && h'[b].size == h[b0].size
    {
      var b0 := if b == f then t else b;
      assert b0 in Nodes(Node(l, t, r)) && h'[b].size == h[b0].size;
    }
    Replaced(h, h', c, Node(l, t, r), Node(l, f, r));
  }

  // ----- a block that is alone of its size

  /** Putting subtree s at x in the place of t. */
  lemma Spliced(h: Heap, c: Ctx, root: Addr, q: Addr, t: Addr, x: Addr, p: Addr, s: Tree)
    requires IsCtx(h, c, root, NIL, q, t) && IsTree(h, x, p, s) && t != NIL && t !in CtxNodes(c)
    requires InHeap(h, CtxNodes(c)) && InHeap(h, Nodes(s))
    requires HoleApart(c) && CtxNodes(c) !! Nodes(s) && (s.Node? ==> s.a !in Nodes(s.l) + Nodes(s.r))
    ensures q != NIL ==> q in h
    ensures x != NIL ==> x in h
    ensures IsTree(SetParent(SetChild(h, q, t, x), x, q), if q == NIL then x else root, NIL, Plug(c, s))
  {
    ParentInHeap(h, c, root, q, t);
    ChildInHeap(h, x, p, s);
    var h' := SetParent(SetChild(h, q, t, x), x, q);
    Relink(h, h', c, root, NIL, q, t, x);
    Reparent(h, h', x, p, q, s);
    PlugIsTree(h', c, if c.Top? then x else root, NIL, q, x, s);
  }

  /** The leftmost node m of the right subtree, whose parent f is not t, leaves its place. */
  function Extract(h: Heap, t: Addr, f: Addr, m: Addr): Heap
    requires t in h && f in h && m in h && (h[m].right != NIL ==> h[m].right in h)
    requires h[t].right != NIL ==> h[t].right in h
  {
    var h1 := SetParent(h[f := h[f].(left := h[m].right)], h[m].right, f);
    SetParent(h1[m := h1[m].(right := h[t].right)], h[t].right, m)
  }

  /** Node m takes over the left subtree of t. */
  function TakeLeft(h: Heap, t: Addr, m: Addr): Heap
    requires t in h && m in h && h[t].left != NIL && h[t].left in h
  {
    SetParent(h[m := h[m].(left := h[t].left)], h[t].left, m)
  }

  lemma ExtractLinks(h: Heap, t: Addr, f: Addr, m: Addr, s: set<Addr>)
    requires t in h && f in h && m in h && (h[m].right != NIL ==> h[m].right in h && h[m].right in s)
    requires h[t].right != NIL ==> h[t].right in h && h[t].right in s
    requires f in s && m in s
    ensures LinksOf(h, Extract(h, t, f, m), s)
  {
    hide LinksOf, SetParent;
    var h1 := h[f := h[f].(left := h[m].right)];
    FieldSet(h, f, h[f].(left := h[m].right), s);
    var h2 := SetParent(h1, h[m].right, f);
    ParentSet(h1, h[m].right, f, s);
    LinksHeap(h1, h2, s);
    var h3 := h2[m := h2[m].(right := h[t].right)];
    FieldSet(h2, m, h2[m].(right := h[t].right), s);
    ParentSet(h3, h[t].right, m, s);
    LinksChain(h, h1, h2, s, s, s);
    LinksChain(h, h2, h3, s, s, s);
    LinksChain(h, h3, Extract(h, t, f, m), s, s, s);
  }

  lemma ExtractTree(h: Heap, k: Ctx, t: Addr, f: Addr, m: Addr, mr: Tree)
    requires t in h && IsCtx(h, k, h[t].right, t, f, m) && IsTree(h, m, f, Node(Leaf, m, mr)) && k.InLeft?
    requires t != NIL && LeftSpine(k) && AllFit(h, k, Node(Leaf, m, mr))
    requires t !in CtxNodes(k) && t !in Nodes(Node(Leaf, m, mr))
    ensures f in h && m in h && (h[m].right != NIL ==> h[m].right in h) && h[t].right != NIL && h[t].right in h
    ensures var h' := Extract(h, t, f, m);
            && SameOutside(h, h', CtxNodes(k) + Nodes(mr) + {m})
            && m in h' && h'[m].right == h[t].right && IsTree(h', h[t].right, m, Plug(k, mr))
  {
    hide OrderedCtx, Fits, Ordered, AllFit, Plug, IsCtx, IsTree, LeftSpine, SetParent, LinksOf, RingsStay, SameOutside;
    Detached(h, k, t, f, m, mr);
    var h1 := SetParent(h[f := h[f].(left := h[m].right)], h[m].right, f);
    var s := CtxNodes(k) + Nodes(mr) + {m};
    NodeSets(h, k, Leaf, m, mr);
    ParentSet(h[f := h[f].(left := h[m].right)], h[m].right, f, s);
    LinksHeap(h[f := h[f].(left := h[m].right)], h1, s);
    PlugNodes(k, mr);
    PluggedRootApart(h, k, m, mr);
    RightTaken(h1, h[t].right, t, m, Plug(k, mr));
    ExtractLinks(h, t, f, m, s);
    LinksParts(h, Extract(h, t, f, m), s, s);
  }

  /** Node m takes over subtree s at x. */
  lemma RightTaken(h: Heap, x: Addr, p: Addr, m: Addr, s: Tree)
    requires IsTree(h, x, p, s) && x != NIL && m in h && m != x && m !in Nodes(s)
    requires s.Node? ==> s.a !in Nodes(s.l) + Nodes(s.r)
    ensures x in h
    ensures var h' := SetParent(h[m := h[m].(right := x)], x, m);
            m in h' && h'[m].right == x && IsTree(h', x, m, s)
  {
    TreeInHeap(h, x, p, s);
    Reparent(h, SetParent(h[m := h[m].(right := x)], x, m), x, p, m, s);
  }

  /** The first half of Extract: m is out of the spine. */
  lemma Detached(h: Heap, k: Ctx, t: Addr, f: Addr, m: Addr, mr: Tree)
    requires t in h && IsCtx(h, k, h[t].right, t, f, m) && IsTree(h, m, f, Node(Leaf, m, mr)) && k.InLeft?
    requires t != NIL && LeftSpine(k) && AllFit(h, k, Node(Leaf, m, mr))
    requires t !in CtxNodes(k) && t !in Nodes(Node(Leaf, m, mr))
    ensures f in h && m in h && (h[m].right != NIL ==> h[m].right in h) && h[t].right != NIL && h[t].right in h
    ensures f != m && f in CtxNodes(k) && h[t].right in CtxNodes(k) && (h[m].right != NIL ==> h[m].right in Nodes(mr))
    ensures var h1 := SetParent(h[f := h[f].(left := h[m].right)], h[m].right, f);
            IsTree(h1, h[t].right, t, Plug(k, mr))
  {
    hide OrderedCtx, Fits, Ordered, AllFit, Plug;
    NodeSets(h, k, Leaf, m, mr);
    RootApart(h, mr);
    ChildInHeap(h, h[m].right, m, mr);
    SpineRoot(h, k, h[t].right, t, f, m);
    var h1 := SetParent(h[f := h[f].(left := h[m].right)], h[m].right, f);
    Relink(h, h1, k, h[t].right, t, f, m, h[m].right);
    Reparent(h, h1, h[m].right, m, f, mr);
    PlugIsTree(h1, k, h[t].right, t, f, h[m].right, mr);
  }

  /** The root of a left spine is a node of it, and the pointer to the hole is a left pointer. */
  lemma {:induction false} SpineRoot(h: Heap, k: Ctx, root: Addr, rp: Addr, f: Addr, m: Addr)
    requires IsCtx(h, k, root, rp, f, m) && k.InLeft? && LeftSpine(k)
    ensures root in CtxNodes(k) && root != NIL && root in h && f in h && f in CtxNodes(k) && h[f].left == m
  {
    if k.up.InLeft? { SpineRoot(h, k.up, root, rp, h[k.a].parent, k.a); }
  }

  lemma PluggedRootApart(h: Heap, k: Ctx, m: Addr, mr: Tree)
    requires AllFit(h, k, Node(Leaf, m, mr))
    ensures var t := Plug(k, mr); t.Node? ==> t.a !in Nodes(t.l) + Nodes(t.r)
  {
    hide OrderedCtx, Fits;
    FitsSub(h, k, m, mr);
    PlugOrdered(h, k, mr);
    RootApart(h, Plug(k, mr));
  }

  lemma FitsSub(h: Heap, k: Ctx, m: Addr, mr: Tree)
    requires AllFit(h, k, Node(Leaf, m, mr))
    ensures AllFit(h, k, mr)
  {
  }

  /** After t has been stripped, m stands for its subtree. */
  lemma TakeLeftTree(h: Heap, t: Addr, l: Tree, m: Addr, s: Tree)
    requires t in h && m in h && m != t && IsTree(h, h[t].left, t, l) && l.Node? && IsTree(h, h[m].right, m, s)
    requires l.a !in Nodes(l.l) + Nodes(l.r) && m !in Nodes(l) && m !in Nodes(s) && m != NIL && Nodes(l) !! Nodes(s)
    ensures h[t].left != NIL && h[t].left in h && h[t].left in Nodes(l)
    ensures var h' := TakeLeft(h, t, m);
            IsTree(h', m, h'[m].parent, Node(l, m, s)) && SameOutside(h, h', {h[t].left, m})
  {
    ChildInHeap(h, h[t].left, t, l);
    TreeInHeap(h, h[m].right, m, s);
    var h' := TakeLeft(h, t, m);
    LeftTaken(h, h', t, l, m);
    TreeFrame(h, h', h[m].right, m, s);
  }

  lemma LeftTaken(h: Heap, h': Heap, t: Addr, l: Tree, m: Addr)
    requires t in h && m in h && m != t && IsTree(h, h[t].left, t, l) && l.Node?
    requires l.a !in Nodes(l.l) + Nodes(l.r) && m !in Nodes(l)
    requires h[t].left != NIL && h[t].left in h && h' == TakeLeft(h, t, m)
    ensures IsTree(h', h[t].left, m, l)
  {
    TreeInHeap(h, h[t].left, t, l);
    Reparent(h, h', h[t].left, t, m, l);
  }
}
