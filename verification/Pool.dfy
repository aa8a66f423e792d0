/**
 The pool allocator. The object holds the block headers, the back pointers at the ends of
 the blocks, the root of the size tree and the counters; the tree, the rings and the arenas
 these spell out are ghost.
 */
module PoolAllocator {
  import opened PoolTree
  import opened PoolFree
  import opened PoolDelete
  import opened PoolIndex
  import opened PoolAlone
  import opened PoolInsert
  import opened PoolArena
  import opened PoolState

  class Pool {
    const chunk: nat
    var maxsize: nat
    var h: Heap
    var tails: map<Addr, Addr>
    var root: Addr
    var cursize: int
    var arenasize: nat
    var nalloc: nat
    var nfree: nat
    var nbrk: nat
    ghost var tree: Tree
    ghost var rings: map<Addr, seq<Addr>>
    ghost var z: Arenas
    ghost var refused: nat

    // ----- the free blocks

    ghost predicate Index()
      reads this`h, this`root, this`tree, this`rings
    {
      FreeOk(h, root, tree, rings)
    }

    /** Takes free block t out of the tree and the rings, and nothing else. */
    method PoolDel(t: Addr)
      requires Index() && InRings(rings, t)
      modifies this`h, this`root, this`tree, this`rings
      ensures Index() && SameBlocks(old(h), h)
      ensures forall x :: InRings(rings, x) <==> InRings(old(rings), x) && x != t
      ensures forall x :: x in old(h) && !InRings(old(rings), x) ==> h[x] == old(h)[x]
    {
      hide RingsOk, IsTree, Ordered, Nodes, Plug, CtxNodes, InRings, Unlink, Promote, IsCtx;
      ghost var a, k := FreeBlock(h, root, tree, rings, t);
      Standing(h, root, tree, rings, t, a, k);
      if h[t].parent == NIL && root != t {
        MemberDeleted(h, root, tree, rings, a, k);
        MemberKept(h, root, tree, rings, a, k);
        UnlinkBlock(t);
        rings := rings[a := Drop(rings[a], k)];
        return;
      }
      if h[t].fwd != t {
        DeleteHead(t);
        return;
      }
      DeleteAlone(t);
    }

    method UnlinkBlock(t: Addr)
      requires t in h && h[t].prev in h && h[t].fwd in h
      modifies this`h
      ensures h == Unlink(old(h), t)
    {
      var p, f := h[t].prev, h[t].fwd;
      h := h[p := h[p].(fwd := f)];
      h := h[f := h[f].(prev := p)];
    }

    /** Puts f, a ring member, in the place of the ring's head t in the tree. */
    method PromoteBlock(t: Addr, f: Addr)
      requires t in h && f in h && t != f
      requires h[t].parent != t && (h[t].parent != NIL ==> h[t].parent in h)
      requires (h[t].left != NIL ==> h[t].left in h) && (h[t].right != NIL ==> h[t].right in h)
      modifies this`h, this`root
      ensures h == Promote(old(h), t, f) && root == if old(h[t].parent) == NIL then f else old(root)
    {
      var s := h[t].parent;
      h := h[f := h[f].(parent := s)];
      if s == NIL {
        root := f;
      } else if h[s].left == t {
        h := h[s := h[s].(left := f)];
      } else {
        h := h[s := h[s].(right := f)];
      }
      var rp := h[t].left;
      h := h[f := h[f].(left := rp)];
      if rp != NIL { h := h[rp := h[rp].(parent := f)]; }
      rp := h[t].right;
      h := h[f := h[f].(right := rp)];
      if rp != NIL { h := h[rp := h[rp].(parent := f)]; }
    }

    method DeleteHead(t: Addr)
      requires Index() && t in rings && 1 < |rings[t]| && t in h
      modifies this`h, this`root, this`tree, this`rings
      ensures Index() && SameBlocks(old(h), h)
      ensures forall x :: InRings(rings, x) <==> InRings(old(rings), x) && x != t
      ensures forall x :: x in old(h) && !InRings(old(rings), x) ==> h[x] == old(h)[x]
    {
      hide RingsOk, IsTree, Ordered, Nodes, Plug, CtxNodes, InRings, Unlink, IsCtx, Promoted, SameBlocks;
      ghost var c, l, r := FindCtx(h, Top, root, NIL, NIL, root, tree, t);
      PlugTop(tree);
      HeadDeleted(h, root, rings, c, h[t].parent, l, t, r);
      var f := h[t].fwd;
      PromoteBlock(t, f);
      UnlinkBlock(t);
      tree := Plug(c, Node(l, f, r));
      rings := Promoted(rings, t, f);
    }

    method DeleteAlone(t: Addr)
      requires Index() && t in rings && |rings[t]| == 1 && t in h
      modifies this`h, this`root, this`tree, this`rings
      ensures Index() && SameBlocks(old(h), h)
      ensures forall x :: InRings(rings, x) <==> InRings(old(rings), x) && x != t
      ensures forall x :: x in old(h) && !InRings(old(rings), x) ==> h[x] == old(h)[x]
    {
      hide RingsOk, IsTree, Ordered, Nodes, Plug, CtxNodes, InRings, IsCtx, SameBlocks, LinksOf, Extract, TakeLeft;
      ghost var c, l, r := FindCtx(h, Top, root, NIL, NIL, root, tree, t);
      PlugTop(tree);
      ghost var h0, q0 := h, h[t].parent;
      ghost var s, p;
      AloneFacts(h, root, c, l, t, r);
      var rp;
      if h[t].left == NIL {
        rp := h[t].right;
        s, p := r, t;
        LinksNone(h, Nodes(l) + Nodes(r));
        LeafNodes(l, r);
      } else if h[t].right == NIL {
        rp := h[t].left;
        s, p := l, t;
        LinksNone(h, Nodes(l) + Nodes(r));
        LeafNodes(r, l);
      } else {
        rp, s := PullSuccessor(t, h[t].parent, l, r);
        p := h[rp].parent;
      }
      AloneSpliced(h0, h, root, rings, c, q0, l, t, r, rp, p, s);
      SpliceIn(h[t].parent, t, rp);
      tree := Plug(c, s);
      rings := rings - {t};
    }

    /** Puts subtree x in the place of t below q, in the tree or at its root. */
    method SpliceIn(q: Addr, t: Addr, x: Addr)
      requires (q != NIL ==> q in h) && (x != NIL ==> x in h)
      modifies this`h, this`root
      ensures h == Splice(old(h), q, t, x) && root == if q == NIL then x else old(root)
    {
      if q == NIL {
        root := x;
      } else if t == h[q].left {
        h := h[q := h[q].(left := x)];
      } else {
        h := h[q := h[q].(right := x)];
      }
      if x != NIL { h := h[x := h[x].(parent := q)]; }
    }

    /** Finds the leftmost block of the right subtree of t, and hands it both subtrees. */
    method PullSuccessor(t: Addr, ghost q: Addr, ghost l: Tree, ghost r: Tree) returns (rp: Addr, ghost s: Tree)
      requires t in h && IsTree(h, t, q, Node(l, t, r)) && Ordered(h, Node(l, t, r))
      requires l.Node? && r.Node?
      modifies this`h
      ensures t in h && rp in h && IsTree(h, rp, h[rp].parent, s) && Ordered(old(h), s)
      ensures Nodes(s) == Nodes(l) + Nodes(r) && LinksOf(old(h), h, Nodes(l) + Nodes(r)) && h[t] == old(h)[t]
    {
      hide Ordered, Nodes, CtxNodes, LinksOf;
      var f := t;
      rp := h[t].right;
      RightSide(h, t, q, l, r);
      ghost var k, m: Tree := Top, r;
      PlugTop(r);
      var left := h[rp].left;
      while left != NIL
        invariant h == old(h) && rp in h && left == h[rp].left && LeftSpine(k) && m.Node? && rp == m.a
        invariant IsCtx(h, k, h[t].right, t, f, rp) && IsTree(h, rp, f, m) && Plug(k, m) == r
        decreases m
      {
        ChildInHeap(h, left, rp, m.l);
        k, m := InLeft(k, rp, m.r), m.l;
        f := rp;
        rp := left;
        left := h[rp].left;
      }
      ChildInHeap(h, left, rp, m.l);
      assert m == Node(Leaf, rp, m.r);
      ghost var h0 := h;
      SuccessorMoved(h, q, l, t, k, f, rp, m.r);
      if f != t {
        left := h[rp].right;
        h := h[f := h[f].(left := left)];
        if left != NIL { h := h[left := h[left].(parent := f)]; }
        left := h[t].right;
        h := h[rp := h[rp].(right := left)];
        if left != NIL { h := h[left := h[left].(parent := rp)]; }
        assert h == Extract(h0, t, f, rp);
      }
      ghost var h1 := h;
      left := h[t].left;
      h := h[rp := h[rp].(left := left)];
      h := h[left := h[left].(parent := rp)];
      assert h == TakeLeft(h1, t, rp);
      s := Node(l, rp, Plug(k, m.r));
      StayBlock(h0, h, q, l, t, r);
    }

    /** The free block of this size that the tree has, or the place below tp where the tree has none. */
    method FindPlace(size: nat) returns (t: Addr, tp: Addr, ghost c: Ctx)
      requires Index() && root != NIL
      ensures t != NIL ==> t in rings && |rings[t]| > 0 && t in h && h[t].size == size
      ensures t == NIL ==> IsCtx(h, c, root, NIL, tp, NIL) && !c.Top? && Plug(c, Leaf) == tree && InHeap(h, CtxNodes(c)) && Fits(h, c, size)
    {
      hide RingsOk, Ordered, Nodes, CtxNodes, Plug, InRings, AllFit, OrderedCtx;
      t, tp := root, NIL;
      ghost var sub := tree;
      c := Top;
      PlugTop(tree);
      TopFits(h, size);
      while t != NIL
        invariant IsCtx(h, c, root, NIL, tp, t) && IsTree(h, t, tp, sub) && Plug(c, sub) == tree
        invariant InHeap(h, CtxNodes(c)) && Fits(h, c, size) && (c.Top? ==> t == root)
        decreases sub
      {
        NodeOfTree(h, c, t, tp, sub, root, rings);
        if size == h[t].size { return; }
        tp := t;
        Descend(h, c, sub, size);
        if size < h[t].size {
          c, sub := InLeft(c, t, sub.r), sub.l;
          t := h[t].left;
        } else {
          c, sub := InRight(c, sub.l, t), sub.r;
          t := h[t].right;
        }
      }
    }

    /** Puts block q among the free blocks, and changes none that was not free. */
    method PoolAdd(q: Addr)
      requires Index() && q in h && q != NIL && !InRings(rings, q)
      modifies this`h, this`root, this`tree, this`rings
      ensures Index() && h.Keys == old(h).Keys && Marked(old(h), h, q, MagicF)
      ensures forall x :: InRings(rings, x) <==> InRings(old(rings), x) || x == q
      ensures forall x :: x in old(h) && x != q && !InRings(old(rings), x) ==> h[x] == old(h)[x]
    {
      hide RingsOk, Ordered, Nodes, CtxNodes, Plug, InRings, AllFit, OrderedCtx, AddLeaf, AddMember, IsTree, IsCtx, Fits, InHeap;
      h := h[q := h[q].(magic := MagicF)];
      h := h[q := h[q].(left := NIL, right := NIL, parent := NIL, fwd := q, prev := q)];
      FreeFrame(old(h), h, root, tree, rings);
      ghost var h0 := h;
      var t := root;
      if t == NIL {
        FirstBlock(h, root, tree, rings, q);
        root, tree, rings := q, Node(Leaf, q, Leaf), map[q := [q]];
        return;
      }
      var tp;
      ghost var c;
      t, tp, c := FindPlace(h[q].size);
      if t != NIL {
        MemberAdded(h, root, tree, rings, t, q);
        LinkBehind(t, q);
        rings := rings[t := [t, q] + rings[t][1..]];
        return;
      }
      LeafAdded(h, root, rings, c, tp, q);
      LeafInRings(h, root, tree, rings, q);
      HangBelow(tp, q);
      LeafWritten(h0, h, tp, q);
      tree := Plug(c, Node(Leaf, q, Leaf));
      rings := rings[q := [q]];
    }

    /** Hangs q below tp, on the side its size asks for. */
    method HangBelow(tp: Addr, q: Addr)
      requires tp in h && q in h && tp != q
      modifies this`h
      ensures h == AddLeaf(old(h), tp, q)
    {
      h := h[q := h[q].(parent := tp)];
      if h[q].size < h[tp].size {
        h := h[tp := h[tp].(left := q)];
      } else {
        h := h[tp := h[tp].(right := q)];
      }
    }

    /** Links q into the ring of t, behind t. */
    method LinkBehind(t: Addr, q: Addr)
      requires t in h && q in h && h[t].fwd in h && q != t && q != h[t].fwd
      modifies this`h
      ensures h == AddMember(old(h), t, q)
    {
      h := h[q := h[q].(fwd := h[t].fwd)];
      h := h[h[q].fwd := h[h[q].fwd].(prev := q)];
      h := h[q := h[q].(prev := t)];
      h := h[t := h[t].(fwd := q)];
    }

    // ----- allocating and freeing

    /** What every call keeps: see the parts in PoolFree, PoolArena and PoolState. */
    ghost predicate Valid()
      reads this
    {
      && Index() && ArenasOk(h, tails, z) && Matches(h, z, rings)
      && cursize == Total(h, Live(h, z)) && chunk % UNIT == 0 && WithinLimit(z, refused, arenasize, maxsize)
    }

    /** The counter has grown by n bytes for an arena that is not there yet. */
    ghost predicate ValidBut(n: nat)
      reads this
    {
      && Index() && ArenasOk(h, tails, z) && Matches(h, z, rings)
      && cursize == Total(h, Live(h, z)) && chunk % UNIT == 0
      && n <= arenasize <= maxsize && WithinLimit(z, refused, arenasize - n, maxsize)
    }

    constructor (maxsize: nat, chunk: nat)
      requires chunk % UNIT == 0
      ensures Valid() && Live(h, z) == {} && this.maxsize == maxsize && this.chunk == chunk
      ensures arenasize == 0 && refused == 0 && nalloc == 0 && nfree == 0 && nbrk == 0 && cursize == 0
    {
      this.maxsize, this.chunk := maxsize, chunk;
      h, tails, root := map[], map[], NIL;
      cursize, arenasize, nalloc, nfree, nbrk := 0, 0, 0, 0, 0;
      tree, rings, z, refused := Leaf, map[], Arenas({}, map[], {}), 0;
    }

    /** The best fit for the given size: a block of the tree, or NIL. */
    method Search(size: nat) returns (q: Addr)
      requires Index()
      ensures q == NIL ==> forall x :: InRings(rings, x) ==> x in h && h[x].size < size
      ensures q != NIL ==> InRings(rings, q) && q in h && size <= h[q].size
      ensures q != NIL ==> forall x :: InRings(rings, x) && x in h && size <= h[x].size ==> h[q].size <= h[x].size
    {
      hide RingsOk, InRings, Ordered, Nodes;
      BestOfFree(h, tree, root, rings, size);
      var t := root;
      q := NIL;
      ghost var p, sub := NIL, tree;
      while t != NIL
        invariant IsTree(h, t, p, sub) && InHeap(h, Nodes(sub))
        invariant Best(h, tree, size) == var b := Best(h, sub, size); if b != NIL then b else q
        decreases sub
      {
        SubNodes(h, t, p, sub);
        if h[t].size == size {
          q := t;
          return;
        }
        p := t;
        if size < h[t].size {
          q := t;
          t := h[t].left;
          sub := sub.l;
        } else {
          t := h[t].right;
          sub := sub.r;
        }
      }
    }

    /** Hands out the whole of free block q. */
    method TakeWhole(q: Addr)
      requires Valid() && InRings(rings, q)
      modifies this`h, this`root, this`tree, this`rings, this`cursize
      ensures Valid() && q in old(h) && q in h && h[q].size == old(h)[q].size
      ensures Live(h, z) == old(Live(h, z)) + {q} && q !in old(Live(h, z)) && h[q].magic == MagicA
      ensures cursize == old(cursize) + h[q].size && Spared(old(h), old(tails), h, tails, old(Live(h, z)))
    {
      hide FreeOk, InRings, ArenasOk, Spared, WithinLimit;
      PoolDel(q);
      ghost var h1 := h;
      Mark(q, MagicA);
      FreeFrame(h1, h, root, tree, rings);
      TakenWhole(old(h), h, tails, z, old(rings), rings, q);
      TilesOf(old(h), tails, z);
      NoTail(old(h), tails, old(rings), q);
      SparedFree(old(h), h, tails, tails, z, old(rings), q);
      Without(Live(old(h), z), q);
      cursize := cursize + h[q].size;
    }

    /** Gives the block at t its size, and its end a pointer back. */
    method MakeBlock(t: Addr, size: nat)
      modifies this`h, this`tails
      ensures t in h && h[t].size == size && tails == old(tails)[t + size := t]
      ensures (forall x :: x in h <==> x in old(h) || x == t) && forall x :: x in old(h) && x != t ==> h[x] == old(h)[x]
      ensures t in old(h) ==> h[t].magic == old(h)[t].magic
    {
      var b := if t in h then h[t] else Bhdr(NoMagic, 0, NIL, NIL, NIL, NIL, NIL);
      h := h[t := b.(size := size)];
      tails := tails[t + size := t];
    }

    /** Marks the block at t. */
    method Mark(t: Addr, magic: Magic)
      modifies this`h
      ensures t in h && h[t].magic == magic && forall x :: x in h <==> x in old(h) || x == t
      ensures forall x :: x in old(h) && x != t ==> h[x] == old(h)[x]
      ensures t in old(h) ==> h[t].size == old(h)[t].size
    {
      var b := if t in h then h[t] else Bhdr(NoMagic, 0, NIL, NIL, NIL, NIL, NIL);
      h := h[t := b.(magic := magic)];
    }

    /** Makes a free block of the given size at q. */
    method FreeRest(q: Addr, size: nat)
      requires Index() && q != NIL && !InRings(rings, q)
      modifies this`h, this`tails, this`root, this`tree, this`rings
      ensures Index() && (forall x :: x in h <==> x in old(h) || x == q) && h[q].magic == MagicF && h[q].size == size
      ensures tails == old(tails)[q + size := q]
      ensures forall x :: InRings(rings, x) <==> InRings(old(rings), x) || x == q
      ensures forall x :: x in old(h) && x != q ==> h[x].magic == old(h)[x].magic && h[x].size == old(h)[x].size
      ensures forall x :: x in old(h) && x != q && !InRings(old(rings), x) ==> h[x] == old(h)[x]
    {
      hide FreeOk, InRings;
      MakeBlock(q, size);
      FreeFrame(old(h), h, root, tree, rings);
      PoolAdd(q);
    }

    /** Makes a leader at a, and behind it an allocated block. */
    method MakeFront(a: Addr, size: nat) returns (t: Addr)
      modifies this`h, this`tails
      ensures t == a + UNIT && (forall x :: x in h <==> x in old(h) || x == a || x == t) && tails == old(tails)[t := a][t + size := t]
      ensures h[a].magic == MagicE && h[a].size == UNIT && h[t].magic == MagicA && h[t].size == size
      ensures forall x :: x in old(h) && x != a && x != t ==> h[x] == old(h)[x]
    {
      Mark(a, MagicE);
      MakeBlock(a, UNIT);
      t := a + UNIT;
      Mark(t, MagicA);
      MakeBlock(t, size);
    }

    /** Takes q out of the free blocks and cuts it down to the given size; ns is what was cut off. */
    method CutDown(q: Addr, size: nat) returns (ns: nat)
      requires Index() && InRings(rings, q) && q in h && size <= h[q].size
      modifies this`h, this`tails, this`root, this`tree, this`rings
      ensures Index() && q in h && h[q].magic == MagicA && h[q].size == size && ns == old(h)[q].size - size
      ensures tails == old(tails)[q + size := q] && h.Keys == old(h).Keys
      ensures forall x :: InRings(rings, x) <==> InRings(old(rings), x) && x != q
      ensures forall x :: x in old(h) && x != q ==> h[x].magic == old(h)[x].magic && h[x].size == old(h)[x].size
      ensures forall x :: x in old(h) && !InRings(old(rings), x) ==> h[x] == old(h)[x]
    {
      hide FreeOk, InRings;
      PoolDel(q);
      ghost var h1 := h;
      Mark(q, MagicA);
      ns := h[q].size - size;
      MakeBlock(q, size);
      FreeFrame(h1, h, root, tree, rings);
    }

    /** Hands out the front of free block q and puts the rest back. */
    method TakePart(q: Addr, size: nat)
      requires Valid() && InRings(rings, q) && q in h && UNIT <= size < h[q].size && size % UNIT == 0
      modifies this`h, this`tails, this`root, this`tree, this`rings, this`z, this`cursize
      ensures Valid() && q in h && h[q].size == size
      ensures Live(h, z) == old(Live(h, z)) + {q} && q !in old(Live(h, z)) && h[q].magic == MagicA
      ensures cursize == old(cursize) + size && Spared(old(h), old(tails), h, tails, old(Live(h, z)))
    {
      hide FreeOk, InRings, ArenasOk, Spared, Matches, Live, Total, SplitArenas, Tiled, WithinLimit;
      TilesOf(h, tails, z);
      CutNotFree(h, tails, z, rings, q, size);
      ghost var h0, tails0 := h, tails;
      var ns := CutDown(q, size);
      var t := q + size;
      FreeRest(t, ns);
      TakenSplit(h0, h, tails0, z, old(rings), rings, q, size);
      CutTails(h0, tails0, old(rings), q, size);
      SparedFree(h0, h, tails0, tails, z, old(rings), q);
      Without(Live(h0, z), q);
      SplitWithin(h0, h, tails0, z, q, size, refused, arenasize, maxsize);
      z := SplitArenas(z, q, t);
      cursize := cursize + h[q].size;
    }

    /** Writes an arena at a: a leader, a block in use, a free block if anything is left, an end marker. */
    method BuildArena(a: Addr, size: nat, ns: nat) returns (t: Addr)
      requires Index() && a != NIL && UNIT <= size <= ns && size % UNIT == 0 && ns % UNIT == 0
      requires forall x: Addr {:trigger InRings(rings, x)} :: a <= x < a + UNIT + ns + MARKER ==> !InRings(rings, x)
      modifies this`h, this`tails, this`root, this`tree, this`rings
      ensures Index() && Grown(old(h), h, a, size, ns) && tails == GrownTails(old(tails), a, size, ns)
      ensures t == a + UNIT && h[t].magic == MagicA && (size < ns ==> h[t + size].magic == MagicF)
      ensures forall x :: InRings(rings, x) <==> InRings(old(rings), x) || (size < ns && x == t + size)
      ensures forall x :: x in h && !InRings(old(rings), x) && !(a <= x < a + UNIT + ns + MARKER) ==> x in old(h) && h[x] == old(h)[x]
    {
      hide FreeOk, InRings;
      t := MakeFront(a, size);
      var q, rest := t, ns - size;
      FreeFrame(old(h), h, root, tree, rings);
      if rest > 0 {
        q := t + size;
        FreeRest(q, rest);
      }
      ghost var h2 := h;
      Mark(q + h[q].size, MagicE);
      FreeFrame(h2, h, root, tree, rings);
    }

    /** Adds an arena of ns bytes at a, and hands out its first block. */
    method NewArena(a: Addr, size: nat, ns: nat) returns (t: Addr)
      requires ValidBut(UNIT + ns + MARKER) && Unused(h, z, a, UNIT + ns + MARKER)
      requires UNIT <= size <= ns && size % UNIT == 0 && ns % UNIT == 0
      modifies this`h, this`tails, this`root, this`tree, this`rings, this`z, this`cursize
      ensures Valid() && t in h && h[t].size == size && t != NIL
      ensures Live(h, z) == old(Live(h, z)) + {t} && t !in old(Live(h, z)) && h[t].magic == MagicA
      ensures cursize == old(cursize) + size && Spared(old(h), old(tails), h, tails, old(Live(h, z)))
    {
      hide FreeOk, InRings, ArenasOk, Spared, Unused, GrownArenas, GrownTails, Matches, Live, Total, Tiled, WithinLimit;
      TilesOf(h, tails, z);
      NewNotFree(h, tails, z, rings, a, UNIT + ns + MARKER);
      ghost var h0, tails0 := h, tails;
      t := BuildArena(a, size, ns);
      TakenNew(h0, h, tails0, z, old(rings), rings, a, size, ns);
      GrownTailsIn(tails0, a, size, ns);
      SparedNew(h0, h, tails0, tails, z, old(rings), a, UNIT + ns + MARKER);
      GrownWithin(h0, tails0, z, a, size, ns, refused, arenasize - (UNIT + ns + MARKER), maxsize);
      z := GrownArenas(z, a, size, ns);
      cursize := cursize + h[t].size;
    }

    /**
     Allocates a block for size bytes, by best fit. The region at brk is what the system would
     hand out if asked for more, NIL if it would not.
     */
    method PoolAlloc(size: nat, brk: Addr) returns (b: Addr)
      requires Valid() && (brk != NIL ==> Unused(h, z, brk, Demand(Rounded(size), chunk)))
      modifies this
      ensures Valid() && nalloc == old(nalloc) + 1 && nfree == old(nfree) && maxsize == old(maxsize)
      ensures Spared(old(h), old(tails), h, tails, old(Live(h, z)))
      // the counter grows by what the system is asked for, and by nothing else
      ensures arenasize == old(arenasize) + if old(Asks(Rounded(size))) then Demand(Rounded(size), chunk) else 0
      ensures nbrk == old(nbrk) + if old(Asks(Rounded(size))) then 1 else 0
      ensures refused == old(refused) + if old(Asks(Rounded(size))) && brk == NIL then Demand(Rounded(size), chunk) else 0
      // so that the arenas, with what was refused, never take more than the limit
      ensures (forall l :: l in z.leaders ==> l in z.limit) && Extents(z.limit, z.leaders) + refused == arenasize <= maxsize
      // the block is new, large enough, and not much too large
      ensures b != NIL ==> b in h && b !in old(Live(h, z)) && Live(h, z) == old(Live(h, z)) + {b} && h[b].magic == MagicA
      ensures b != NIL ==> size + BHDRSIZE <= Rounded(size) <= h[b].size && h[b].size - Rounded(size) < Rounded(size) / 4
      ensures b != NIL ==> cursize == old(cursize) + h[b].size
      // it is a best fit when anything fits
      ensures (exists x :: InRings(old(rings), x) && x in old(h) && Rounded(size) <= old(h)[x].size) ==>
                && b != NIL && InRings(old(rings), b) && b in old(h) && Rounded(size) <= old(h)[b].size && arenasize == old(arenasize)
                && forall x :: InRings(old(rings), x) && x in old(h) && Rounded(size) <= old(h)[x].size ==> old(h)[b].size <= old(h)[x].size
      // it fails when nothing fits and there is no room to grow
      ensures b == NIL <==>
                && (forall x :: InRings(old(rings), x) ==> x in old(h) && old(h)[x].size < Rounded(size))
                && (old(maxsize) < old(arenasize) + Demand(Rounded(size), chunk) || brk == NIL)
      ensures b == NIL ==> h == old(h) && Live(h, z) == old(Live(h, z)) && cursize == old(cursize)
    {
      hide FreeOk, InRings, Tiled, AllMerged, Matches, Unused, Spared, Live, WithinLimit;
      var need := Rounded(size);
      nalloc := nalloc + 1;
      var q := Search(need);
      if q != NIL {
        TakeFit(q, need);
        HeldWithin();
        return q;
      }
      b := Extend(need, brk);
      HeldWithin();
    }

    /** What the invariant says of the limit. */
    lemma HeldWithin()
      requires Valid()
      ensures (forall l :: l in z.leaders ==> l in z.limit) && Extents(z.limit, z.leaders) + refused == arenasize <= maxsize
    {
    }

    /** A request for n bytes goes to the system: nothing fits, and the limit allows it. */
    ghost predicate Asks(n: nat)
      reads this
    {
      && (forall x :: InRings(rings, x) ==> x in h && h[x].size < n)
      && arenasize + Demand(n, chunk) <= maxsize
    }

    /** Hands out free block q, cut down if it is a quarter larger than asked for. */
    method TakeFit(q: Addr, need: nat)
      requires Valid() && InRings(rings, q) && q in h && UNIT <= need <= h[q].size && need % UNIT == 0
      modifies this`h, this`tails, this`root, this`tree, this`rings, this`z, this`cursize
      ensures Valid() && q in h && need <= h[q].size && h[q].size - need < need / 4 && h[q].magic == MagicA
      ensures Live(h, z) == old(Live(h, z)) + {q} && q !in old(Live(h, z))
      ensures cursize == old(cursize) + h[q].size && Spared(old(h), old(tails), h, tails, old(Live(h, z)))
    {
      hide FreeOk, InRings, Tiled, AllMerged, Matches, Spared, Live, WithinLimit;
      if h[q].size == need {
        TakeWhole(q);
        return;
      }
      FreeSizes(h, tails, z, rings, q);
      if h[q].size - need < need / 4 {
        TakeWhole(q);
        return;
      }
      TakePart(q, need);
    }

    /** Gets an arena from the system, within the pool's limit. */
    method Extend(need: nat, brk: Addr) returns (b: Addr)
      requires Valid() && UNIT <= need && need % UNIT == 0 && (brk != NIL ==> Unused(h, z, brk, Demand(need, chunk)))
      modifies this`h, this`tails, this`root, this`tree, this`rings, this`z, this`cursize, this`arenasize, this`nbrk, this`refused
      ensures arenasize == old(arenasize) + if old(arenasize) + Demand(need, chunk) <= maxsize then Demand(need, chunk) else 0
      ensures nbrk == old(nbrk) + if old(arenasize) + Demand(need, chunk) <= maxsize then 1 else 0
      ensures refused == old(refused) + if old(arenasize) + Demand(need, chunk) <= maxsize && brk == NIL then Demand(need, chunk) else 0
      ensures Valid() && Spared(old(h), old(tails), h, tails, old(Live(h, z)))
      ensures b == NIL <==> maxsize < old(arenasize) + Demand(need, chunk) || brk == NIL
      ensures b == NIL ==> h == old(h) && Live(h, z) == old(Live(h, z)) && cursize == old(cursize)
      ensures b != NIL ==> b in h && b !in old(Live(h, z)) && Live(h, z) == old(Live(h, z)) + {b} && h[b].magic == MagicA
      ensures b != NIL ==> h[b].size == need && cursize == old(cursize) + need
    {
      hide FreeOk, InRings, Tiled, AllMerged, Matches, Unused, Spared, Live, Extents;
      var ns := chunk;
      if need > ns { ns := need; }
      var alloc := ns + UNIT + MARKER;
      arenasize := arenasize + alloc;
      if arenasize > maxsize {
        arenasize := arenasize - alloc;
        SparedNone(h, tails, Live(h, z));
        return NIL;
      }
      nbrk := nbrk + 1;
      if brk == NIL {
        refused := refused + alloc;
        SparedNone(h, tails, Live(h, z));
        return NIL;
      }
      b := NewArena(brk, need, ns);
    }

    /** Block b in use takes over the free block c behind it. */
    method JoinForward(b: Addr, c: Addr)
      requires Index() && ArenasOk(h, tails, z) && Matches(h, z, rings)
      requires b in z.blocks && b in h && InUse(h[b].magic) && c == b + h[b].size && c in h && h[c].magic == MagicF && c in z.blocks
      modifies this`h, this`tails, this`root, this`tree, this`rings, this`z
      ensures Index() && ArenasOk(h, tails, z) && Matches(h, z, rings)
      ensures b in z.blocks && b in h && InUse(h[b].magic) && b + h[b].size in h && NotFree(h, b + h[b].size)
      ensures Live(h, z) == old(Live(h, z)) && h.Keys == old(h).Keys
      ensures forall x :: InRings(rings, x) ==> InRings(old(rings), x)
      ensures forall x :: x in h && !InRings(old(rings), x) && x != b ==> h[x] == old(h)[x]
      ensures z.limit == old(z).limit && z.leaders == old(z).leaders
      ensures InRings(old(rings), c) && tails == old(tails)[c + old(h)[c].size := b] && h[b].size == old(h)[b].size + old(h)[c].size
    {
      hide FreeOk, InRings, ArenasOk, Matches, MatchesBut, Live, Total, RingsOk;
      ghost var h0 := h;
      UsedAndFree(h, z, rings, b, c);
      PoolDel(c);
      ghost var h1 := h;
      h := h[c := h[c].(magic := NoMagic)];
      h := h[b := h[b].(size := h[b].size + h[c].size)];
      tails := tails[b + h[b].size := b];
      FreeFrame(h1, h, root, tree, rings);
      JoinedNext(h0, h, old(tails), z, old(rings), rings, b, c);
      z := JoinArenas(z, c);
    }

    /** The free block c in front of block b, which is on its way out, takes b over. */
    method JoinBackward(c: Addr, b: Addr)
      requires Index() && ArenasOk(h, tails, z) && Matches(h, z, rings)
      requires b in z.blocks && b in h && InUse(h[b].magic) && b + h[b].size in h && NotFree(h, b + h[b].size)
      requires c in z.blocks && c in h && h[c].magic == MagicF && c + h[c].size == b
      modifies this`h, this`tails, this`root, this`tree, this`rings, this`z
      ensures Index() && ArenasOk(h, tails, z) && MatchesBut(h, z, rings, c) && !InRings(rings, c)
      ensures c in z.blocks && c !in z.leaders && c in h && NotFree(h, c + h[c].size) && c in tails && NotFree(h, tails[c])
      ensures Live(h, z) == old(Live(h, z)) - {b} && h.Keys == old(h).Keys && InRings(old(rings), c)
      ensures forall x :: InRings(rings, x) ==> InRings(old(rings), x)
      ensures forall x :: x in h && !InRings(old(rings), x) && x != b ==> h[x] == old(h)[x]
      ensures z.limit == old(z).limit && z.leaders == old(z).leaders
      ensures tails == old(tails)[b + old(h)[b].size := c]
    {
      hide FreeOk, InRings, ArenasOk, Matches, MatchesBut, Live, Total, RingsOk;
      ghost var h0 := h;
      UsedAndFree(h, z, rings, b, c);
      PoolDel(c);
      Absorb(c, b);
      JoinedPrev(h0, h, old(tails), z, old(rings), rings, c, b);
      z := JoinArenas(z, b);
    }

    /** Block c takes over the bytes of block b; neither is among the free ones. */
    method Absorb(c: Addr, b: Addr)
      requires Index() && b in h && c in h && b != c && !InRings(rings, b) && !InRings(rings, c)
      modifies this`h, this`tails
      ensures Index() && h == old(h)[b := old(h)[b].(magic := NoMagic)][c := old(h)[c].(size := old(h)[c].size + old(h)[b].size)]
      ensures tails == old(tails)[c + h[c].size := c]
    {
      hide FreeOk, InRings;
      h := h[b := h[b].(magic := NoMagic)];
      h := h[c := h[c].(size := h[c].size + h[b].size)];
      tails := tails[c + h[c].size := c];
      FreeFrame(old(h), h, root, tree, rings);
    }

    /** Joins block v, which is to be freed, with its free neighbours; b is the outcome. */
    method Coalesce(v: Addr) returns (b: Addr)
      requires Index() && ArenasOk(h, tails, z) && Matches(h, z, rings) && v in Live(h, z)
      modifies this`h, this`tails, this`root, this`tree, this`rings, this`z
      ensures Index() && ArenasOk(h, tails, z) && MatchesBut(h, z, rings, b) && !InRings(rings, b)
      ensures b in z.blocks && b !in z.leaders && b in h && NotFree(h, b + h[b].size) && b in tails && NotFree(h, tails[b])
      ensures Live(h, z) - {b} == old(Live(h, z)) - {v} && h.Keys == old(h).Keys && (b == v || InRings(old(rings), b))
      ensures forall x :: InRings(rings, x) ==> InRings(old(rings), x)
      ensures forall x :: x in h && !InRings(old(rings), x) && x != v ==> h[x] == old(h)[x]
      ensures z.limit == old(z).limit && z.leaders == old(z).leaders
      ensures TailsInFree(old(h), old(tails), tails, old(rings), v)
    {
      hide FreeOk, InRings, ArenasOk, MatchesBut, Matches, Total, Tiled, RingsOk, TailsInFree;
      ghost var h0, tails0, rings0 := h, tails, rings;
      TilesOf(h, tails, z);
      b := v;
      Neighbours(h, tails, z, b);
      NoTail(h, tails, rings, v);
      LiveSizes(h, tails, z);
      ghost var n := v;
      var c := b + h[b].size;
      if h[c].magic == MagicF {
        FreeSized(h, tails, z, c);
        JoinForward(b, c);
        n := c;
        OneTail(h0, tails0, tails0, rings0, v, c, c + h0[c].size, b);
        TilesOf(h, tails, z);
        Neighbours(h, tails, z, b);
      }
      c := tails[b];
      if h[c].magic == MagicF {
        OneTail(h0, tails0, tails, rings0, v, n, b + h[b].size, c);
        JoinBackward(c, b);
        b := c;
      } else {
        AllButUsed(h, z, rings, b);
      }
    }

    /** Frees block v, joining it with free neighbours on both sides. */
    method PoolFree(v: Addr)
      requires Valid() && v in Live(h, z)
      modifies this
      ensures Valid() && Live(h, z) == old(Live(h, z)) - {v} && v in old(h) && cursize == old(cursize) - old(h)[v].size
      ensures Spared(old(h), old(tails), h, tails, old(Live(h, z)) - {v})
      ensures nfree == old(nfree) + 1 && nalloc == old(nalloc) && arenasize == old(arenasize) && maxsize == old(maxsize)
      ensures nbrk == old(nbrk) && refused == old(refused)
    {
      hide FreeOk, InRings, ArenasOk, Spared, MatchesBut, Matches, Total, Tiled, RingsOk, AllMerged, Extents;
      TilesOf(h, tails, z);
      FreedAccount(h, tails, z, rings, v);
      nfree := nfree + 1;
      cursize := cursize - h[v].size;
      var b := Coalesce(v);
      NonNil(h, tails, z, b);
      ghost var h1, rings1 := h, rings;
      PoolAdd(b);
      Returned(h1, h, tails, z, rings1, rings, b);
      SparedFree(old(h), h, old(tails), tails, old(z), old(rings), v);
      KeptAccount(old(h), old(tails), h, tails, old(Live(h, z)), v);
      assert Live(h, z) == old(Live(h, z)) - {v};
    }

    /** Keeps the block if it is large enough already; if not, moves to another one. */
    method Realloc(v: Addr, size: nat, brk: Addr) returns (nv: Addr)
      requires Valid() && (v != NIL ==> v in Live(h, z)) && (brk != NIL ==> Unused(h, z, brk, Demand(Rounded(size), chunk)))
      modifies this
      ensures Valid() && Spared(old(h), old(tails), h, tails, old(Live(h, z)) - {v})
      ensures nv != NIL ==> nv in h && Live(h, z) == old(Live(h, z)) - {v} + {nv} && size + BHDRSIZE <= h[nv].size
      ensures nv == NIL ==> h == old(h) && Live(h, z) == old(Live(h, z)) && (v != NIL ==> v in h && h[v].size < size + BHDRSIZE)
      // a block that is large enough stays, and nothing changes
      ensures v != NIL ==> v in old(h)
      ensures v != NIL && size + BHDRSIZE <= old(h)[v].size ==> nv == v && h == old(h) && tails == old(tails) && arenasize == old(arenasize) && nbrk == old(nbrk)
      ensures maxsize == old(maxsize) && (v == NIL || old(h)[v].size < size + BHDRSIZE ==>
                arenasize == old(arenasize) + if old(Asks(Rounded(size))) then Demand(Rounded(size), chunk) else 0)
    {
      hide FreeOk, InRings, ArenasOk, Matches, Unused, Spared, Live, Total, WithinLimit;
      LiveSizes(h, tails, z);
      if v == NIL {
        nv := PoolAlloc(size, brk);
        SparedLess(old(h), old(tails), h, tails, old(Live(h, z)), v);
        return;
      }
      if size + BHDRSIZE <= h[v].size {
        SparedNone(h, tails, Live(h, z) - {v});
        return v;
      }
      nv := PoolAlloc(size, brk);
      SparedLess(old(h), old(tails), h, tails, old(Live(h, z)), v);
      if nv != NIL {
        ghost var h1, tails1, live1 := h, tails, Live(h, z);
        LiveSizes(h, tails, z);
        PoolFree(v);
        SparedKeeps(h1, tails1, h, tails, live1 - {v}, nv);
        SparedTwice(old(h), old(tails), h1, tails1, h, tails, old(Live(h, z)) - {v}, live1 - {v});
      }
    }
  }

  /** What tells the three cases of a free block apart. */
  lemma Standing(h: Heap, root: Addr, tree: Tree, rings: map<Addr, seq<Addr>>, t: Addr, a: Addr, k: nat)
    requires FreeOk(h, root, tree, rings) && a in rings && k < |rings[a]| && rings[a][k] == t
    ensures t in h && (h[t].parent == NIL && root != t <==> k != 0)
    ensures k == 0 ==> t == a && (h[t].fwd == t <==> |rings[t]| == 1)
  {
    assert RingOk(h, a, rings[a]) && RingLink(h, rings[a], k);
    if k == 0 {
      RootOnly(h, root, NIL, tree, t);
    } else {
      HeadsApart(h, rings, a, t);
      ChildInHeap(h, root, NIL, tree);
    }
  }

  /** Unlinking a ring member leaves the blocks that are not free alone. */
  lemma MemberKept(h: Heap, root: Addr, tree: Tree, rings: map<Addr, seq<Addr>>, a: Addr, k: nat)
    requires FreeOk(h, root, tree, rings) && a in rings && 0 < k < |rings[a]|
    ensures var t := rings[a][k];
            && t in h && h[t].prev in h && h[t].fwd in h && SameBlocks(h, Unlink(h, t))
            && forall x :: x in h && !InRings(rings, x) ==> Unlink(h, t)[x] == h[x]
  {
    hide FreeOk, IsTree, Unlink;
    FreeTree(h, root, tree, rings);
    RingNeighbours(h, rings[a], k);
    UnlinkEffect(h, rings[a][k]);
    var t := rings[a][k];
    assert InRings(rings, h[t].prev) && InRings(rings, h[t].fwd);
  }

  lemma AloneFacts(h: Heap, root: Addr, c: Ctx, l: Tree, t: Addr, r: Tree)
    requires t in h && IsCtx(h, c, root, NIL, h[t].parent, t) && IsTree(h, t, h[t].parent, Node(l, t, r))
    requires Ordered(h, Plug(c, Node(l, t, r)))
    ensures Ordered(h, Node(l, t, r)) && Ordered(h, l) && Ordered(h, r)
    ensures IsTree(h, h[t].left, t, l) && IsTree(h, h[t].right, t, r)
    ensures (h[t].left == NIL <==> l.Leaf?) && (h[t].right == NIL <==> r.Leaf?)
  {
    PlugOrdered(h, c, Node(l, t, r));
    ChildInHeap(h, h[t].left, t, l);
    ChildInHeap(h, h[t].right, t, r);
  }

  lemma LeafNodes(l: Tree, r: Tree)
    requires l.Leaf?
    ensures Nodes(r) == Nodes(l) + Nodes(r) && Nodes(r) == Nodes(r) + Nodes(l)
  {
  }

  lemma RightSide(h: Heap, t: Addr, q: Addr, l: Tree, r: Tree)
    requires t in h && IsTree(h, t, q, Node(l, t, r)) && r.Node?
    ensures IsTree(h, h[t].right, t, r) && h[t].right in h && h[t].right == r.a
  {
  }

  lemma StayBlock(h: Heap, h': Heap, q: Addr, l: Tree, t: Addr, r: Tree)
    requires t in h && Ordered(h, Node(l, t, r)) && LinksOf(h, h', Nodes(l) + Nodes(r))
    ensures t in h' && h'[t] == h[t]
  {
    ChildrenApart(h, Node(l, t, r));
  }

  // ----- adding

  lemma FirstBlock(h: Heap, root: Addr, tree: Tree, rings: map<Addr, seq<Addr>>, q: Addr)
    requires FreeOk(h, root, tree, rings) && root == NIL && Lone(h, q)
    ensures FreeOk(h, q, Node(Leaf, q, Leaf), map[q := [q]])
    ensures forall x :: InRings(map[q := [q]], x) <==> InRings(rings, x) || x == q
  {
    assert tree == Leaf;
    assert rings.Keys == {};
    assert rings == map[];
    var rings' := map[q := [q]];
    assert RingLink(h, [q], 0);
    assert q in rings'[q];
    assert forall x :: !InRings(rings, x);
  }

  lemma TopFits(h: Heap, size: nat)
    ensures InHeap(h, CtxNodes(Top)) && Fits(h, Top, size)
  {
  }

  lemma NodeOfTree(h: Heap, c: Ctx, t: Addr, tp: Addr, sub: Tree, root: Addr, rings: map<Addr, seq<Addr>>)
    requires IsTree(h, t, tp, sub) && t != NIL && FreeOk(h, root, Plug(c, sub), rings)
    ensures sub.Node? && sub.a == t && t in h && t in rings && rings[t] != []
  {
    PlugNodes(c, sub);
  }

  lemma Descend(h: Heap, c: Ctx, t: Tree, size: nat)
    requires t.Node? && t.a in h && InHeap(h, CtxNodes(c)) && Fits(h, c, size) && Ordered(h, Plug(c, t))
    ensures size < h[t.a].size ==> InHeap(h, CtxNodes(InLeft(c, t.a, t.r))) && Fits(h, InLeft(c, t.a, t.r), size)
    ensures h[t.a].size < size ==> InHeap(h, CtxNodes(InRight(c, t.l, t.a))) && Fits(h, InRight(c, t.l, t.a), size)
    ensures Plug(InLeft(c, t.a, t.r), t.l) == Plug(c, t) && Plug(InRight(c, t.l, t.a), t.r) == Plug(c, t)
  {
    hide OrderedCtx;
    PlugOrdered(h, c, t);
  }

  lemma LeafInRings(h: Heap, root: Addr, tree: Tree, rings: map<Addr, seq<Addr>>, q: Addr)
    requires FreeOk(h, root, tree, rings) && !InRings(rings, q)
    ensures forall x :: InRings(rings[q := [q]], x) <==> InRings(rings, x) || x == q
  {
    var rings' := rings[q := [q]];
    assert q in rings ==> RingOk(h, q, rings[q]);
    assert q !in rings;
    forall x
      ensures InRings(rings', x) <==> InRings(rings, x) || x == q
    {
      if InRings(rings, x) {
        var a :| a in rings && x in rings[a];
        assert x in rings'[a];
      }
      assert q in rings'[q];
    }
  }

  lemma LeafWritten(h: Heap, h': Heap, tp: Addr, q: Addr)
    requires tp in h && q in h && tp != q && h' == AddLeaf(h, tp, q)
    ensures h'[q].size == h[q].size && h'[q].magic == h[q].magic
  {
  }

  // ----- allocating and freeing

  const BHDRSIZE := 16

  /** The request with header and tail, in whole units. */
  function Rounded(size: nat): (n: nat)
    ensures n % UNIT == 0 && size + BHDRSIZE <= n < size + BHDRSIZE + UNIT
  {
    (size + BHDRSIZE + UNIT - 1) / UNIT * UNIT
  }

  /** What an arena for a request of n bytes takes. */
  function Demand(n: nat, chunk: nat): nat {
    (if n > chunk then n else chunk) + UNIT + MARKER
  }

  lemma SubNodes(h: Heap, t: Addr, p: Addr, sub: Tree)
    requires IsTree(h, t, p, sub) && t != NIL && InHeap(h, Nodes(sub))
    ensures sub.Node? && sub.a == t && t in h && InHeap(h, Nodes(sub.l)) && InHeap(h, Nodes(sub.r))
  {
  }

  lemma TilesOf(h: Heap, tails: map<Addr, Addr>, z: Arenas)
    requires ArenasOk(h, tails, z)
    ensures Tiled(h, tails, z)
  {
  }

  lemma Without(s: set<Addr>, q: Addr)
    requires q !in s
    ensures s - {q} == s
  {
  }

  lemma CutNotFree(h: Heap, tails: map<Addr, Addr>, z: Arenas, rings: map<Addr, seq<Addr>>, q: Addr, size: nat)
    requires Tiled(h, tails, z) && Matches(h, z, rings) && InRings(rings, q) && q in h && 0 < size < h[q].size
    ensures !InRings(rings, q + size) && q in z.blocks
  {
    hide InRings, Tiled;
    if q + size in z.blocks { OffTheCut(h, tails, z, q, size, q + size); }
  }

  lemma NewNotFree(h: Heap, tails: map<Addr, Addr>, z: Arenas, rings: map<Addr, seq<Addr>>, a: Addr, n: nat)
    requires Tiled(h, tails, z) && Matches(h, z, rings) && Unused(h, z, a, n)
    ensures forall x: Addr {:trigger InRings(rings, x)} :: a <= x < a + n ==> !InRings(rings, x)
    ensures a != NIL
  {
    hide InRings, Tiled;
    forall x: Addr | a <= x < a + n
      ensures !InRings(rings, x)
    {
      NewApart(h, tails, z, a, n, x);
    }
  }

  lemma FreeSizes(h: Heap, tails: map<Addr, Addr>, z: Arenas, rings: map<Addr, seq<Addr>>, q: Addr)
    requires ArenasOk(h, tails, z) && Matches(h, z, rings) && InRings(rings, q)
    ensures q in h && h[q].size % UNIT == 0 && UNIT <= h[q].size
  {
    assert BlockOk(h, tails, z, q);
  }

  lemma SparedNone(h: Heap, tails: map<Addr, Addr>, s: set<Addr>)
    ensures Spared(h, tails, h, tails, s)
  {
  }

  lemma SparedLess(h: Heap, tails: map<Addr, Addr>, h': Heap, tails': map<Addr, Addr>, s: set<Addr>, v: Addr)
    requires Spared(h, tails, h', tails', s)
    ensures Spared(h, tails, h', tails', s - {v})
  {
  }

  lemma AllButUsed(h: Heap, z: Arenas, rings: map<Addr, seq<Addr>>, b: Addr)
    requires Matches(h, z, rings) && b in h && InUse(h[b].magic)
    ensures MatchesBut(h, z, rings, b) && !InRings(rings, b)
  {
    hide InRings;
  }

  lemma UsedAndFree(h: Heap, z: Arenas, rings: map<Addr, seq<Addr>>, b: Addr, c: Addr)
    requires Matches(h, z, rings) && b in h && InUse(h[b].magic) && c in z.blocks && c in h && h[c].magic == MagicF
    ensures !InRings(rings, b) && InRings(rings, c) && b != c
  {
    hide InRings;
  }

  lemma NonNil(h: Heap, tails: map<Addr, Addr>, z: Arenas, b: Addr)
    requires ArenasOk(h, tails, z) && b in z.blocks
    ensures b != NIL && b in h
  {
    assert BlockOk(h, tails, z, b);
  }

  lemma FreedAccount(h: Heap, tails: map<Addr, Addr>, z: Arenas, rings: map<Addr, seq<Addr>>, v: Addr)
    requires Tiled(h, tails, z) && Matches(h, z, rings) && v in Live(h, z)
    ensures v in h && 0 < h[v].size && !InRings(rings, v) && v in z.blocks && InUse(h[v].magic)
    ensures Total(h, Live(h, z)) == h[v].size + Total(h, Live(h, z) - {v})
    ensures forall b :: b in Live(h, z) ==> 0 < h[b].size
  {
    hide InRings;
    TotalWithout(h, Live(h, z), v);
    forall b | b in Live(h, z)
      ensures 0 < h[b].size
    {
      assert BlockOk(h, tails, z, b);
    }
  }

  lemma KeptAccount(h: Heap, tails: map<Addr, Addr>, h': Heap, tails': map<Addr, Addr>, s: set<Addr>, v: Addr)
    requires (forall b :: b in s ==> b in h && 0 < h[b].size) && h'.Keys == h.Keys && Spared(h, tails, h', tails', s - {v})
    ensures (forall b :: b in s - {v} ==> b in h') && Total(h', s - {v}) == Total(h, s - {v})
  {
    forall b | b in s - {v}
      ensures b in h' && h'[b].size == h[b].size
    {
      assert b <= b < b + h[b].size;
    }
    TotalFrame(h, h', s - {v});
  }

  lemma LiveSizes(h: Heap, tails: map<Addr, Addr>, z: Arenas)
    requires ArenasOk(h, tails, z)
    ensures forall b :: b in Live(h, z) ==> b != NIL && b in h && 0 < h[b].size
  {
    forall b | b in Live(h, z)
      ensures b != NIL && 0 < h[b].size
    {
      assert BlockOk(h, tails, z, b);
    }
  }

  lemma SparedKeeps(h: Heap, tails: map<Addr, Addr>, h': Heap, tails': map<Addr, Addr>, s: set<Addr>, b: Addr)
    requires Spared(h, tails, h', tails', s) && b in s && b in h && 0 < h[b].size && b in h'
    ensures h'[b] == h[b]
  {
    assert b <= b < b + h[b].size;
  }

  lemma SparedTwice(h0: Heap, t0: map<Addr, Addr>, h1: Heap, t1: map<Addr, Addr>, h2: Heap, t2: map<Addr, Addr>, s: set<Addr>, s': set<Addr>)
    requires Spared(h0, t0, h1, t1, s) && Spared(h1, t1, h2, t2, s') && s <= s'
    requires forall b :: b in s ==> b in h0 && b in h1 && 0 < h0[b].size
    ensures Spared(h0, t0, h2, t2, s)
  {
    forall x, b | x in h2 && b in s && b <= x < b + h0[b].size
      ensures x in h0 && h2[x] == h0[x]
    {
      SparedKeeps(h0, t0, h1, t1, s, b);
    }
    forall e, b | b in s && b < e <= b + h0[b].size
      ensures SameTail(t0, t2, e)
    {
      SparedKeeps(h0, t0, h1, t1, s, b);
      assert SameTail(t0, t1, e) && b in s' && SameTail(t1, t2, e);
    }
  }

  /** The back pointers written when a free block is cut. */
  lemma CutTails(h: Heap, tails: map<Addr, Addr>, rings: map<Addr, seq<Addr>>, q: Addr, size: nat)
    requires InRings(rings, q) && q in h && 0 < size < h[q].size
    ensures TailsInFree(h, tails, tails[q + size := q][q + h[q].size := q + size], rings, q)
  {
    hide TailsInFree, InRings;
    NoTail(h, tails, rings, q);
    OneTail(h, tails, tails, rings, q, q, q + size, q);
    OneTail(h, tails, tails[q + size := q], rings, q, q, q + h[q].size, q + size);
  }

  lemma GrownTailsIn(tails: map<Addr, Addr>, a: Addr, size: nat, total: nat)
    requires UNIT <= size <= total
    ensures forall e: Addr {:trigger SameTail(tails, GrownTails(tails, a, size, total), e)} ::
              SameTail(tails, GrownTails(tails, a, size, total), e) || a < e < a + UNIT + total + MARKER
  {
  }

  lemma FreeSized(h: Heap, tails: map<Addr, Addr>, z: Arenas, c: Addr)
    requires ArenasOk(h, tails, z) && c in z.blocks
    ensures c in h && 0 < h[c].size
  {
    assert BlockOk(h, tails, z, c);
  }
}
