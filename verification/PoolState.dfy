/**
 What allocating and freeing make of the arenas, the free blocks and the account, stated on
 the block headers before and after.
 */
module PoolState {
  import opened PoolTree
  import opened PoolFree
  import opened PoolDelete
  import opened PoolIndex
  import opened PoolInsert
  import opened PoolArena

  predicate InUse(m: Magic) {
    m == MagicA || m == MagicI
  }

  ghost function Live(h: Heap, z: Arenas): (s: set<Addr>)
    ensures forall b :: b in s <==> b in z.blocks && b in h && InUse(h[b].magic)
  {
    set b | b in z.blocks && b in h && InUse(h[b].magic)
  }

  /** The free structure holds exactly the blocks marked free. */
  ghost predicate Matches(h: Heap, z: Arenas, rings: map<Addr, seq<Addr>>) {
    forall x {:trigger InRings(rings, x)} :: InRings(rings, x) <==> x in z.blocks && x in h && h[x].magic == MagicF
  }

  ghost predicate ArenasOk(h: Heap, tails: map<Addr, Addr>, z: Arenas) {
    Tiled(h, tails, z) && AllMerged(h, z)
  }

  // ----- allocating

  /** h' is h but that block q is marked allocated. */
  ghost predicate Marked(h: Heap, h': Heap, q: Addr, m: Magic) {
    && q in h && q in h' && h'[q].size == h[q].size && h'[q].magic == m
    && forall x :: x in h && x != q ==> x in h' && h'[x].magic == h[x].magic && h'[x].size == h[x].size
  }

  lemma TakenWhole(h: Heap, h': Heap, tails: map<Addr, Addr>, z: Arenas, rings: map<Addr, seq<Addr>>, rings': map<Addr, seq<Addr>>, q: Addr)
    requires ArenasOk(h, tails, z) && Matches(h, z, rings) && InRings(rings, q) && Marked(h, h', q, MagicA)
    requires forall x :: InRings(rings', x) <==> InRings(rings, x) && x != q
    ensures ArenasOk(h', tails, z) && Matches(h', z, rings')
    ensures Total(h', Live(h', z)) == Total(h, Live(h, z)) + h[q].size
    ensures q in z.blocks && Live(h', z) == Live(h, z) + {q} && q !in Live(h, z)
  {
    assert PredOk(h, tails, z, q);
    assert q !in z.leaders;
    MagicTiled(h, h', tails, z, q);
    InHeapAll(h, tails, z);
    forall b | b in z.blocks
      ensures Merged(h', z, b)
    {
      assert Merged(h, z, b);
    }
    assert Live(h', z) == Live(h, z) + {q};
    TotalWithout(h', Live(h', z), q);
    assert Live(h', z) - {q} == Live(h, z);
    TotalFrame(h, h', Live(h, z));
  }

  lemma InHeapAll(h: Heap, tails: map<Addr, Addr>, z: Arenas)
    requires Tiled(h, tails, z)
    ensures forall b :: b in z.blocks ==> b in h && b in z.limit && b != NIL
  {
    forall b | b in z.blocks
      ensures b in h && b in z.limit && b != NIL
    {
      assert BlockOk(h, tails, z, b);
    }
  }

  lemma TakenSplit(h: Heap, h': Heap, tails: map<Addr, Addr>, z: Arenas, rings: map<Addr, seq<Addr>>, rings': map<Addr, seq<Addr>>,
                   q: Addr, size: nat)
    requires ArenasOk(h, tails, z) && Matches(h, z, rings) && InRings(rings, q) && Split(h, h', q, size)
    requires h'[q].magic == MagicA && h'[q + size].magic == MagicF
    requires forall x :: InRings(rings', x) <==> (InRings(rings, x) && x != q) || x == q + size
    ensures q in z.limit && q in z.blocks
    ensures var tails', z' := tails[q + size := q][q + h[q].size := q + size], SplitArenas(z, q, q + size);
            && ArenasOk(h', tails', z') && Matches(h', z', rings')
            && Total(h', Live(h', z')) == Total(h, Live(h, z)) + size
            && Live(h', z') == Live(h, z) + {q} && q !in Live(h, z)
  {
    var t := q + size;
    assert PredOk(h, tails, z, q) && BlockOk(h, tails, z, q) && Merged(h, z, q);
    SplitTiled(h, h', tails, z, q, size);
    InHeapAll(h, tails, z);
    var z' := SplitArenas(z, q, t);
    forall b | b in z'.blocks
      ensures Merged(h', z', b)
    {
      if b != t {
        assert Merged(h, z, b);
        OffTheCut(h, tails, z, q, size, b);
      }
    }
    assert Live(h', z') == Live(h, z) + {q};
    TotalWithout(h', Live(h', z'), q);
    assert Live(h', z') - {q} == Live(h, z);
    TotalFrame(h, h', Live(h, z));
  }

  lemma TakenNew(h: Heap, h': Heap, tails: map<Addr, Addr>, z: Arenas, rings: map<Addr, seq<Addr>>, rings': map<Addr, seq<Addr>>,
                 a: Addr, size: nat, total: nat)
    requires ArenasOk(h, tails, z) && Matches(h, z, rings) && Unused(h, z, a, UNIT + total + MARKER) && Grown(h, h', a, size, total)
    requires h'[a + UNIT].magic == MagicA && (size < total ==> h'[a + UNIT + size].magic == MagicF)
    requires forall x :: InRings(rings', x) <==> InRings(rings, x) || (size < total && x == a + UNIT + size)
    ensures var t, tails', z' := a + UNIT, GrownTails(tails, a, size, total), GrownArenas(z, a, size, total);
            && ArenasOk(h', tails', z') && Matches(h', z', rings')
            && Total(h', Live(h', z')) == Total(h, Live(h, z)) + size
            && Live(h', z') == Live(h, z) + {t} && t !in Live(h, z) && t in z'.blocks
  {
    hide Tiled, Unused, GrownTails, BlockOk, PredOk, Clear;
    var t := a + UNIT;
    GrowTiled(h, h', tails, z, a, size, total);
    InHeapAll(h, tails, z);
    NewBlocksApart(h, tails, z, a, size, total);
    var z' := GrownArenas(z, a, size, total);
    forall b | b in z'.blocks
      ensures Merged(h', z', b)
    {
      if b in z.blocks { GrownMerged(h, h', tails, z, a, size, total, b); }
    }
    OldHeads(h, h', tails, z, a, size, total);
    assert Live(h', z') == Live(h, z) + {t};
    OneMore(h, h', Live(h, z), t);
  }

  lemma NewBlocksApart(h: Heap, tails: map<Addr, Addr>, z: Arenas, a: Addr, size: nat, total: nat)
    requires Tiled(h, tails, z) && Unused(h, z, a, UNIT + total + MARKER) && UNIT <= size <= total
    ensures a !in z.blocks && a + UNIT !in z.blocks && a + UNIT + size !in z.blocks && a + UNIT + total !in z.blocks
  {
    hide Tiled, Unused;
    var n := UNIT + total + MARKER;
    NewApart(h, tails, z, a, n, a);
    NewApart(h, tails, z, a, n, a + UNIT);
    NewApart(h, tails, z, a, n, a + UNIT + size);
    NewApart(h, tails, z, a, n, a + UNIT + total);
  }

  lemma OldHeads(h: Heap, h': Heap, tails: map<Addr, Addr>, z: Arenas, a: Addr, size: nat, total: nat)
    requires Tiled(h, tails, z) && Unused(h, z, a, UNIT + total + MARKER) && Grown(h, h', a, size, total)
    ensures forall b :: b in z.blocks ==> b in h && b in h' && h'[b].magic == h[b].magic && h'[b].size == h[b].size
  {
    hide Grown, Tiled;
    forall b | b in z.blocks
      ensures b in h && b in h' && h'[b].magic == h[b].magic && h'[b].size == h[b].size
    {
      OldHead(h, h', tails, z, a, size, total, b);
    }
  }

  lemma OldHead(h: Heap, h': Heap, tails: map<Addr, Addr>, z: Arenas, a: Addr, size: nat, total: nat, b: Addr)
    requires Tiled(h, tails, z) && Unused(h, z, a, UNIT + total + MARKER) && Grown(h, h', a, size, total) && b in z.blocks
    ensures b in h && b in h' && h'[b].magic == h[b].magic && h'[b].size == h[b].size
  {
    assert BlockOk(h, tails, z, b);
  }

  lemma GrownMerged(h: Heap, h': Heap, tails: map<Addr, Addr>, z: Arenas, a: Addr, size: nat, total: nat, b: Addr)
    requires Tiled(h, tails, z) && Unused(h, z, a, UNIT + total + MARKER) && Grown(h, h', a, size, total)
    requires AllMerged(h, z) && b in z.blocks
    ensures b in GrownArenas(z, a, size, total).blocks && Merged(h', GrownArenas(z, a, size, total), b)
  {
    hide Tiled, Unused, Grown, BlockOk;
    assert Merged(h, z, b);
    OldHead(h, h', tails, z, a, size, total, b);
    NextOfOld(h, tails, z, a, size, total, b);
    GrowSizes(h, h', a, size, total);
    if b + h[b].size in z.blocks { OldHead(h, h', tails, z, a, size, total, b + h[b].size); }
  }

  /** Behind an old block comes no block of the new arena. */
  lemma NextOfOld(h: Heap, tails: map<Addr, Addr>, z: Arenas, a: Addr, size: nat, total: nat, b: Addr)
    requires Tiled(h, tails, z) && Unused(h, z, a, UNIT + total + MARKER) && b in z.blocks && b in h
    ensures b + h[b].size in z.blocks || b + h[b].size < a || a + UNIT + total < b + h[b].size
    ensures b + h[b].size in z.blocks || b + h[b].size !in GrownArenas(z, a, size, total).blocks || total < size
  {
    assert BlockOk(h, tails, z, b);
  }

  /** Setting one more block apart adds its size to the account. */
  lemma OneMore(h: Heap, h': Heap, s: set<Addr>, t: Addr)
    requires t !in s && t in h' && forall x :: x in s ==> x in h && x in h' && h'[x].size == h[x].size
    ensures Total(h', s + {t}) == Total(h, s) + h'[t].size
  {
    TotalWithout(h', s + {t}, t);
    assert s + {t} - {t} == s;
    TotalFrame(h, h', s);
  }

  // ----- freeing

  /** As Matches, but block q is in no ring. */
  ghost predicate MatchesBut(h: Heap, z: Arenas, rings: map<Addr, seq<Addr>>, q: Addr) {
    forall x {:trigger InRings(rings, x)} :: InRings(rings, x) <==> x in z.blocks && x in h && h[x].magic == MagicF && x != q
  }

  predicate NotFree(h: Heap, x: Addr) {
    x in h && h[x].magic != MagicF
  }

  /** The block behind b, and the one before it, as the allocator finds them. */
  lemma Neighbours(h: Heap, tails: map<Addr, Addr>, z: Arenas, b: Addr)
    requires Tiled(h, tails, z) && b in z.blocks && b in h && InUse(h[b].magic)
    ensures b !in z.leaders && b + h[b].size in h && b in tails && tails[b] in h && tails[b] in z.blocks
    ensures tails[b] + h[tails[b]].size == b && tails[b] != b
    ensures h[b + h[b].size].magic == MagicF ==> b + h[b].size in z.blocks
    ensures h[tails[b]].magic == MagicF ==> tails[b] !in z.leaders
  {
    assert BlockOk(h, tails, z, b) && PredOk(h, tails, z, b);
    assert BlockOk(h, tails, z, tails[b]) && PredOk(h, tails, z, tails[b]);
    if b + h[b].size in z.blocks { assert BlockOk(h, tails, z, b + h[b].size); }
  }

  /** What follows a free block is not free. */
  lemma BehindFree(h: Heap, tails: map<Addr, Addr>, z: Arenas, c: Addr)
    requires ArenasOk(h, tails, z) && c in z.blocks && c in h && h[c].magic == MagicF
    ensures NotFree(h, c + h[c].size) && c !in z.leaders && 0 < h[c].size && c + h[c].size in tails
    ensures c in tails && NotFree(h, tails[c])
  {
    assert BlockOk(h, tails, z, c) && PredOk(h, tails, z, c) && Merged(h, z, c) && Merged(h, z, tails[c]);
  }

  /** Block b in use has taken over the free block c behind it. */
  lemma JoinedNext(h: Heap, h': Heap, tails: map<Addr, Addr>, z: Arenas, rings: map<Addr, seq<Addr>>, rings': map<Addr, seq<Addr>>,
                   b: Addr, c: Addr)
    requires ArenasOk(h, tails, z) && Matches(h, z, rings) && b in z.blocks && c in z.blocks && Joined(h, h', b, c)
    requires InUse(h[b].magic) && h[c].magic == MagicF && c in h' && h'[c].magic == NoMagic
    requires forall x :: InRings(rings', x) <==> InRings(rings, x) && x != c
    ensures ArenasOk(h', tails[c + h[c].size := b], JoinArenas(z, c)) && Matches(h', JoinArenas(z, c), rings')
    ensures b in JoinArenas(z, c).blocks && NotFree(h', b + h'[b].size) && Live(h', JoinArenas(z, c)) == Live(h, z)
  {
    hide Tiled, BlockOk, PredOk, Clear;
    Neighbours(h, tails, z, b);
    BehindFree(h, tails, z, c);
    JoinTiled(h, h', tails, z, b, c);
    InHeapAll(h, tails, z);
    var z' := JoinArenas(z, c);
    forall a | a in z'.blocks
      ensures Merged(h', z', a)
    {
      assert Merged(h, z, a);
    }
    assert Live(h', z') == Live(h, z);
  }

  /** The free block p, out of the rings by now, has taken over block b in use behind it. */
  lemma JoinedPrev(h: Heap, h': Heap, tails: map<Addr, Addr>, z: Arenas, rings: map<Addr, seq<Addr>>, rings': map<Addr, seq<Addr>>,
                   p: Addr, b: Addr)
    requires ArenasOk(h, tails, z) && Matches(h, z, rings) && p in z.blocks && b in z.blocks && Joined(h, h', p, b)
    requires h[p].magic == MagicF && InUse(h[b].magic) && b in h' && h'[b].magic == NoMagic && NotFree(h, b + h[b].size)
    requires forall x :: InRings(rings', x) <==> InRings(rings, x) && x != p
    ensures ArenasOk(h', tails[b + h[b].size := p], JoinArenas(z, b)) && MatchesBut(h', JoinArenas(z, b), rings', p)
    ensures p in JoinArenas(z, b).blocks && p !in z.leaders && Live(h', JoinArenas(z, b)) == Live(h, z) - {b}
    ensures NotFree(h', p + h'[p].size) && p in tails && b + h[b].size != p && NotFree(h', tails[p])
  {
    hide Tiled, BlockOk, PredOk, Clear;
    BehindFree(h, tails, z, p);
    JoinTiled(h, h', tails, z, p, b);
    InHeapAll(h, tails, z);
    var z' := JoinArenas(z, b);
    forall a | a in z'.blocks
      ensures Merged(h', z', a)
    {
      assert Merged(h, z, a);
    }
    assert Live(h', z') == Live(h, z) - {b};
  }

  /** Block b, between blocks that are not free, has been added to the free ones. */
  lemma Returned(h: Heap, h': Heap, tails: map<Addr, Addr>, z: Arenas, rings: map<Addr, seq<Addr>>, rings': map<Addr, seq<Addr>>, b: Addr)
    requires ArenasOk(h, tails, z) && MatchesBut(h, z, rings, b) && b in z.blocks && b !in z.leaders
    requires Marked(h, h', b, MagicF) && NotFree(h, b + h[b].size) && b in tails && NotFree(h, tails[b])
    requires forall x :: InRings(rings', x) <==> InRings(rings, x) || x == b
    ensures ArenasOk(h', tails, z) && Matches(h', z, rings') && Live(h', z) == Live(h, z) - {b}
  {
    hide Clear;
    MagicTiled(h, h', tails, z, b);
    InHeapAll(h, tails, z);
    forall a | a in z.blocks
      ensures Merged(h', z, a)
    {
      assert Merged(h, z, a) && BlockOk(h, tails, z, a);
    }
    assert Live(h', z) == Live(h, z) - {b};
  }

  // ----- best fit over all the free blocks

  lemma BestOfFree(h: Heap, tree: Tree, root: Addr, rings: map<Addr, seq<Addr>>, size: nat)
    requires FreeOk(h, root, tree, rings)
    ensures InHeap(h, Nodes(tree))
    ensures var b := Best(h, tree, size);
            if b == NIL then forall x :: InRings(rings, x) ==> x in h && h[x].size < size
            else InRings(rings, b) && b in h && size <= h[b].size &&
                 forall x :: InRings(rings, x) && x in h && size <= h[x].size ==> h[b].size <= h[x].size
  {
    hide Ring;
    TreeInHeap(h, root, NIL, tree);
    TreeNodesInRings(h, root, tree, rings);
    assert NIL !in Nodes(tree) by {
      if NIL in Nodes(tree) { RootOnly(h, root, NIL, tree, NIL); }
    }
    BestIsBest(h, tree, size);
  }

  // ----- live blocks are not written

  /** No header was written inside a block of s, and no back pointer inside it or at its end. */
  ghost predicate Spared(h: Heap, tails: map<Addr, Addr>, h': Heap, tails': map<Addr, Addr>, s: set<Addr>) {
    && (forall x, b :: x in h' && b in s && b in h && b <= x < b + h[b].size ==> x in h && h'[x] == h[x])
    && (forall e: Addr, b {:trigger SameTail(tails, tails', e), b in s} :: b in s && b in h && b < e <= b + h[b].size ==> SameTail(tails, tails', e))
  }

  predicate SameTail(tails: map<Addr, Addr>, tails': map<Addr, Addr>, e: Addr) {
    (e in tails' <==> e in tails) && (e in tails ==> tails'[e] == tails[e])
  }

  /** e is in a free block or in q, or the end of one. */
  ghost predicate InFree(h: Heap, rings: map<Addr, seq<Addr>>, q: Addr, e: Addr) {
    exists x :: EndsIn(h, rings, q, e, x)
  }

  ghost predicate EndsIn(h: Heap, rings: map<Addr, seq<Addr>>, q: Addr, e: Addr, x: Addr) {
    (InRings(rings, x) || x == q) && x in h && x < e <= x + h[x].size
  }

  /** Back pointers were written in free blocks and in q only. */
  ghost predicate TailsInFree(h: Heap, tails: map<Addr, Addr>, tails': map<Addr, Addr>, rings: map<Addr, seq<Addr>>, q: Addr) {
    forall e: Addr {:trigger SameTail(tails, tails', e)} :: SameTail(tails, tails', e) || InFree(h, rings, q, e)
  }

  lemma OneTail(h: Heap, tails: map<Addr, Addr>, tails': map<Addr, Addr>, rings: map<Addr, seq<Addr>>, q: Addr, x: Addr, e: Addr, y: Addr)
    requires TailsInFree(h, tails, tails', rings, q) && EndsIn(h, rings, q, e, x)
    ensures TailsInFree(h, tails, tails'[e := y], rings, q)
  {
    hide EndsIn;
    forall k ensures SameTail(tails, tails'[e := y], k) || InFree(h, rings, q, k) {
      if k != e { assert SameTail(tails, tails', k) || InFree(h, rings, q, k); }
    }
  }

  lemma NoTail(h: Heap, tails: map<Addr, Addr>, rings: map<Addr, seq<Addr>>, q: Addr)
    ensures TailsInFree(h, tails, tails, rings, q)
  {
  }

  /** Writing in free blocks and in block q spares the live blocks other than q. */
  lemma SparedFree(h: Heap, h': Heap, tails: map<Addr, Addr>, tails': map<Addr, Addr>, z: Arenas, rings: map<Addr, seq<Addr>>, q: Addr)
    requires Tiled(h, tails, z) && Matches(h, z, rings) && q in z.blocks && q in h && TailsInFree(h, tails, tails', rings, q)
    requires forall x :: x in h' && !InRings(rings, x) && !(q <= x < q + h[q].size) ==> x in h && h'[x] == h[x]
    ensures Spared(h, tails, h', tails', Live(h, z) - {q})
  {
    hide InRings, Tiled, BlockOk, SameTail;
    forall x, b | x in h' && b in Live(h, z) - {q} && b <= x < b + h[b].size
      ensures x in h && h'[x] == h[x]
    {
      if InRings(rings, x) { Overlap(h, tails, z, b, x, x); }
      if q <= x < q + h[q].size { Overlap(h, tails, z, b, q, x); }
    }
    forall e, b | b in Live(h, z) - {q} && b < e <= b + h[b].size
      ensures SameTail(tails, tails', e)
    {
      TailSpared(h, tails, tails', z, rings, q, e, b);
    }
  }

  lemma TailSpared(h: Heap, tails: map<Addr, Addr>, tails': map<Addr, Addr>, z: Arenas, rings: map<Addr, seq<Addr>>, q: Addr, e: Addr, b: Addr)
    requires Tiled(h, tails, z) && Matches(h, z, rings) && q in z.blocks && q in h && TailsInFree(h, tails, tails', rings, q)
    requires b in Live(h, z) - {q} && b < e <= b + h[b].size
    ensures SameTail(tails, tails', e)
  {
    hide InRings, Tiled, SameTail;
    if InFree(h, rings, q, e) {
      var x :| EndsIn(h, rings, q, e, x);
      assert x in z.blocks;
      Disjoint(h, tails, z, b, x);
    }
  }

  /** An address in two blocks is in one. */
  lemma Overlap(h: Heap, tails: map<Addr, Addr>, z: Arenas, b: Addr, c: Addr, x: Addr)
    requires Tiled(h, tails, z) && b in z.blocks && c in z.blocks && b in h && c in h
    requires b <= x < b + h[b].size && (c == x || c <= x < c + h[c].size)
    ensures b == c
  {
    assert BlockOk(h, tails, z, c);
    if b != c { Disjoint(h, tails, z, b, c); }
  }

  lemma SparedNew(h: Heap, h': Heap, tails: map<Addr, Addr>, tails': map<Addr, Addr>, z: Arenas, rings: map<Addr, seq<Addr>>, a: Addr, n: nat)
    requires Tiled(h, tails, z) && Matches(h, z, rings) && Unused(h, z, a, n)
    requires forall x :: x in h' && !InRings(rings, x) && !(a <= x < a + n) ==> x in h && h'[x] == h[x]
    requires forall e: Addr {:trigger SameTail(tails, tails', e)} :: SameTail(tails, tails', e) || a < e < a + n
    ensures Spared(h, tails, h', tails', Live(h, z))
  {
    hide InRings, Tiled, SameTail;
    forall x, b | x in h' && b in Live(h, z) && b <= x < b + h[b].size
      ensures x in h && h'[x] == h[x]
    {
      if InRings(rings, x) { Overlap(h, tails, z, b, x, x); }
    }
    forall e, b | b in Live(h, z) && b < e <= b + h[b].size
      ensures SameTail(tails, tails', e)
    {
      NewTailApart(h, tails, z, a, n, b, e);
    }
  }

  lemma NewTailApart(h: Heap, tails: map<Addr, Addr>, z: Arenas, a: Addr, n: nat, b: Addr, e: Addr)
    requires Tiled(h, tails, z) && Unused(h, z, a, n) && b in z.blocks && b in h && b < e <= b + h[b].size
    ensures !(a < e < a + n)
  {
    assert BlockOk(h, tails, z, b);
  }
}
