/**
 How blocks tile the arenas of a pool: each block ends where the next begins, the word
 before its end points back to its header, and an arena runs from a leader to an end marker.
 */
module PoolArena {
  import opened PoolTree
  import opened PoolFree
  import opened PoolDelete

  const UNIT := 32
  const MARKER := 4

  /** The blocks of the arenas; `limit` gives for a block the end marker of its arena. */
  datatype Arenas = Arenas(blocks: set<Addr>, limit: map<Addr, Addr>, leaders: set<Addr>)

  /** Block b and its surroundings: its tail, the block behind it, or the end marker. */
  ghost predicate BlockOk(h: Heap, tails: map<Addr, Addr>, z: Arenas, b: Addr)
    requires b in z.blocks
  {
    && b != NIL && b in h && UNIT <= h[b].size && h[b].size % UNIT == 0
    && b in z.limit
    && var e := b + h[b].size;
       && e in tails && tails[e] == b && e <= z.limit[b]
       && if e == z.limit[b] then e in h && h[e].magic == MagicE && e !in z.blocks
          else e in z.blocks && e !in z.leaders && e in z.limit && z.limit[e] == z.limit[b]
  }

  /** Block b has a predecessor, unless it leads its arena. */
  ghost predicate PredOk(h: Heap, tails: map<Addr, Addr>, z: Arenas, b: Addr)
    requires b in z.blocks
  {
    if b in z.leaders then b in h && h[b].magic == MagicE
    else
      && b in h && h[b].magic != MagicE && h[b].magic != NoMagic
      && b in tails && tails[b] in z.blocks && tails[b] in h && tails[b] + h[tails[b]].size == b
  }

  /** The extents of two blocks do not meet, nor that of a block and an end marker. */
  ghost predicate Clear(h: Heap, z: Arenas, b: Addr, c: Addr)
    requires b in z.blocks && c in z.blocks
  {
    && b in h && c in h && b in z.limit
    && (b < c ==> b + h[b].size <= c)
    && (c + h[c].size <= z.limit[b] || z.limit[b] + MARKER <= c)
  }

  /** Two free blocks are never neighbours. */
  ghost predicate Merged(h: Heap, z: Arenas, b: Addr)
    requires b in z.blocks
  {
    b in h && (h[b].magic == MagicF && b + h[b].size in z.blocks ==>
      b + h[b].size in h && h[b + h[b].size].magic != MagicF)
  }

  ghost predicate Tiled(h: Heap, tails: map<Addr, Addr>, z: Arenas) {
    && z.leaders <= z.blocks
    && (forall b {:trigger BlockOk(h, tails, z, b)} :: b in z.blocks ==> BlockOk(h, tails, z, b))
    && (forall b {:trigger PredOk(h, tails, z, b)} :: b in z.blocks ==> PredOk(h, tails, z, b))
    && (forall b, c {:trigger Clear(h, z, b, c)} :: b in z.blocks && c in z.blocks ==> Clear(h, z, b, c))
  }

  ghost predicate AllMerged(h: Heap, z: Arenas) {
    forall b {:trigger Merged(h, z, b)} :: b in z.blocks ==> Merged(h, z, b)
  }

  /** From b the sizes of the blocks lead exactly to e. */
  ghost predicate Reaches(h: Heap, b: Addr, e: Addr)
    decreases e - b
  {
    b == e || (b < e && b in h && 0 < h[b].size && Reaches(h, b + h[b].size, e))
  }

  /** Every arena is tiled from its leader, or any of its blocks, to its end marker. */
  lemma {:induction false} TiledReaches(h: Heap, tails: map<Addr, Addr>, z: Arenas, b: Addr)
    requires Tiled(h, tails, z) && b in z.blocks
    ensures b in z.limit && b < z.limit[b] && Reaches(h, b, z.limit[b])
    decreases if b in z.limit && b <= z.limit[b] then z.limit[b] - b else 0
  {
    assert BlockOk(h, tails, z, b);
    var e := b + h[b].size;
    if e != z.limit[b] {
      assert BlockOk(h, tails, z, e);
      TiledReaches(h, tails, z, e);
    }
  }

  /** The user data of two blocks never overlaps. */
  lemma Disjoint(h: Heap, tails: map<Addr, Addr>, z: Arenas, b: Addr, c: Addr)
    requires Tiled(h, tails, z) && b in z.blocks && c in z.blocks && b != c
    ensures b in h && c in h && (b + h[b].size <= c || c + h[c].size <= b)
  {
    assert Clear(h, z, b, c) && Clear(h, z, c, b);
  }

  /** Changing the magic of a block other than a leader, to anything but an end. */
  lemma MagicTiled(h: Heap, h': Heap, tails: map<Addr, Addr>, z: Arenas, b: Addr)
    requires Tiled(h, tails, z) && b in z.blocks && b !in z.leaders
    requires b in h' && h'[b].magic != MagicE && h'[b].magic != NoMagic && b in h && h'[b].size == h[b].size
    requires forall x :: x in h && x != b ==> x in h' && h'[x].magic == h[x].magic && h'[x].size == h[x].size
    ensures Tiled(h', tails, z)
  {
    forall a | a in z.blocks
      ensures BlockOk(h', tails, z, a) && PredOk(h', tails, z, a)
    {
      assert BlockOk(h, tails, z, a) && PredOk(h, tails, z, a);
    }
    forall a, c | a in z.blocks && c in z.blocks
      ensures Clear(h', z, a, c)
    {
      assert Clear(h, z, a, c);
    }
  }

  // ----- splitting and joining

  ghost function SplitArenas(z: Arenas, q: Addr, t: Addr): Arenas
    requires q in z.limit
  {
    Arenas(z.blocks + {t}, z.limit[t := z.limit[q]], z.leaders)
  }

  /** h' is h with block q cut down to size, and the rest a block of its own. */
  ghost predicate Split(h: Heap, h': Heap, q: Addr, size: nat) {
    var t := q + size;
    && q in h && UNIT <= size && size % UNIT == 0 && size < h[q].size
    && q in h' && t in h' && h'[q].size == size && h'[t].size == h[q].size - size
    && h'[q].magic != MagicE && h'[q].magic != NoMagic && h'[t].magic != MagicE && h'[t].magic != NoMagic
    && (forall x :: x in h && x != q && x != t ==> x in h' && h'[x].magic == h[x].magic && h'[x].size == h[x].size)
  }

  /** Another block stays clear of the cut. */
  lemma OffTheCut(h: Heap, tails: map<Addr, Addr>, z: Arenas, q: Addr, size: nat, b: Addr)
    requires Tiled(h, tails, z) && q in z.blocks && b in z.blocks && q in h && 0 < size < h[q].size
    ensures b in h && b in z.limit && z.limit[b] != q + size && b != q + size && b + h[b].size != q + size && 0 < h[b].size
    ensures b != q ==> b + h[b].size != q + h[q].size && b + h[b].size != q + size
  {
    assert BlockOk(h, tails, z, q) && BlockOk(h, tails, z, b);
    assert Clear(h, z, q, b) && Clear(h, z, b, q);
  }

  lemma CutIsNew(h: Heap, h': Heap, tails: map<Addr, Addr>, z: Arenas, q: Addr, size: nat)
    requires Tiled(h, tails, z) && q in z.blocks && Split(h, h', q, size)
    ensures q + size !in z.blocks
  {
    if q + size in z.blocks { OffTheCut(h, tails, z, q, size, q + size); }
  }

  lemma SplitBlock(h: Heap, h': Heap, tails: map<Addr, Addr>, z: Arenas, q: Addr, size: nat, b: Addr)
    requires Tiled(h, tails, z) && q in z.blocks && q !in z.leaders && Split(h, h', q, size) && q in z.limit
    requires b in z.blocks
    ensures var t := q + size;
            var z', tails' := SplitArenas(z, q, t), tails[t := q][q + h[q].size := t];
            BlockOk(h', tails', z', b) && PredOk(h', tails', z', b)
  {
    assert BlockOk(h, tails, z, b) && PredOk(h, tails, z, b);
    OffTheCut(h, tails, z, q, size, b);
    CutIsNew(h, h', tails, z, q, size);
    if b !in z.leaders {
      OffTheCut(h, tails, z, q, size, tails[b]);
    }
  }

  lemma SplitRest(h: Heap, h': Heap, tails: map<Addr, Addr>, z: Arenas, q: Addr, size: nat)
    requires Tiled(h, tails, z) && q in z.blocks && q !in z.leaders && Split(h, h', q, size) && q in z.limit
    ensures var t := q + size;
            var z', tails' := SplitArenas(z, q, t), tails[t := q][q + h[q].size := t];
            BlockOk(h', tails', z', t) && PredOk(h', tails', z', t)
  {
    assert BlockOk(h, tails, z, q);
    OffTheCut(h, tails, z, q, size, q);
    var e := q + h[q].size;
    if e != z.limit[q] { OffTheCut(h, tails, z, q, size, e); }
    CutIsNew(h, h', tails, z, q, size);
  }

  lemma SplitClear(h: Heap, h': Heap, tails: map<Addr, Addr>, z: Arenas, q: Addr, size: nat, b: Addr, c: Addr)
    requires Tiled(h, tails, z) && q in z.blocks && Split(h, h', q, size) && q in z.limit
    requires b in z.blocks + {q + size} && c in z.blocks + {q + size}
    ensures Clear(h', SplitArenas(z, q, q + size), b, c)
  {
    var t := q + size;
    var b0, c0 := if b == t then q else b, if c == t then q else c;
    assert Clear(h, z, b0, c0) && Clear(h, z, c0, b0) && BlockOk(h, tails, z, q) && BlockOk(h, tails, z, b0) && BlockOk(h, tails, z, c0);
  }

  lemma SplitTiled(h: Heap, h': Heap, tails: map<Addr, Addr>, z: Arenas, q: Addr, size: nat)
    requires Tiled(h, tails, z) && q in z.blocks && q !in z.leaders && Split(h, h', q, size)
    ensures q in z.limit && q + size !in z.blocks
    ensures Tiled(h', tails[q + size := q][q + h[q].size := q + size], SplitArenas(z, q, q + size))
  {
    hide Split, Clear, PredOk;
    assert BlockOk(h, tails, z, q);
    var t := q + size;
    CutIsNew(h, h', tails, z, q, size);
    var z', tails' := SplitArenas(z, q, t), tails[t := q][q + h[q].size := t];
    hide BlockOk;
    SplitRest(h, h', tails, z, q, size);
    forall b | b in z.blocks
      ensures BlockOk(h', tails', z', b) && PredOk(h', tails', z', b)
    {
      SplitBlock(h, h', tails, z, q, size, b);
    }
    forall b, c | b in z'.blocks && c in z'.blocks
      ensures Clear(h', z', b, c)
    {
      SplitClear(h, h', tails, z, q, size, b, c);
    }
  }

  ghost function JoinArenas(z: Arenas, c: Addr): Arenas {
    Arenas(z.blocks - {c}, z.limit, z.leaders)
  }

  /** h' is h with block b grown over the block c behind it. */
  ghost predicate Joined(h: Heap, h': Heap, b: Addr, c: Addr) {
    && b in h && c in h && c == b + h[b].size
    && b in h' && h'[b].size == h[b].size + h[c].size && h'[b].magic == h[b].magic
    && (forall x :: x in h && x != b && x != c ==> x in h' && h'[x].magic == h[x].magic && h'[x].size == h[x].size)
  }

  lemma JoinBlock(h: Heap, h': Heap, tails: map<Addr, Addr>, z: Arenas, b: Addr, c: Addr, a: Addr)
    requires Tiled(h, tails, z) && b in z.blocks && b !in z.leaders && c in z.blocks && Joined(h, h', b, c)
    requires a in z.blocks && a != c
    ensures var z', tails' := JoinArenas(z, c), tails[c + h[c].size := b];
            BlockOk(h', tails', z', a) && PredOk(h', tails', z', a)
  {
    assert BlockOk(h, tails, z, b) && BlockOk(h, tails, z, c) && BlockOk(h, tails, z, a) && PredOk(h, tails, z, a);
    assert Clear(h, z, a, b) && Clear(h, z, b, a) && Clear(h, z, a, c) && Clear(h, z, c, a);
    if a !in z.leaders {
      var p := tails[a];
      assert BlockOk(h, tails, z, p) && Clear(h, z, p, c) && Clear(h, z, c, p) && Clear(h, z, p, b);
    }
  }

  lemma JoinClear(h: Heap, h': Heap, tails: map<Addr, Addr>, z: Arenas, b: Addr, c: Addr, x: Addr, y: Addr)
    requires Tiled(h, tails, z) && b in z.blocks && c in z.blocks && Joined(h, h', b, c)
    requires x in z.blocks && y in z.blocks && x != c && y != c
    ensures Clear(h', JoinArenas(z, c), x, y)
  {
    assert Clear(h, z, x, y) && Clear(h, z, x, c) && Clear(h, z, c, y) && Clear(h, z, b, y) && Clear(h, z, x, b);
    assert BlockOk(h, tails, z, c) && BlockOk(h, tails, z, b) && BlockOk(h, tails, z, x) && BlockOk(h, tails, z, y);
  }

  /** Block b takes over the block c behind it. */
  lemma JoinTiled(h: Heap, h': Heap, tails: map<Addr, Addr>, z: Arenas, b: Addr, c: Addr)
    requires Tiled(h, tails, z) && b in z.blocks && b !in z.leaders && c in z.blocks && Joined(h, h', b, c)
    ensures Tiled(h', tails[c + h[c].size := b], JoinArenas(z, c)) && c !in z.leaders
  {
    assert BlockOk(h, tails, z, b);
    assert c !in z.leaders;
    hide BlockOk, PredOk, Clear;
    var z', tails' := JoinArenas(z, c), tails[c + h[c].size := b];
    forall a | a in z'.blocks
      ensures BlockOk(h', tails', z', a) && PredOk(h', tails', z', a)
    {
      JoinBlock(h, h', tails, z, b, c, a);
    }
    forall x, y | x in z'.blocks && y in z'.blocks
      ensures Clear(h', z', x, y)
    {
      JoinClear(h, h', tails, z, b, c, x, y);
    }
  }

  // ----- a new arena

  /** The n bytes from a on meet no block and no end marker. */
  ghost predicate Unused(h: Heap, z: Arenas, a: Addr, n: nat) {
    && a != NIL
    && forall b :: b in z.blocks ==>
         && b in h && b in z.limit
         && (b + h[b].size <= a || a + n <= b) && (z.limit[b] + MARKER <= a || a + n <= z.limit[b])
  }

  /** An arena of a leader, a block, perhaps another block, and an end marker. */
  ghost function GrownArenas(z: Arenas, a: Addr, size: nat, total: nat): Arenas {
    var t, e := a + UNIT, a + UNIT + total;
    if size == total then
      Arenas(z.blocks + {a, t}, z.limit[a := e][t := e], z.leaders + {a})
    else
      Arenas(z.blocks + {a, t, t + size}, z.limit[a := e][t := e][t + size := e], z.leaders + {a})
  }

  ghost function GrownTails(tails: map<Addr, Addr>, a: Addr, size: nat, total: nat): map<Addr, Addr> {
    var t := a + UNIT;
    if size == total then tails[t := a][t + size := t]
    else tails[t := a][t + size := t][t + total := t + size]
  }

  /** h' is h with a leader, a block of the given size, the rest, and an end marker from a on. */
  ghost predicate Grown(h: Heap, h': Heap, a: Addr, size: nat, total: nat) {
    var t, e := a + UNIT, a + UNIT + total;
    && UNIT <= size <= total && size % UNIT == 0 && total % UNIT == 0
    && a in h' && h'[a].magic == MagicE && h'[a].size == UNIT
    && t in h' && h'[t].size == size && h'[t].magic != MagicE && h'[t].magic != NoMagic
    && e in h' && h'[e].magic == MagicE
    && (size < total ==> t + size in h' && h'[t + size].size == total - size &&
                         h'[t + size].magic != MagicE && h'[t + size].magic != NoMagic)
    && forall x :: x in h && !(a <= x < a + UNIT + total + MARKER) ==> x in h' && h'[x].magic == h[x].magic && h'[x].size == h[x].size
  }

  lemma GrowOld(h: Heap, h': Heap, tails: map<Addr, Addr>, z: Arenas, a: Addr, size: nat, total: nat, b: Addr)
    requires Tiled(h, tails, z) && Unused(h, z, a, UNIT + total + MARKER) && b in z.blocks && Grown(h, h', a, size, total)
    ensures b in GrownArenas(z, a, size, total).blocks
    ensures BlockOk(h', GrownTails(tails, a, size, total), GrownArenas(z, a, size, total), b)
    ensures PredOk(h', GrownTails(tails, a, size, total), GrownArenas(z, a, size, total), b)
  {
    assert BlockOk(h, tails, z, b) && PredOk(h, tails, z, b) && Clear(h, z, b, b);
    if b !in z.leaders {
      var p := tails[b];
      assert BlockOk(h, tails, z, p) && Clear(h, z, p, p);
    }
    var e := b + h[b].size;
    if e != z.limit[b] { assert BlockOk(h, tails, z, e); }
  }

  lemma GrowNew(h: Heap, h': Heap, tails: map<Addr, Addr>, z: Arenas, a: Addr, size: nat, total: nat, b: Addr)
    requires Tiled(h, tails, z) && Unused(h, z, a, UNIT + total + MARKER) && Grown(h, h', a, size, total)
    requires b in {a, a + UNIT} || (size < total && b == a + UNIT + size)
    ensures b in GrownArenas(z, a, size, total).blocks
    ensures BlockOk(h', GrownTails(tails, a, size, total), GrownArenas(z, a, size, total), b)
    ensures PredOk(h', GrownTails(tails, a, size, total), GrownArenas(z, a, size, total), b)
  {
    NewApart(h, tails, z, a, UNIT + total + MARKER, a + UNIT);
    NewApart(h, tails, z, a, UNIT + total + MARKER, a + UNIT + size);
    NewApart(h, tails, z, a, UNIT + total + MARKER, a + UNIT + total);
  }

  lemma NewApart(h: Heap, tails: map<Addr, Addr>, z: Arenas, a: Addr, n: nat, x: Addr)
    requires Tiled(h, tails, z) && Unused(h, z, a, n) && a <= x < a + n
    ensures x !in z.blocks
  {
    assert x in z.blocks ==> BlockOk(h, tails, z, x);
  }

  lemma GrowClear(h: Heap, h': Heap, tails: map<Addr, Addr>, z: Arenas, a: Addr, size: nat, total: nat, b: Addr, c: Addr)
    requires Tiled(h, tails, z) && Unused(h, z, a, UNIT + total + MARKER) && Grown(h, h', a, size, total)
    requires b in GrownArenas(z, a, size, total).blocks && c in GrownArenas(z, a, size, total).blocks
    ensures Clear(h', GrownArenas(z, a, size, total), b, c)
  {
    if b in z.blocks { assert BlockOk(h, tails, z, b); }
    if c in z.blocks { assert BlockOk(h, tails, z, c); }
    if b in z.blocks && c in z.blocks { assert Clear(h, z, b, c); }
  }

  lemma GrowTiled(h: Heap, h': Heap, tails: map<Addr, Addr>, z: Arenas, a: Addr, size: nat, total: nat)
    requires Tiled(h, tails, z) && Unused(h, z, a, UNIT + total + MARKER) && Grown(h, h', a, size, total)
    ensures Tiled(h', GrownTails(tails, a, size, total), GrownArenas(z, a, size, total))
  {
    hide BlockOk, PredOk, Clear, Unused, Grown, GrownTails;
    var z', tails' := GrownArenas(z, a, size, total), GrownTails(tails, a, size, total);
    forall b | b in z'.blocks
      ensures BlockOk(h', tails', z', b) && PredOk(h', tails', z', b)
    {
      if b in z.blocks {
        GrowOld(h, h', tails, z, a, size, total, b);
      } else {
        GrowSizes(h, h', a, size, total);
        GrowNew(h, h', tails, z, a, size, total, b);
      }
    }
    forall b, c | b in z'.blocks && c in z'.blocks
      ensures Clear(h', z', b, c)
    {
      GrowClear(h, h', tails, z, a, size, total, b, c);
    }
  }

  lemma GrowSizes(h: Heap, h': Heap, a: Addr, size: nat, total: nat)
    requires Grown(h, h', a, size, total)
    ensures UNIT <= size <= total
  {
  }

  // ----- how much is allocated

  ghost function Total(h: Heap, s: set<Addr>): nat
    requires forall x :: x in s ==> x in h
  {
    if s == {} then 0 else
      var x :| x in s;
      h[x].size + Total(h, s - {x})
  }

  lemma {:induction false} TotalWithout(h: Heap, s: set<Addr>, y: Addr)
    requires (forall x :: x in s ==> x in h) && y in s
    ensures Total(h, s) == h[y].size + Total(h, s - {y})
  {
    var x :| x in s && Total(h, s) == h[x].size + Total(h, s - {x});
    if x != y {
      TotalWithout(h, s - {x}, y);
      TotalWithout(h, s - {y}, x);
      assert s - {x} - {y} == s - {y} - {x};
    }
  }

  lemma {:induction false} TotalFrame(h: Heap, h': Heap, s: set<Addr>)
    requires forall x :: x in s ==> x in h && x in h' && h'[x].size == h[x].size
    ensures Total(h', s) == Total(h, s)
  {
    if s != {} {
      var x :| x in s;
      TotalWithout(h, s, x);
      TotalWithout(h', s, x);
      TotalFrame(h, h', s - {x});
    }
  }

  // ----- how much the arenas take

  /** The bytes from the leaders in s to the ends of their end markers. */
  ghost function Extents(limit: map<Addr, Addr>, s: set<Addr>): int
    requires forall l :: l in s ==> l in limit
  {
    if s == {} then 0 else
      var l :| l in s;
      limit[l] + MARKER - l + Extents(limit, s - {l})
  }

  lemma {:induction false} ExtentsWithout(limit: map<Addr, Addr>, s: set<Addr>, k: Addr)
    requires (forall l :: l in s ==> l in limit) && k in s
    ensures Extents(limit, s) == limit[k] + MARKER - k + Extents(limit, s - {k})
  {
    var l :| l in s && Extents(limit, s) == limit[l] + MARKER - l + Extents(limit, s - {l});
    if l != k {
      ExtentsWithout(limit, s - {l}, k);
      ExtentsWithout(limit, s - {k}, l);
      assert s - {l} - {k} == s - {k} - {l};
    }
  }

  lemma {:induction false} ExtentsFrame(limit: map<Addr, Addr>, limit': map<Addr, Addr>, s: set<Addr>)
    requires forall l :: l in s ==> l in limit && l in limit' && limit'[l] == limit[l]
    ensures Extents(limit', s) == Extents(limit, s)
  {
    if s != {} {
      var l :| l in s;
      ExtentsWithout(limit, s, l);
      ExtentsWithout(limit', s, l);
      ExtentsFrame(limit, limit', s - {l});
    }
  }

  /** The arenas, and what the system refused, make up the counter, which is within the limit. */
  ghost predicate WithinLimit(z: Arenas, refused: nat, arenasize: nat, maxsize: nat) {
    && (forall l :: l in z.leaders ==> l in z.limit)
    && Extents(z.limit, z.leaders) + refused == arenasize <= maxsize
  }

  lemma SplitWithin(h: Heap, h': Heap, tails: map<Addr, Addr>, z: Arenas, q: Addr, size: nat, refused: nat, arenasize: nat, maxsize: nat)
    requires Tiled(h, tails, z) && q in z.blocks && q in h && 0 < size < h[q].size && q in z.limit && WithinLimit(z, refused, arenasize, maxsize)
    ensures WithinLimit(SplitArenas(z, q, q + size), refused, arenasize, maxsize)
  {
    hide Tiled, Extents;
    if q + size in z.blocks { OffTheCut(h, tails, z, q, size, q + size); }
    LeadersAreBlocks(h, tails, z);
    ExtentsFrame(z.limit, SplitArenas(z, q, q + size).limit, z.leaders);
  }

  lemma LeadersAreBlocks(h: Heap, tails: map<Addr, Addr>, z: Arenas)
    requires Tiled(h, tails, z)
    ensures z.leaders <= z.blocks
  {
  }

  lemma GrownWithin(h: Heap, tails: map<Addr, Addr>, z: Arenas, a: Addr, size: nat, total: nat, refused: nat, arenasize: nat, maxsize: nat)
    requires Tiled(h, tails, z) && Unused(h, z, a, UNIT + total + MARKER) && UNIT <= size <= total
    requires WithinLimit(z, refused, arenasize, maxsize) && arenasize + UNIT + total + MARKER <= maxsize
    ensures WithinLimit(GrownArenas(z, a, size, total), refused, arenasize + UNIT + total + MARKER, maxsize)
  {
    hide Tiled, Extents, Unused;
    var z' := GrownArenas(z, a, size, total);
    LeadersAreBlocks(h, tails, z);
    NewApart(h, tails, z, a, UNIT + total + MARKER, a);
    NewApart(h, tails, z, a, UNIT + total + MARKER, a + UNIT);
    NewApart(h, tails, z, a, UNIT + total + MARKER, a + UNIT + size);
    ExtentsWithout(z'.limit, z'.leaders, a);
    assert z'.leaders - {a} == z.leaders;
    ExtentsFrame(z.limit, z'.limit, z.leaders);
  }
}
