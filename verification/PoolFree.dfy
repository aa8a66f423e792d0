/**
 The free blocks of a pool: a search tree with one node a size, each node heading a ring of
 blocks of that size.
 */
module PoolFree {
  import opened Sequences
  import opened PoolTree

  function Next(i: nat, n: nat): (j: nat)
    requires i < n
    ensures j < n
  {
    if i + 1 < n then i + 1 else 0
  }

  predicate RingLink(h: Heap, s: seq<Addr>, i: nat)
    requires i < |s|
  {
    var a, b := s[i], s[Next(i, |s|)];
    a in h && b in h && h[a].fwd == b && h[b].prev == a
  }

  /** The blocks of s are linked in a circle, in this order. */
  predicate Ring(h: Heap, s: seq<Addr>) {
    s != [] && Distinct(s) && forall i :: 0 <= i < |s| ==> RingLink(h, s, i)
  }

  function Drop(s: seq<Addr>, k: nat): seq<Addr>
    requires k < |s|
  {
    s[..k] + s[k + 1..]
  }

  lemma DropHas(s: seq<Addr>, k: nat)
    requires k < |s| && Distinct(s)
    ensures Distinct(Drop(s, k)) && forall x :: x in Drop(s, k) <==> x in s && x != s[k]
  {
    var d := Drop(s, k);
    forall x | x in s && x != s[k]
      ensures x in d
    {
      var i :| 0 <= i < |s| && s[i] == x;
      assert d[if i < k then i else i - 1] == x;
    }
  }

  /** Unlinking block k of a ring leaves the ring of the others. */
  lemma RingDrop(h: Heap, h': Heap, s: seq<Addr>, k: nat)
    requires Ring(h, s) && 1 < |s| && k < |s|
    requires forall x :: x in s ==> x in h && x in h'
    requires var p, f := h[s[k]].prev, h[s[k]].fwd;
             && p in h' && f in h' && h'[p].fwd == f && h'[f].prev == p
             && (forall x :: x in s && x != p ==> h'[x].fwd == h[x].fwd)
             && (forall x :: x in s && x != f ==> h'[x].prev == h[x].prev)
    ensures Ring(h', Drop(s, k))
  {
    var n := |s|;
    var p, f := h[s[k]].prev, h[s[k]].fwd;
    var kp := if k == 0 then n - 1 else k - 1;
    var kn := Next(k, n);
    assert RingLink(h, s, k) && RingLink(h, s, kp);
    assert p == s[kp] && f == s[kn];
    DropHas(s, k);
    var d := Drop(s, k);
    forall i | 0 <= i < |d|
      ensures RingLink(h', d, i)
    {
      var j := if i < k then i else i + 1;
      assert d[i] == s[j];
      assert RingLink(h, s, j);
      if j == kp {
        assert d[Next(i, n - 1)] == f;
      } else {
        assert d[Next(i, n - 1)] == s[Next(j, n)];
      }
    }
  }

  /** Linking q in behind the head of a ring. */
  lemma RingAdd(h: Heap, h': Heap, s: seq<Addr>, q: Addr)
    requires Ring(h, s) && q !in s && q in h'
    requires forall x :: x in s ==> x in h && x in h'
    requires var f := h[s[0]].fwd;
             && f in h' && h'[q].fwd == f && h'[q].prev == s[0] && h'[s[0]].fwd == q && h'[f].prev == q
             && (forall x :: x in s && x != s[0] ==> h'[x].fwd == h[x].fwd)
             && (forall x :: x in s && x != f ==> h'[x].prev == h[x].prev)
    ensures Ring(h', [s[0], q] + s[1..])
  {
    var n := |s|;
    var s' := [s[0], q] + s[1..];
    assert RingLink(h, s, 0);
    assert h[s[0]].fwd == s[Next(0, n)];
    forall i | 0 <= i < |s'|
      ensures RingLink(h', s', i)
    {
      if i >= 2 {
        assert s'[i] == s[i - 1] && RingLink(h, s, i - 1);
        assert s'[Next(i, n + 1)] == s[Next(i - 1, n)];
      } else if i == 1 {
        assert s'[Next(1, n + 1)] == s[Next(0, n)];
      }
    }
  }

  predicate SameRing(h: Heap, h': Heap, a: Addr) {
    a in h && a in h' && h'[a].fwd == h[a].fwd && h'[a].prev == h[a].prev
  }

  lemma RingFrame(h: Heap, h': Heap, s: seq<Addr>)
    requires Ring(h, s) && forall x :: x in s ==> SameRing(h, h', x)
    ensures Ring(h', s)
  {
    forall i | 0 <= i < |s|
      ensures RingLink(h', s, i)
    {
      assert RingLink(h, s, i);
      assert s[i] in s && s[Next(i, |s|)] in s;
    }
  }

  // ----- the whole structure

  /** The ring headed by tree node a: free blocks of one size, of which only a is in the tree. */
  ghost predicate RingOk(h: Heap, a: Addr, s: seq<Addr>) {
    && Ring(h, s) && s[0] == a && a in h
    && (forall x :: x in s ==> x in h && x != NIL && h[x].size == h[a].size && h[x].magic == MagicF)
    && (forall x :: x in s && x != a ==> h[x].parent == NIL)
  }

  ghost predicate InRings(rings: map<Addr, seq<Addr>>, x: Addr) {
    exists a :: a in rings && x in rings[a]
  }

  ghost predicate RingsApart(rings: map<Addr, seq<Addr>>) {
    forall a, b, x :: a in rings && b in rings && a != b && x in rings[a] ==> x !in rings[b]
  }

  ghost predicate RingsOk(h: Heap, rings: map<Addr, seq<Addr>>) {
    (forall a :: a in rings ==> RingOk(h, a, rings[a])) && RingsApart(rings)
  }

  ghost predicate FreeOk(h: Heap, root: Addr, tree: Tree, rings: map<Addr, seq<Addr>>) {
    && IsTree(h, root, NIL, tree) && Ordered(h, tree)
    && rings.Keys == Nodes(tree)
    && RingsOk(h, rings)
  }

  /** What a free block looks like from the outside. */
  lemma FreeBlock(h: Heap, root: Addr, tree: Tree, rings: map<Addr, seq<Addr>>, x: Addr) returns (a: Addr, k: nat)
    requires FreeOk(h, root, tree, rings) && InRings(rings, x)
    ensures a in rings && k < |rings[a]| && rings[a][k] == x
    ensures x in h && h[x].magic == MagicF && (x in Nodes(tree) <==> k == 0) && (k == 0 <==> x == a)
    ensures x == NIL ==> false
    ensures h[x].fwd == x <==> |rings[a]| == 1
  {
    a :| a in rings && x in rings[a];
    var s := rings[a];
    k :| 0 <= k < |s| && s[k] == x;
    assert RingLink(h, s, k);
    if x in Nodes(tree) {
      assert x in rings && rings[x][0] == x;
    }
  }

  /** In a tree only the root has no parent. */
  lemma {:induction false} RootOnly(h: Heap, x: Addr, p: Addr, t: Tree, a: Addr)
    requires IsTree(h, x, p, t) && a in Nodes(t)
    ensures a in h && a != NIL && (h[a].parent == NIL ==> a == x && p == NIL)
    decreases t
  {
    if a in Nodes(t.l) { RootOnly(h, h[t.a].left, t.a, t.l, a); }
    if a in Nodes(t.r) { RootOnly(h, h[t.a].right, t.a, t.r, a); }
  }

  /** Rings other than those headed by a node of s are untouched. */
  ghost predicate OtherRings(h: Heap, h': Heap, rings: map<Addr, seq<Addr>>, a: Addr) {
    forall b, x :: b in rings && b != a && x in rings[b] ==>
      SameRing(h, h', x) && h'[x].size == h[x].size && h'[x].magic == h[x].magic && (x != b ==> h'[x].parent == h[x].parent)
  }

  lemma OtherRingsOk(h: Heap, h': Heap, rings: map<Addr, seq<Addr>>, a: Addr)
    requires (forall b :: b in rings ==> RingOk(h, b, rings[b])) && OtherRings(h, h', rings, a)
    ensures forall b :: b in rings && b != a ==> RingOk(h', b, rings[b])
  {
    forall b | b in rings && b != a
      ensures RingOk(h', b, rings[b])
    {
      assert rings[b][0] in rings[b];
      RingFrame(h, h', rings[b]);
    }
  }
}
