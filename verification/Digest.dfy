/**
 MD5 and SHA over a message that comes in pieces: whole blocks are taken as they come, what is
 left waits in a buffer, and the last call pads. Both have the same text but for the block
 function, the seed and the order of bytes, which the algorithm tells here.
 */
module Digest {
  import opened Octets
  import opened HashBlock

  const WORD := 0x1_0000_0000

  datatype Algorithm = Md5 | Sha

  function Seed(a: Algorithm): seq<bv32> {
    [0x67452301, 0xefcdab89, 0x98badcfe, 0x10325476] + if a.Md5? then [] else [0xc3d2e1f0]
  }

  function Size(a: Algorithm): nat {
    if a.Md5? then 4 else 5
  }

  function Compress(a: Algorithm, r: seq<bv32>, s: seq<Byte>): (t: seq<bv32>)
    requires |r| == Size(a) && |s| == 64
    ensures |t| == Size(a)
  {
    if a.Md5? then Md5Block(r, s) else ShaBlock(r, s)
  }

  /** The state after all blocks of s. */
  ghost function Blocks(a: Algorithm, r: seq<bv32>, s: seq<Byte>): (t: seq<bv32>)
    requires |r| == Size(a) && |s| % 64 == 0
    ensures |t| == Size(a)
  {
    if s == [] then r else Compress(a, Blocks(a, r, s[..|s| - 64]), s[|s| - 64..])
  }

  lemma {:induction false} BlocksAppend(a: Algorithm, r: seq<bv32>, s: seq<Byte>, t: seq<Byte>)
    requires |r| == Size(a) && |s| % 64 == 0 && |t| % 64 == 0
    ensures Blocks(a, r, s + t) == Blocks(a, Blocks(a, r, s), t)
    decreases |t|
  {
    hide Compress;
    if t == [] {
      assert s + t == s;
    } else {
      var k := |t| - 64;
      BlocksAppend(a, r, s, t[..k]);
      assert (s + t)[..|s + t| - 64] == s + t[..k] && (s + t)[|s + t| - 64..] == t[k..];
    }
  }

  function Zeros(n: nat): (s: seq<Byte>)
    ensures |s| == n
  {
    seq(n, _ => 0)
  }

  function Reversed(s: seq<Byte>): (r: seq<Byte>)
    ensures |r| == |s|
  {
    if s == [] then [] else Reversed(s[1..]) + [s[0]]
  }

  /** A number of n bytes, in the order of the algorithm. */
  function Ordered(a: Algorithm, x: nat, n: nat): (s: seq<Byte>)
    ensures |s| == n
  {
    if a.Md5? then LowBytes(x, n) else Reversed(LowBytes(x, n))
  }

  /** m, the bit 1, zeros up to eight bytes before the end of a block, and the number of bits of n bytes. */
  function Padded(a: Algorithm, m: seq<Byte>, n: nat): (s: seq<Byte>)
    ensures |s| % 64 == 0
  {
    m + [0x80] + Zeros((55 - |m|) % 64) + Ordered(a, 8 * n, 8)
  }

  function Result(a: Algorithm, r: seq<bv32>): seq<Byte> {
    if r == [] then [] else Result(a, r[..|r| - 1]) + Ordered(a, r[|r| - 1] as int, 4)
  }

  /** The digest, as the standards have it, of a message of the length they count. */
  ghost function DigestOf(a: Algorithm, m: seq<Byte>, n: nat): seq<Byte> {
    Result(a, Blocks(a, Seed(a), Padded(a, m, n)))
  }

  // ----- the count

  lemma {:induction false} ReversedTwice(s: seq<Byte>, t: seq<Byte>)
    requires Reversed(s) == Reversed(t)
    ensures s == t
  {
    assert |s| == |Reversed(s)| == |Reversed(t)| == |t|;
    if s != [] {
      var n := |s| - 1;
      assert Reversed(s)[..n] == Reversed(s[1..]) && Reversed(t)[..n] == Reversed(t[1..]);
      assert Reversed(s)[n] == s[0] && Reversed(t)[n] == t[0];
      ReversedTwice(s[1..], t[1..]);
      assert s == [s[0]] + s[1..] && t == [t[0]] + t[1..];
    }
  }

  lemma Powers8()
    ensures Power256(8) == 0x1_0000_0000_0000_0000 && Power256(4) == WORD
  {
    assert Power256(2) == 0x1_0000 && Power256(4) == 0x1_0000_0000 && Power256(6) == 0x1_0000_0000_0000;
  }

  /** The low bytes tell a number modulo their range. */
  lemma {:induction false} LowBytesMod(x: nat, n: nat)
    ensures Number(LowBytes(x, n)) == x % Power256(n)
  {
    if n == 0 {
    } else {
      LowBytesMod(x / 256, n - 1);
      assert LowBytes(x, n)[1..] == LowBytes(x / 256, n - 1);
      ModStep(x, Power256(n - 1));
    }
  }

  /**
   The length is counted in one word. What is hashed is what the standards hash, exactly when
   the true length, as far as their eight bytes tell it, fits the word.
   */
  lemma CountRight(a: Algorithm, m: seq<Byte>)
    ensures Padded(a, m, |m| % WORD) == Padded(a, m, |m|) <==> |m| % 0x2000_0000_0000_0000 < WORD
  {
    hide LowBytes, Number, Reversed, Power256;
    var x, y := 8 * (|m| % WORD), 8 * |m|;
    Powers8();
    LowBytesMod(x, 8);
    LowBytesMod(y, 8);
    Eights(|m|);
    NumberLowBytes(LowBytes(x, 8));
    NumberLowBytes(LowBytes(y, 8));
    assert LowBytes(x, 8) == LowBytes(y, 8) <==> |m| % 0x2000_0000_0000_0000 < WORD;
    var s, t := Padded(a, m, |m| % WORD), Padded(a, m, |m|);
    assert s[|s| - 8..] == Ordered(a, x, 8) && t[|s| - 8..] == Ordered(a, y, 8);
    assert s[..|s| - 8] == t[..|s| - 8] && s == s[..|s| - 8] + s[|s| - 8..] && t == t[..|s| - 8] + t[|s| - 8..];
    if Ordered(a, x, 8) == Ordered(a, y, 8) && a.Sha? { ReversedTwice(LowBytes(x, 8), LowBytes(y, 8)); }
  }

  /** A message of 2^32 bytes is hashed as if it had the length 0. */
  lemma CountWraps(a: Algorithm)
    ensures var m := Zeros(WORD); Padded(a, m, |m| % WORD) != Padded(a, m, |m|)
  {
    hide Padded, Zeros;
    CountRight(a, Zeros(WORD));
  }

  lemma Eights(n: nat)
    ensures 8 * (n % WORD) % 0x1_0000_0000_0000_0000 == 8 * n % 0x1_0000_0000_0000_0000 <==> n % 0x2000_0000_0000_0000 < WORD
  {
    var q, r := n / 0x2000_0000_0000_0000, n % 0x2000_0000_0000_0000;
    assert 8 * n == 0x1_0000_0000_0000_0000 * q + 8 * r;
    assert n % WORD == r % WORD;
  }

  // ----- the state between calls

  class DigestState {
    const algorithm: Algorithm
    var len: nat
    var state: seq<bv32>
    const buf: array<Byte>
    var blen: nat
    var seeded: bool

    constructor (a: Algorithm)
      ensures algorithm == a && fresh(buf) && Holds([])
    {
      algorithm, len, blen, seeded := a, 0, 0, false;
      state := if a.Md5? then [0, 0, 0, 0] else [0, 0, 0, 0, 0];
      buf := new Byte[128];
    }

    /** The whole blocks m are hashed. */
    ghost predicate Hashed(m: seq<Byte>)
      reads this`state, this`len
    {
      |m| % 64 == 0 && |state| == Size(algorithm) && len == |m| % WORD && state == Blocks(algorithm, Seed(algorithm), m)
    }

    /** The whole blocks of m are hashed, and the buffer holds the rest. */
    ghost predicate Holds(m: seq<Byte>)
      reads this, buf
    {
      buf.Length == 128 && blen <= |m| && (seeded || (m == [] && len == 0 && |state| == Size(algorithm)))
      && blen == |m| % 64 && buf[..blen] == m[|m| - blen..] && (seeded ==> Hashed(m[..|m| - blen]))
    }

    /** Takes n bytes, whole blocks, from p[at..]. */
    method Block(p: array<Byte>, at: nat, n: nat, ghost m: seq<Byte>)
      requires Hashed(m) && at + n <= p.Length && n % 64 == 0
      modifies this`state, this`len
      ensures Hashed(m + p[at..at + n])
    {
      hide Hashed;
      var q := 0;
      ghost var s := p[at..at + n];
      assert m + s[..0] == m;
      while q < n
        invariant 0 <= q <= n && q % 64 == 0 && Hashed(m + s[..q])
      {
        TakeBlock(p, at + q, m + s[..q]);
        assert m + s[..q] + p[at + q..at + q + 64] == m + s[..q + 64];
        q := q + 64;
      }
      assert s[..n] == s;
    }

    method TakeBlock(p: array<Byte>, at: nat, ghost m: seq<Byte>)
      requires Hashed(m) && at + 64 <= p.Length
      modifies this`state, this`len
      ensures Hashed(m + p[at..at + 64])
    {
      hide Compress, Seed, Blocks;
      HashedOn(m, p[at..at + 64]);
      OneMore(|m|);
      state := OneBlock(p, at);
      len := (len + 64) % WORD;
    }

    lemma OneMore(n: nat)
      requires n % 64 == 0
      ensures (n + 64) % 64 == 0 && (n % WORD + 64) % WORD == (n + 64) % WORD
    {
    }

    lemma HashedOn(m: seq<Byte>, b: seq<Byte>)
      requires |m| % 64 == 0 && |b| == 64
      ensures Blocks(algorithm, Seed(algorithm), m + b) == Compress(algorithm, Blocks(algorithm, Seed(algorithm), m), b)
    {
      hide Compress, Seed;
      SeedSize(algorithm);
      BlocksAppend(algorithm, Seed(algorithm), m, b);
      assert b[..|b| - 64] == [] && b[|b| - 64..] == b;
    }

    method OneBlock(p: array<Byte>, at: nat) returns (next: seq<bv32>)
      requires at + 64 <= p.Length && |state| == Size(algorithm)
      ensures next == Compress(algorithm, state, p[at..at + 64])
    {
      hide Md5Block, ShaBlock;
      match algorithm
      case Md5 => next := Md5Mix(p, at, state);
      case Sha => next := ShaMix(p, at, state);
    }

    method Start(ghost m: seq<Byte>)
      requires Holds(m)
      modifies this`state, this`seeded
      ensures Holds(m) && seeded
    {
      hide Seed;
      if !seeded {
        SeedSize(algorithm);
        state := Seed(algorithm);
        seeded := true;
      }
    }

    /** What is behind the whole blocks, after at most one block more. */
    lemma Grown(m: seq<Byte>, p: seq<Byte>)
      requires |m| % 64 + |p| <= 64
      ensures var t, k := m + p, |m| % 64;
              |t| % 64 == (if k + |p| == 64 then 0 else k + |p|)
              && t[..|t| - (k + |p|)] == m[..|m| - k] && t[|t| - (k + |p|)..] == m[|m| - k..] + p && t == m[..|m| - k] + (m[|m| - k..] + p)
    {
    }

    /** Fills up the block in the buffer, and takes it if it is full. */
    method FillUp(p: array<Byte>, n: nat, ghost m: seq<Byte>) returns (at: nat)
      requires Holds(m) && seeded && n <= p.Length && p != buf
      modifies this`state, this`len, this`blen, buf
      ensures at <= n && Holds(m + p[..at]) && seeded && (blen == 0 || at == n)
    {
      hide Hashed;
      at := 0;
      if blen != 0 {
        at := if n < 64 - blen then n else 64 - blen;
        ghost var rest := m[|m| - blen..];
        Grown(m, p[..at]);
        forall k | 0 <= k < at { buf[blen + k] := p[k]; }
        blen := blen + at;
        assert buf[..blen] == rest + p[..at];
        ghost var t, front := m + p[..at], m[..|m| - |rest|];
        assert t[..|t| - blen] == front;
        if blen == 64 {
          assert t == front + buf[0..64] && t[..|t| - 0] == t;
          Block(buf, 0, 64, front);
          blen := 0;
        }
      } else {
        assert m + p[..at] == m;
      }
    }

    /** Takes the whole blocks there are. */
    method WholeBlocks(p: array<Byte>, at: nat, n: nat, ghost m: seq<Byte>) returns (r: nat)
      requires Holds(m) && seeded && at <= n <= p.Length && (blen == 0 || at == n)
      modifies this`state, this`len
      ensures at <= r <= n && Holds(m + p[at..r]) && seeded && n - r < 64 && (blen == 0 || r == n) && blen == old(blen)
    {
      hide Hashed;
      var i := (n - at) / 64 * 64;
      assert m[..|m| - 0] == m;
      if i != 0 { Block(p, at, i, m); }
      r := at + i;
      ghost var t := m + p[at..r];
      assert blen == 0 ==> t[..|t| - blen] == t;
      assert blen != 0 ==> t == m;
    }

    /** Keeps what is left. */
    method Keep(p: array<Byte>, at: nat, n: nat, ghost m: seq<Byte>)
      requires Holds(m) && seeded && at <= n <= p.Length && n - at < 64 && (blen == 0 || at == n) && p != buf
      modifies this`blen, buf
      ensures Holds(m + p[at..n]) && seeded
    {
      hide Hashed;
      ghost var t := m + p[at..n];
      if at < n {
        Grown(m, p[at..n]);
        forall k | 0 <= k < n - at { buf[k] := p[at + k]; }
        blen := n - at;
        assert buf[..blen] == p[at..n] == m[|m| - 0..] + p[at..n];
      } else {
        assert t == m;
      }
    }

    /** Pads the k bytes that are left, in q, and gives the digest. */
    method Finish(q: array<Byte>, k: nat, digest: array<Byte>, ghost m: seq<Byte>, ghost rest: seq<Byte>)
      requires Hashed(m) && q.Length == 128 && k < 64 && q[..k] == rest && digest.Length == 4 * Size(algorithm) && q != digest
      modifies this`state, this`len, q, digest
      ensures digest[..] == DigestOf(algorithm, m + rest, |m + rest| % WORD)
    {
      hide Hashed, Blocks, Seed, Ordered, DigestOf;
      ghost var n := |m + rest| % WORD;
      var e := PadBlock(q, k, m, rest);
      assert q[0..e] == q[..e];
      Block(q, 0, e, m);
      assert m + q[0..e] == Padded(algorithm, m + rest, n);
      StateSize(m + q[0..e]);
      Encode(digest);
      Digested(m + rest, n, m + q[0..e]);
    }

    lemma StateSize(m: seq<Byte>)
      requires Hashed(m)
      ensures |state| == Size(algorithm) && |m| % 64 == 0
    {
    }

    lemma Digested(m: seq<Byte>, n: nat, t: seq<Byte>)
      requires Hashed(t) && t == Padded(algorithm, m, n)
      ensures Result(algorithm, state) == DigestOf(algorithm, m, n)
    {
    }

    /** The bit, the zeros and the count behind the k bytes. */
    method PadBlock(q: array<Byte>, k: nat, ghost m: seq<Byte>, ghost rest: seq<Byte>) returns (e: nat)
      requires Hashed(m) && q.Length == 128 && k < 64 && q[..k] == rest
      modifies q
      ensures e <= 128 && e % 64 == 0 && m + q[..e] == Padded(algorithm, m + rest, |m + rest| % WORD)
    {
      hide Hashed, Padded, Ordered;
      StateSize(m);
      var i := if k < 56 then 56 - k else 120 - k;
      forall j | k <= j < k + i { q[j] := 0; }
      q[k] := 0x80;
      ghost var body := q[..k + i];
      assert body[..k] == rest;
      Body(m, rest, body, i);
      var n := AddLength(k, m);
      PutCount(q, k + i, n);
      e := k + i + 8;
      assert q[..k + i] == body;
      assert q[..e][k + i..] == q[k + i..e] && q[..e][..k + i] == body;
      PaddedIs(m, rest, body, q[..e], n);
    }

    /** The length with the k bytes that are left. */
    method AddLength(k: nat, ghost m: seq<Byte>) returns (n: nat)
      requires Hashed(m)
      ensures n < WORD && forall r: seq<Byte> :: |r| == k ==> n == |m + r| % WORD
    {
      hide Blocks, Seed;
      n := (len + k) % WORD;
    }

    lemma PaddedIs(m: seq<Byte>, rest: seq<Byte>, body: seq<Byte>, q: seq<Byte>, n: nat)
      requires m + body == m + rest + [0x80] + Zeros((55 - |m + rest|) % 64)
      requires |q| == |body| + 8 && q[..|body|] == body && q[|body|..] == Ordered(algorithm, 8 * n, 8)
      ensures m + q == Padded(algorithm, m + rest, n)
    {
      hide Ordered, Zeros;
      assert q == body + q[|body|..];
      assert m + q == m + body + q[|body|..];
    }

    lemma Body(m: seq<Byte>, rest: seq<Byte>, body: seq<Byte>, i: nat)
      requires |m| % 64 == 0 && |rest| < 64 && i == (if |rest| < 56 then 56 - |rest| else 120 - |rest|) && |body| == |rest| + i
      requires body[..|rest|] == rest && body[|rest|] == 0x80 && forall j :: |rest| < j < |body| ==> body[j] == 0
      ensures m + body == m + rest + [0x80] + Zeros((55 - |m + rest|) % 64)
    {
      assert (55 - |m + rest|) % 64 == i - 1;
      assert body == rest + [0x80] + Zeros(i - 1);
    }

    /** The count of bits, from the count of bytes, as two words. */
    method PutCount(q: array<Byte>, at: nat, n: nat)
      requires at + 8 <= q.Length && n < WORD
      modifies q
      ensures q[at..at + 8] == Ordered(algorithm, 8 * n, 8)
      ensures q[..at] == old(q[..at])
    {
      hide LowBytes, Reversed;
      var low, high := 8 * n % WORD, n / 0x2000_0000;
      Halves(n);
      EightBytes(8 * n);
      if algorithm.Md5? {
        PutWord(q, at, low);
        PutWord(q, at + 4, high);
        assert q[at..at + 8] == q[at..at + 4] + q[at + 4..at + 8];
      } else {
        PutWord(q, at, high);
        PutWord(q, at + 4, low);
        assert q[at..at + 8] == q[at..at + 4] + q[at + 4..at + 8];
        ReversedAppend(LowBytes(low, 4), LowBytes(high, 4));
      }
    }

    method PutWord(q: array<Byte>, at: nat, x: nat)
      requires at + 4 <= q.Length && x < WORD
      modifies q
      ensures q[at..at + 4] == Ordered(algorithm, x, 4)
      ensures forall j :: 0 <= j < at || at + 4 <= j < q.Length ==> q[j] == old(q[j])
    {
      FourBytes(x);
      ReversedFour(x % 256, x / 0x100 % 256, x / 0x1_0000 % 256, x / 0x100_0000 % 256);
      if algorithm.Md5? {
        q[at], q[at + 1], q[at + 2], q[at + 3] := x % 256, x / 0x100 % 256, x / 0x1_0000 % 256, x / 0x100_0000 % 256;
      } else {
        q[at], q[at + 1], q[at + 2], q[at + 3] := x / 0x100_0000 % 256, x / 0x1_0000 % 256, x / 0x100 % 256, x % 256;
      }
    }

    /** The words of the state, in the order of the algorithm. */
    method Encode(digest: array<Byte>)
      requires |state| == Size(algorithm) && digest.Length == 4 * Size(algorithm)
      modifies digest
      ensures digest[..] == Result(algorithm, state)
    {
      hide Ordered;
      for k := 0 to Size(algorithm)
        invariant digest[..4 * k] == Result(algorithm, state[..k])
      {
        ghost var done := digest[..4 * k];
        PutWord(digest, 4 * k, state[k] as int);
        assert digest[..4 * k] == done;
        assert digest[..4 * (k + 1)] == done + digest[4 * k..4 * k + 4];
        assert state[..k + 1][..k] == state[..k];
      }
      assert state[..Size(algorithm)] == state && digest[..4 * Size(algorithm)] == digest[..];
    }

    /**
     Takes the n bytes at p. Without digest the message goes on; with it the message ends, and
     the digest is that of all that was taken since the state was made.
     */
    method Update(p: array<Byte>, n: nat, digest: array?<Byte>, ghost m: seq<Byte>)
      requires Holds(m) && n <= p.Length && p != buf
      requires digest != null ==> digest.Length == 4 * Size(algorithm) && digest != buf
      modifies this`state, this`len, this`blen, this`seeded, buf, digest
      ensures digest == null ==> Holds(m + p[..n])
      ensures digest != null ==> digest[..] == DigestOf(algorithm, m + old(p[..n]), |m + old(p[..n])| % WORD)
    {
      hide Holds, Hashed, DigestOf;
      Start(m);
      var at := FillUp(p, n, m);
      var r := WholeBlocks(p, at, n, m + p[..at]);
      assert m + p[..at] + p[at..r] == m + p[..r];
      assert m + p[..r] + p[r..n] == m + p[..n];
      if digest == null {
        Keep(p, r, n, m + p[..r]);
      } else {
        Last(p, r, n, digest, m + p[..r]);
      }
    }

    /** The last call: what is left is in the buffer, or is copied to one of its own. */
    method Last(p: array<Byte>, at: nat, n: nat, digest: array<Byte>, ghost m: seq<Byte>)
      requires Holds(m) && seeded && at <= n <= p.Length && n - at < 64 && (blen == 0 || at == n) && p != buf
      requires digest.Length == 4 * Size(algorithm) && digest != buf
      modifies this`state, this`len, buf, digest
      ensures digest[..] == DigestOf(algorithm, m + old(p[at..n]), |m + old(p[at..n])| % WORD)
    {
      hide Hashed, DigestOf;
      if blen != 0 {
        assert p[at..n] == [] && m + [] == m;
        assert m[..|m| - blen] + m[|m| - blen..] == m;
        Finish(buf, blen, digest, m[..|m| - blen], m[|m| - blen..]);
      } else {
        var left := new Byte[128];
        forall k | 0 <= k < n - at { left[k] := p[at + k]; }
        assert left[..n - at] == p[at..n] && m[..|m| - 0] == m;
        assert p[at..n] == old(p[at..n]);
        Finish(left, n - at, digest, m, p[at..n]);
      }
    }
  }

  lemma Halves(n: nat)
    requires n < WORD
    ensures LowBytes(8 * n, 4) == LowBytes(8 * n % WORD, 4) && 8 * n / 0x1_0000_0000 == n / 0x2000_0000
  {
    hide LowBytes;
    Powers8();
    LowBytesLow(8 * n, 4);
  }

  /** The low bytes of a number are those of its low part. */
  lemma {:induction false} LowBytesLow(x: nat, n: nat)
    ensures LowBytes(x % Power256(n), n) == LowBytes(x, n)
  {
    if n == 0 {
    } else {
      var q := x / 256 % Power256(n - 1);
      ModStep(x, Power256(n - 1));
      hide Power256;
      FirstDigit(x % 256, q);
      LowBytesLow(x / 256, n - 1);
    }
  }

  lemma FirstDigit(r: Byte, q: nat)
    ensures (r + 256 * q) % 256 == r && (r + 256 * q) / 256 == q
  {
  }

  lemma {:induction false} ReversedAppend(s: seq<Byte>, t: seq<Byte>)
    ensures Reversed(s + t) == Reversed(t) + Reversed(s)
  {
    if s == [] {
      assert s + t == t;
    } else {
      assert (s + t)[1..] == s[1..] + t;
      ReversedAppend(s[1..], t);
    }
  }

  lemma ReversedFour(a: Byte, b: Byte, c: Byte, d: Byte)
    ensures Reversed([a, b, c, d]) == [d, c, b, a]
  {
    ReversedAppend([a, b], [c, d]);
    ReversedAppend([a], [b]);
    ReversedAppend([c], [d]);
    assert [a, b] + [c, d] == [a, b, c, d] && [a] + [b] == [a, b] && [c] + [d] == [c, d];
    ReversedOne(a);
    ReversedOne(b);
    ReversedOne(c);
    ReversedOne(d);
  }

  lemma ReversedOne(a: Byte)
    ensures Reversed([a]) == [a]
  {
    assert [a][1..] == [];
  }

  /** The eight bytes of a number, lowest first. */
  function Eight(x: nat): seq<Byte> {
    [x % 0x100, x / 0x100 % 0x100, x / 0x1_0000 % 0x100, x / 0x100_0000 % 0x100,
     x / 0x1_0000_0000 % 0x100, x / 0x100_0000_0000 % 0x100, x / 0x1_0000_0000_0000 % 0x100, x / 0x100_0000_0000_0000 % 0x100]
  }

  lemma EightAre(x: nat)
    ensures LowBytes(x, 8) == Eight(x)
  {
    hide LowBytes;
    var y := x / 0x1_0000_0000;
    EightBytes(x);
    FourBytes(x);
    FourBytes(y);
    assert y / 0x100 == x / 0x100_0000_0000 && y / 0x1_0000 == x / 0x1_0000_0000_0000 && y / 0x100_0000 == x / 0x100_0000_0000_0000;
  }

  lemma {:induction false} ReversedBytes(s: seq<Byte>, j: nat)
    requires j < |s|
    ensures Reversed(s)[j] == s[|s| - 1 - j]
  {
    if j < |s| - 1 {
      ReversedBytes(s[1..], j);
    }
  }

  /**
   The padded message byte by byte: the message, 0x80, zeros to eight bytes before the end of the
   first block that has room, and the count of bits, lowest byte first for MD5, last for SHA.
   */
  lemma PaddedBytes(a: Algorithm, m: seq<Byte>, n: nat)
    ensures var s, x := Padded(a, m, n), 8 * n;
            var k := |s| - 8;
            |m| + 9 <= |s| < |m| + 73 && |s| % 64 == 0 && s[..|m|] == m && s[|m|] == 0x80 && (forall j :: |m| < j < k ==> s[j] == 0)
            && s[if a.Md5? then k else k + 7] == x % 0x100
            && s[if a.Md5? then k + 1 else k + 6] == x / 0x100 % 0x100
            && s[if a.Md5? then k + 2 else k + 5] == x / 0x1_0000 % 0x100
            && s[if a.Md5? then k + 3 else k + 4] == x / 0x100_0000 % 0x100
            && s[if a.Md5? then k + 4 else k + 3] == x / 0x1_0000_0000 % 0x100
            && s[if a.Md5? then k + 5 else k + 2] == x / 0x100_0000_0000 % 0x100
            && s[if a.Md5? then k + 6 else k + 1] == x / 0x1_0000_0000_0000 % 0x100
            && s[if a.Md5? then k + 7 else k] == x / 0x100_0000_0000_0000 % 0x100
  {
    hide LowBytes, Reversed;
    var s, b := Padded(a, m, n), LowBytes(8 * n, 8);
    EightAre(8 * n);
    assert s[|s| - 8..] == Ordered(a, 8 * n, 8);
    if a.Sha? {
      forall i | |s| - 8 <= i < |s| ensures s[i] == b[|s| - 1 - i] {
        ReversedBytes(b, i - (|s| - 8));
        assert s[i] == s[|s| - 8..][i - (|s| - 8)];
      }
    }
  }

  lemma SeedSize(a: Algorithm)
    ensures |Seed(a)| == Size(a)
  {
  }

  // ----- any cutting of the message

  ghost function Joined(ps: seq<array<Byte>>): seq<Byte>
    reads ps
  {
    if ps == [] then [] else Joined(ps[..|ps| - 1]) + ps[|ps| - 1][..]
  }

  /**
   However a message is cut into calls, the digest is that of the whole, padded as the standard
   has it, when the length fits the count.
   */
  method InPieces(a: Algorithm, pieces: seq<array<Byte>>, last: array<Byte>, digest: array<Byte>)
    requires digest.Length == 4 * Size(a)
    modifies digest
    ensures var m := old(Joined(pieces)) + old(last[..]);
            digest[..] == DigestOf(a, m, |m| % WORD) && (|m| < WORD ==> digest[..] == DigestOf(a, m, |m|))
  {
    hide DigestOf, DigestState.Holds;
    var s := new DigestState(a);
    assert pieces[..0] == [];
    for k := 0 to |pieces|
      invariant s.Holds(Joined(pieces[..k])) && s.algorithm == a && fresh(s) && fresh(s.buf)
      modifies s, s.buf
    {
      ghost var m := Joined(pieces[..k]);
      assert pieces[..k + 1][..k] == pieces[..k];
      assert pieces[k][..pieces[k].Length] == pieces[k][..];
      s.Update(pieces[k], pieces[k].Length, null, m);
    }
    assert pieces[..|pieces|] == pieces && last[..last.Length] == last[..];
    ghost var m := Joined(pieces);
    assert m == old(Joined(pieces)) && last[..] == old(last[..]);
    s.Update(last, last.Length, digest, m);
  }
}
