/**
 The on-medium format of tinyfs: 48-byte blocks whose bytes sum to zero modulo 256.
 A block is a directory entry, a full data block, the last block of a file, or junk.
 */
module TinyfsBlock {
  import opened Octets

  const BLEN := 48
  const DLEN := 44
  const NLEN := 28
  const NOTABNO := 0xffff
  const TAGDIR := 100   // 'd'
  const TAGDATA := 68   // 'D'
  const TAGEND := 101   // 'e'

  type Block = b: seq<Byte> | |b| == BLEN witness seq(BLEN, _ => 0)

  /** A C string: what precedes the terminating NUL. */
  type Name = s: seq<Byte> | 0 !in s witness []

  /** What a block means to the file system. */
  datatype Content =
    | Dir(name: Name, pin: nat, dbno: nat)
    | Data(next: nat, data: seq<Byte>)
    | End(data: seq<Byte>)
    | Junk

  function Zeros(n: nat): (s: seq<Byte>)
    ensures |s| == n
  {
    seq(n, _ => 0)
  }

  function Gets(s: seq<Byte>): (x: nat)
    requires |s| == 2
    ensures x < 0x10000
  {
    (s[0] as int) + 256 * (s[1] as int)
  }

  function Puts(x: nat): (s: seq<Byte>)
    requires x < 0x10000
    ensures |s| == 2 && Gets(s) == x
  {
    [x % 256, x / 256]
  }

  function CStr(s: seq<Byte>): (n: Name)
    ensures |n| <= |s| && n == s[..|n|] && (|n| < |s| ==> s[|n|] == 0)
  {
    if s == [] || s[0] == 0 then []
    else [s[0]] + CStr(s[1..])
  }

  function Take<T>(s: seq<T>, n: nat): (t: seq<T>)
    ensures |t| <= n && t <= s
  {
    if |s| <= n then s else s[..n]
  }

  function Sum(s: seq<Byte>): nat {
    if s == [] then 0 else Sum(s[..|s| - 1]) + s[|s| - 1]
  }

  method Checksum(b: Block) returns (s: Byte)
    ensures s == Sum(b) % 256
  {
    s := 0;
    for p := 0 to BLEN
      invariant s == Sum(b[..p]) % 256
    {
      assert b[..p + 1][..p] == b[..p];
      s := (s + b[p]) % 256;
    }
    assert b[..BLEN] == b;
  }

  /** What a block with a right sum means. */
  function Parsed(b: Block, nblocks: nat): Content {
    var x := Gets(b[1..3]);
    if b[0] == TAGDIR && x < nblocks then Dir(CStr(b[5..33]), Gets(b[3..5]), x)
    else if b[0] == TAGDATA && x < nblocks then Data(x, b[3..47])
    else if b[0] == TAGEND && x <= DLEN then End(b[3..3 + x])
    else Junk
  }

  /** The bytes of a block sum to zero. */
  predicate Sealed(b: Block) {
    Sum(b) % 256 == 0
  }

  function Decode(b: Block, nblocks: nat): Content {
    if Sealed(b) then Parsed(b, nblocks) else Junk
  }

  /** Completes 47 bytes with the byte that makes the sum vanish. */
  function Seal(body: seq<Byte>): (b: Block)
    requires |body| == BLEN - 1
    ensures b[..BLEN - 1] == body && Sum(b) % 256 == 0
  {
    var b := body + [(256 - Sum(body) % 256) % 256];
    assert b[..BLEN - 1] == body;
    b
  }

  function DataBlock(next: nat, data: seq<Byte>): (b: Block)
    requires next < 0x10000 && |data| <= DLEN
  {
    Seal([TAGDATA] + Puts(next) + data + Zeros(DLEN - |data|))
  }

  function EndBlock(data: seq<Byte>): (b: Block)
    requires |data| <= DLEN
  {
    Seal([TAGEND] + Puts(|data|) + data + Zeros(DLEN - |data|))
  }

  function DirBlock(name: Name, pin: nat, dbno: nat): (b: Block)
    requires pin < 0x10000 && dbno < 0x10000
  {
    var n := Take(name, NLEN - 1);
    Seal([TAGDIR] + Puts(dbno) + Puts(pin) + n + Zeros(42 - |n|))
  }

  /** What freefile writes over a directory block. */
  function Freed(): (b: Block) {
    seq(BLEN, _ => 0x55)
  }

  // ----- every writer is inverted by the one reader

  lemma DataRoundTrip(next: nat, data: seq<Byte>, nblocks: nat)
    requires next < nblocks <= 0xffff && |data| <= DLEN
    ensures Decode(DataBlock(next, data), nblocks) == Data(next, data + Zeros(DLEN - |data|))
  {
    var body := [TAGDATA] + Puts(next) + data + Zeros(DLEN - |data|);
    var b := DataBlock(next, data);
    assert b[..47] == body;
    assert b[0] == body[0];
    assert b[1..3] == b[..47][1..3] == Puts(next);
    assert b[3..47] == b[..47][3..] == data + Zeros(DLEN - |data|);
  }

  lemma EndRoundTrip(data: seq<Byte>, nblocks: nat)
    requires |data| <= DLEN
    ensures Decode(EndBlock(data), nblocks) == End(data)
  {
    var body := [TAGEND] + Puts(|data|) + data + Zeros(DLEN - |data|);
    var b := EndBlock(data);
    assert b[..47] == body;
    assert b[0] == body[0];
    assert b[1..3] == b[..47][1..3] == Puts(|data|);
    assert b[3..3 + |data|] == b[..47][3..3 + |data|] == data;
  }

  lemma CStrOfPadded(n: Name, k: nat)
    ensures CStr(n + Zeros(k)) == n
  {
    if n == [] {
      assert n + Zeros(k) == Zeros(k);
    } else {
      assert (n + Zeros(k))[1..] == n[1..] + Zeros(k);
      CStrOfPadded(n[1..], k);
    }
  }

  /** A directory block whose file has no data yet is invisible to a scan. */
  lemma DirRoundTrip(name: Name, pin: nat, dbno: nat, nblocks: nat)
    requires pin < 0x10000 && dbno < 0x10000 && nblocks <= 0xffff
    ensures Decode(DirBlock(name, pin, dbno), nblocks) ==
            if dbno < nblocks then Dir(Take(name, NLEN - 1), pin, dbno) else Junk
  {
    var n: Name := Take(name, NLEN - 1);
    var body := [TAGDIR] + Puts(dbno) + Puts(pin) + n + Zeros(42 - |n|);
    var b := DirBlock(name, pin, dbno);
    assert b[..47] == body;
    assert b[0] == body[0];
    assert b[1..3] == b[..47][1..3] == Puts(dbno);
    assert b[3..5] == b[..47][3..5] == Puts(pin);
    assert b[5..33] == b[..47][5..33] == n + Zeros(28 - |n|);
    CStrOfPadded(n, 28 - |n|);
  }

  lemma {:induction false} SumOfFill(k: nat)
    ensures Sum(seq(k, _ => 0x55)) == 0x55 * k
  {
    if k > 0 {
      var s: seq<Byte> := seq(k, _ => 0x55);
      assert s[..k - 1] == seq(k - 1, _ => 0x55);
      SumOfFill(k - 1);
    }
  }

  /** The pattern freefile writes is never a valid block. */
  lemma FreedIsJunk(nblocks: nat)
    ensures Decode(Freed(), nblocks) == Junk
    ensures forall k :: 0 <= k < 48 ==> Freed()[k] == 0x55
  {
    SumOfFill(BLEN);
  }

  // ----- damage

  lemma {:induction false} SumChanged(s: seq<Byte>, i: nat, x: Byte)
    requires i < |s|
    ensures Sum(s[i := x]) == Sum(s) - s[i] + x
  {
    var n := |s| - 1;
    var t := s[i := x];
    if i == n {
      assert t[..n] == s[..n];
    } else {
      assert t[..n] == s[..n][i := x];
      SumChanged(s[..n], i, x);
    }
  }

  /** One damaged byte is always found: the block is no block at all to a scan. */
  lemma DamageIsFound(b: Block, i: nat, x: Byte, nblocks: nat)
    requires Sealed(b) && i < BLEN && x != b[i]
    ensures !Sealed(b[i := x]) && Decode(b[i := x], nblocks) == Junk
  {
    SumChanged(b, i, x);
    OffByLess(Sum(b), x - b[i]);
  }

  lemma OffByLess(s: nat, d: int)
    requires s % 256 == 0 && -256 < d < 256 && d != 0
    ensures (s + d) % 256 != 0
  {
  }

  // ----- the bytes on the medium

  /** A directory entry: 'd', the first data block and the owner low byte first, the name, zeros, the sum. */
  lemma DirBytes(name: Name, pin: nat, dbno: nat)
    requires pin < 0x10000 && dbno < 0x10000
    ensures var b, n := DirBlock(name, pin, dbno), if |name| <= 27 then name else name[..27];
            && Sum(b) % 256 == 0 && b[0] == 100 && b[1] == dbno % 256 && b[2] == dbno / 256 && b[3] == pin % 256 && b[4] == pin / 256
            && b[5..5 + |n|] == n && forall k :: 5 + |n| <= k < 47 ==> b[k] == 0
  {
    var n: Name := Take(name, NLEN - 1);
    var body := [TAGDIR] + Puts(dbno) + Puts(pin) + n + Zeros(42 - |n|);
    var b := DirBlock(name, pin, dbno);
    assert b[..47] == body;
    assert forall k :: 0 <= k < 47 ==> b[k] == body[k];
    assert body[5..5 + |n|] == n && b[5..5 + |n|] == b[..47][5..5 + |n|];
  }

  /** A data block: 'D', the next block low byte first, the data, zeros, the sum; an end block has 'e' and the length instead. */
  lemma DataBytes(next: nat, data: seq<Byte>)
    requires next < 0x10000 && |data| <= 44
    ensures var b := DataBlock(next, data);
            && Sum(b) % 256 == 0 && b[0] == 68 && b[1] == next % 256 && b[2] == next / 256
            && b[3..3 + |data|] == data && forall k :: 3 + |data| <= k < 47 ==> b[k] == 0
    ensures var b := EndBlock(data);
            && Sum(b) % 256 == 0 && b[0] == 101 && b[1] == |data| && b[2] == 0
            && b[3..3 + |data|] == data && forall k :: 3 + |data| <= k < 47 ==> b[k] == 0
  {
    FilledBytes(TAGDATA, next, data);
    FilledBytes(TAGEND, |data|, data);
  }

  lemma FilledBytes(tag: Byte, x: nat, data: seq<Byte>)
    requires x < 0x10000 && |data| <= DLEN
    ensures var b := Seal([tag] + Puts(x) + data + Zeros(DLEN - |data|));
            && Sum(b) % 256 == 0 && b[0] == tag && b[1] == x % 256 && b[2] == x / 256
            && b[3..3 + |data|] == data && forall k :: 3 + |data| <= k < 47 ==> b[k] == 0
  {
    var body := [tag] + Puts(x) + data + Zeros(DLEN - |data|);
    var b := Seal(body);
    assert b[..47] == body;
    assert forall k :: 0 <= k < 47 ==> b[k] == body[k];
    assert body[3..3 + |data|] == data && b[3..3 + |data|] == b[..47][3..3 + |data|];
  }

  /** What a block on the medium is taken for, byte by byte. */
  lemma DecodedBytes(b: Block, nblocks: nat)
    ensures var c, x := Decode(b, nblocks), (b[1] as int) + 256 * (b[2] as int);
            && (c.Dir? <==> Sum(b) % 256 == 0 && b[0] == 100 && x < nblocks)
            && (c.Data? <==> Sum(b) % 256 == 0 && b[0] == 68 && x < nblocks)
            && (c.End? <==> Sum(b) % 256 == 0 && b[0] == 101 && x <= 44)
            && (c.Dir? ==> c.dbno == x && c.pin == (b[3] as int) + 256 * (b[4] as int) && |c.name| <= 28 && c.name == b[5..5 + |c.name|]
                           && (|c.name| < 28 ==> b[5 + |c.name|] == 0))
            && (c.Data? ==> c.next == x && c.data == b[3..47])
            && (c.End? ==> c.data == b[3..3 + x])
  {
    var n := CStr(b[5..33]);
    assert b[5..33][..|n|] == b[5..5 + |n|];
    assert |n| < 28 ==> b[5..33][|n|] == b[5 + |n|];
  }
}
