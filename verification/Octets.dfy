/** Bytes, and numbers stored least significant byte first. */
module Octets {

  type Byte = x: int | 0 <= x < 256

  function Power256(n: nat): (p: nat)
    ensures p > 0
  {
    if n == 0 then 1 else 256 * Power256(n - 1)
  }

  /** The n low bytes of x, least significant first. */
  function LowBytes(x: nat, n: nat): (s: seq<Byte>)
    ensures |s| == n
  {
    if n == 0 then [] else [x % 256] + LowBytes(x / 256, n - 1)
  }

  function Number(s: seq<Byte>): (x: nat) {
    if s == [] then 0 else s[0] + 256 * Number(s[1..])
  }

  lemma {:induction false} NumberBound(s: seq<Byte>)
    ensures Number(s) < Power256(|s|)
  {
    if s == [] {
    } else {
      NumberBound(s[1..]);
    }
  }

  /** The low bytes tell a number that fits, and what does not fit from what does. */
  lemma {:induction false} LowBytesNumber(x: nat, n: nat)
    ensures Number(LowBytes(x, n)) == x <==> x < Power256(n)
  {
    if n == 0 {
    } else {
      LowBytesNumber(x / 256, n - 1);
      assert LowBytes(x, n)[1..] == LowBytes(x / 256, n - 1);
      NumberBound(LowBytes(x, n));
    }
  }

  lemma {:induction false} NumberLowBytes(s: seq<Byte>)
    ensures LowBytes(Number(s), |s|) == s
  {
    if s == [] {
    } else {
      NumberLowBytes(s[1..]);
      assert Number(s) / 256 == Number(s[1..]);
    }
  }

  lemma FourBytes(x: nat)
    ensures LowBytes(x, 4) == [x % 256, x / 0x100 % 256, x / 0x1_0000 % 256, x / 0x100_0000 % 256]
  {
    var a, b, c := x / 256, x / 256 / 256, x / 256 / 256 / 256;
    assert LowBytes(c, 1) == [c % 256] + LowBytes(c / 256, 0);
    assert LowBytes(b, 2) == [b % 256] + LowBytes(c, 1);
    assert LowBytes(a, 3) == [a % 256] + LowBytes(b, 2);
    assert LowBytes(x, 4) == [x % 256] + LowBytes(a, 3);
  }

  /** x without its k low bytes. */
  function HighPart(x: nat, k: nat): nat {
    if k == 0 then x else HighPart(x / 256, k - 1)
  }

  lemma {:induction false} LowBytesSplit(x: nat, k: nat, n: nat)
    ensures LowBytes(x, k + n) == LowBytes(x, k) + LowBytes(HighPart(x, k), n)
  {
    if k == 0 {
    } else {
      LowBytesSplit(x / 256, k - 1, n);
    }
  }

  /** Eight bytes are four and four. */
  lemma EightBytes(x: nat)
    ensures LowBytes(x, 8) == LowBytes(x, 4) + LowBytes(x / 0x1_0000_0000, 4)
  {
    hide LowBytes;
    LowBytesSplit(x, 4, 4);
    Quarter(x);
  }

  lemma Quarter(x: nat)
    ensures HighPart(x, 4) == x / 0x1_0000_0000
  {
    var a := x / 256;
    var b := a / 256;
    var c := b / 256;
    assert HighPart(x, 4) == HighPart(a, 3) && HighPart(a, 3) == HighPart(b, 2) && HighPart(b, 2) == HighPart(c, 1) && HighPart(c, 1) == HighPart(c / 256, 0);
    assert x == 0x1_0000 * b + 256 * (a % 256) + x % 256;
    assert x == 0x100_0000 * c + 0x1_0000 * (b % 256) + 256 * (a % 256) + x % 256;
    assert x == 0x1_0000_0000 * (c / 256) + 0x100_0000 * (c % 256) + 0x1_0000 * (b % 256) + 256 * (a % 256) + x % 256;
  }

  // ----- remainders

  lemma ModStep(x: int, p: nat)
    requires p > 0
    ensures x % 256 + 256 * (x / 256 % p) == x % (256 * p)
  {
    var y, b := x / 256, x % 256;
    var h, l := y / p, y % p;
    assert y == h * p + l;
    assert x == h * (256 * p) + (256 * l + b) by { Move(h, p); }
    RemainderIs(x, h, 256 * p, 256 * l + b);
  }

  lemma Move(h: int, p: int)
    ensures 256 * (h * p) == h * (256 * p)
  {
  }

  lemma RemainderIs(x: int, h: int, m: int, r: int)
    requires 0 < m && x == h * m + r && 0 <= r < m
    ensures x % m == r
  {
    var k := x / m;
    var d := k - h;
    assert d * m == k * m - h * m;
    assert d * m == r - x % m;
    if d >= 1 { AtLeast(d, m); }
    if d <= -1 { AtLeast(-d, m); }
  }

  lemma AtLeast(d: int, m: int)
    requires d >= 1 && m > 0
    ensures d * m >= m
  {
  }
}
