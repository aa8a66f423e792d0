/**
 Karatsuba products and squares, in place: the upper half of the product area holds the
 differences of the halves while the lower half is in use, and a scratch area of the same
 size holds their product.
 */
module Karatsuba {
  import opened Words
  import opened LongMult
  import opened CoreMult
  import opened WordSums

  /** n is the cutoff, doubled any number of times. */
  predicate Doubled(n: nat, cutoff: nat)
    decreases n
  {
    0 < cutoff <= n && (n == cutoff || (n % 2 == 0 && Doubled(n / 2, cutoff)))
  }

  lemma Halves(n: nat, cutoff: nat)
    requires Doubled(n, cutoff)
    ensures 0 < cutoff <= n && (n != cutoff ==> n % 2 == 0 && Doubled(n / 2, cutoff))
  {
  }

  // ----- parts of arrays

  /** The number in words lo to hi. */
  function Part(s: seq<Word>, lo: nat, hi: nat): nat
    requires lo <= hi <= |s|
  {
    Val(s[lo..hi])
  }

  lemma PartCut(s: seq<Word>, lo: nat, mid: nat, hi: nat)
    requires lo <= mid <= hi <= |s|
    ensures Part(s, lo, hi) == Part(s, lo, mid) + Pow(mid - lo) * Part(s, mid, hi)
  {
    hide Val, Pow;
    ValSplit(s[lo..hi], mid - lo);
    assert s[lo..hi][..mid - lo] == s[lo..mid] && s[lo..hi][mid - lo..] == s[mid..hi];
  }

  lemma PartBound(s: seq<Word>, lo: nat, hi: nat)
    requires lo <= hi <= |s|
    ensures Part(s, lo, hi) < Pow(hi - lo)
  {
    ValBound(s[lo..hi]);
  }

  /** As Kept, for two stretches if both are in one array. */
  predicate Only(s: seq<Word>, t: seq<Word>, lo: nat, n: nat, same: bool, lo': nat, n': nat) {
    |s| == |t| && forall i :: 0 <= i < |s| && !(lo <= i < lo + n) && !(same && lo' <= i < lo' + n') ==> t[i] == s[i]
  }

  /** Arrays c and t, perhaps the same, went from c0 and t0 to c1 and t1 by writes to one stretch of each. */
  predicate Wrote(c0: seq<Word>, t0: seq<Word>, c1: seq<Word>, t1: seq<Word>, same: bool, co: nat, cn: nat, to: nat, tn: nat) {
    && Only(c0, c1, co, cn, same, to, tn) && Only(t0, t1, to, tn, same, co, cn)
    && (same ==> c0 == t0 && c1 == t1)
  }

  /** What is clear of what was written is the same. */
  lemma PartKept(c0: seq<Word>, t0: seq<Word>, c1: seq<Word>, t1: seq<Word>, same: bool, co: nat, cn: nat, to: nat, tn: nat, lo: nat, hi: nat)
    requires Wrote(c0, t0, c1, t1, same, co, cn, to, tn) && lo <= hi <= |c0|
    requires (hi <= co || co + cn <= lo) && (same ==> hi <= to || to + tn <= lo)
    ensures |c1| == |c0| && Part(c1, lo, hi) == Part(c0, lo, hi)
  {
    assert c1[lo..hi] == c0[lo..hi];
  }

  lemma ScratchKept(c0: seq<Word>, t0: seq<Word>, c1: seq<Word>, t1: seq<Word>, same: bool, co: nat, cn: nat, to: nat, tn: nat, lo: nat, hi: nat)
    requires Wrote(c0, t0, c1, t1, same, co, cn, to, tn) && lo <= hi <= |t0|
    requires (hi <= to || to + tn <= lo) && (same ==> hi <= co || co + cn <= lo)
    ensures |t1| == |t0| && Part(t1, lo, hi) == Part(t0, lo, hi)
  {
    assert t1[lo..hi] == t0[lo..hi];
  }

  predicate Inside(p: nat, n: nat, q: nat, m: nat) {
    q <= p && p + n <= q + m
  }

  lemma WroteThen(c0: seq<Word>, t0: seq<Word>, c1: seq<Word>, t1: seq<Word>, c2: seq<Word>, t2: seq<Word>, same: bool,
                  co: nat, cn: nat, to: nat, tn: nat, co': nat, cn': nat, to': nat, tn': nat)
    requires Wrote(c0, t0, c1, t1, same, co, cn, to, tn) && Wrote(c1, t1, c2, t2, same, co', cn', to', tn')
    requires Inside(co', cn', co, cn) && Inside(to', tn', to, tn)
    ensures Wrote(c0, t0, c2, t2, same, co, cn, to, tn)
  {
  }

  /** Writes to c alone. */
  lemma WroteProduct(c0: seq<Word>, t0: seq<Word>, c1: seq<Word>, t1: seq<Word>, same: bool, co: nat, cn: nat, to: nat, tn: nat, p: nat, q: nat)
    requires Kept(c0, c1, p, q) && co <= p <= q <= co + cn && (if same then c0 == t0 && c1 == t1 else t0 == t1)
    ensures Wrote(c0, t0, c1, t1, same, co, cn, to, tn)
  {
  }

  /** Writes to both halves of the scratch area. */
  lemma WroteScratch(c0: seq<Word>, t0: seq<Word>, c1: seq<Word>, t1: seq<Word>, same: bool, co: nat, cn: nat, to: nat, n: nat)
    requires Wrote(t0, t0, t1, t1, true, to, n, to + n, n) && (if same then c0 == t0 && c1 == t1 else c0 == c1)
    ensures Wrote(c0, t0, c1, t1, same, co, cn, to, 2 * n)
  {
  }

  /** What the middle of a product of halves gets beyond the outer products. */
  function Middle(low: int, high: int, d: int, minus: bool): int {
    if minus then low + high - d else low + high + d
  }

  /** c := u - v or u + v, with the carry left over. */
  method AddOrSub(c: array<Word>, co: nat, u: array<Word>, uo: nat, v: array<Word>, vo: nat, n: nat, minus: bool) returns (carry: int)
    requires co + n <= c.Length && uo + n <= u.Length && vo + n <= v.Length
    requires Clear(c, co, n, u, uo, n) && Clear(c, co, n, v, vo, n)
    modifies c
    ensures -1 <= carry <= 1
    ensures Val(c[co..co + n]) + carry * Pow(n) ==
              if minus then old(Val(u[uo..uo + n])) - old(Val(v[vo..vo + n])) else old(Val(u[uo..uo + n])) + old(Val(v[vo..vo + n]))
    ensures Kept(old(c[..]), c[..], co, co + n)
  {
    hide Val, Pow;
    if minus {
      carry := SubWords(c, co, u, uo, v, vo, n);
    } else {
      carry := AddWords(c, co, u, uo, v, vo, n);
    }
  }

  /** The middle 2 * h words of c get their share, by way of the upper half of t; the carry is returned. */
  method MixMiddle(c: array<Word>, co: nat, t: array<Word>, to: nat, h: nat, minus: bool) returns (carry: Word)
    requires 0 < h && co + 4 * h <= c.Length && to + 4 * h <= t.Length && Clear(c, co, 4 * h, t, to, 4 * h)
    requires 0 <= Middle(Part(c[..], co, co + 2 * h), Part(c[..], co + 2 * h, co + 4 * h), Part(t[..], to, to + 2 * h), minus)
    modifies c, t
    ensures Part(c[..], co + h, co + 3 * h) + carry * Pow(2 * h) == Part(old(c[..]), co + h, co + 3 * h) +
              Middle(Part(old(c[..]), co, co + 2 * h), Part(old(c[..]), co + 2 * h, co + 4 * h), Part(old(t[..]), to, to + 2 * h), minus)
    ensures Wrote(old(c[..]), old(t[..]), c[..], t[..], t == c, co + h, 2 * h, to + 2 * h, 2 * h)
  {
    hide Part, Val, Pow, Kept, Wrote;
    ghost var c0, t0 := c[..], t[..];
    var carryABAB := SumOuter(c, co, t, to, h);
    ghost var c1, t1 := c[..], t[..];
    WroteUpper(c0, t0, c1, t1, t == c, co + h, 2 * h, to + 2 * h, 2 * h);
    FrontKept(t0, t1, to + 2 * h, to + 4 * h, to, to + 2 * h);
    var k := AddOrSub(c, co + h, t, to + 2 * h, t, to, 2 * h, minus);
    ghost var c2, t2 := c[..], t[..];
    WroteProduct(c1, t1, c2, t2, t == c, co + h, 2 * h, to + 2 * h, 2 * h, co + h, co + 3 * h);
    WroteThen(c0, t0, c1, t1, c2, t2, t == c, co + h, 2 * h, to + 2 * h, 2 * h, co + h, 2 * h, to + 2 * h, 2 * h);
    PartsAre(c2, co + h, co + 3 * h, t1, to, to + 2 * h, to + 4 * h);
    PartBound(c2, co + h, co + 3 * h);
    MiddleCarry(Part(c2, co + h, co + 3 * h), k, carryABAB, Pow(2 * h), Part(c0, co + h, co + 3 * h),
                Middle(Part(c0, co, co + 2 * h), Part(c0, co + 2 * h, co + 4 * h), Part(t0, to, to + 2 * h), minus));
    carry := k + carryABAB;
  }

  /** The outer products and the middle of c, added up in the upper half of t. */
  method SumOuter(c: array<Word>, co: nat, t: array<Word>, to: nat, h: nat) returns (carry: Word)
    requires 0 < h && co + 4 * h <= c.Length && to + 4 * h <= t.Length && Clear(c, co, 4 * h, t, to, 4 * h)
    modifies t
    ensures carry <= 2
    ensures Part(t[..], to + 2 * h, to + 4 * h) + carry * Pow(2 * h) ==
              Part(old(c[..]), co, co + 2 * h) + Part(old(c[..]), co + h, co + 3 * h) + Part(old(c[..]), co + 2 * h, co + 4 * h)
    ensures Kept(old(t[..]), t[..], to + 2 * h, to + 4 * h)
  {
    hide Val, Pow, Kept;
    carry := Add3Words(t, to + 2 * h, c, co, co + h, co + 2 * h, 2 * h);
  }

  lemma PartsAre(c: seq<Word>, lo: nat, hi: nat, t: seq<Word>, a: nat, b: nat, d: nat)
    requires lo <= hi <= |c| && a <= b <= d <= |t|
    ensures Part(c, lo, hi) == Val(c[lo..hi]) && Part(t, a, b) == Val(t[a..b]) && Part(t, b, d) == Val(t[b..d])
  {
  }

  /** Writes to t alone. */
  lemma WroteUpper(c0: seq<Word>, t0: seq<Word>, c1: seq<Word>, t1: seq<Word>, same: bool, co: nat, cn: nat, to: nat, tn: nat)
    requires Kept(t0, t1, to, to + tn) && (if same then c0 == t0 && c1 == t1 else c0 == c1)
    ensures Wrote(c0, t0, c1, t1, same, co, cn, to, tn)
  {
  }

  lemma MiddleCarry(v: int, carry: int, cab: int, p: int, m: int, mid: int)
    requires v + carry * p + cab * p == m + mid && 0 <= m + mid && 0 <= v < p
    ensures 0 <= carry + cab && v + (carry + cab) * p == m + mid
  {
    MulDist(p, carry, cab);
    if carry + cab < 0 { MulLess(carry + cab, -1, p); }
  }

  lemma Cross4(a0: int, a1: int, b0: int, b1: int)
    ensures (a1 - a0) * (b0 - b1) == a1 * b0 - a1 * b1 - a0 * b0 + a0 * b1
  {
    MulDist(b0 - b1, a1, -a0);
    MulDist(a1, b0, -b1);
    MulDist(-a0, b0, -b1);
  }

  /** The signed product of the differences turns the outer products into the mixed ones. */
  lemma MixedProducts(a0: nat, a1: nat, b0: nat, b1: nat, upA: bool, upB: bool, da: int, db: int)
    requires upA == (a1 >= a0) && upB == (b0 >= b1)
    requires da == (if upA then a1 - a0 else a0 - a1) && db == (if upB then b0 - b1 else b1 - b0)
    ensures Middle(a0 * b0, a1 * b1, da * db, upA != upB) == a0 * b1 + a1 * b0
    ensures 0 <= a0 * b1 + a1 * b0
  {
    Cross4(a0, a1, b0, b1);
    Signs(a1 - a0, b0 - b1, da, db);
    MulLess(0, a0, b1);
    MulLess(0, a1, b0);
  }

  lemma Signs(x: int, y: int, da: int, db: int)
    requires (da == x || da == -x) && (db == y || db == -y)
    ensures da * db == if (da == x) == (db == y) || x == 0 || y == 0 then x * y else -(x * y)
  {
  }

  lemma ProductOfHalves(a0: int, a1: int, b0: int, b1: int, p: int)
    ensures (a0 + p * a1) * (b0 + p * b1) == (a0 * b0 + (p * p) * (a1 * b1)) + p * (a0 * b1 + a1 * b0)
  {
    MulDist(b0 + p * b1, a0, p * a1);
    MulDist(a0, b0, p * b1);
    MulDist(p * a1, b0, p * b1);
    MulDist(p, a0 * b1, a1 * b0);
    Shift(p, a0, b1);
    Shift2(p, a1, b0, b1);
  }

  lemma Shift(p: int, x: int, y: int)
    ensures x * (p * y) == p * (x * y)
  {
    MulAssoc(x, p, y);
    MulAssoc(p, x, y);
  }

  lemma Shift2(p: int, x: int, y: int, z: int)
    ensures (p * x) * y == p * (x * y) && (p * x) * (p * z) == (p * p) * (x * z)
  {
    MulAssoc(p, x, y);
    Shift(p, p * x, z);
    MulAssoc(p, x, z);
    MulAssoc(p, p, x * z);
  }

  /** The differences of the halves, in the upper half of c. */
  method Differences(a: array<Word>, ao: nat, b: array<Word>, bo: nat, c: array<Word>, co: nat, h: nat) returns (signA: bool, signB: bool)
    requires 0 < h && ao + 2 * h <= a.Length && bo + 2 * h <= b.Length && co + 4 * h <= c.Length
    requires Clear(c, co, 4 * h, a, ao, 2 * h) && Clear(c, co, 4 * h, b, bo, 2 * h)
    modifies c
    ensures var a0, a1 := Part(old(a[..]), ao, ao + h), Part(old(a[..]), ao + h, ao + 2 * h);
            signA == (a1 >= a0) && Part(c[..], co + 3 * h, co + 4 * h) == if signA then a1 - a0 else a0 - a1
    ensures var b0, b1 := Part(old(b[..]), bo, bo + h), Part(old(b[..]), bo + h, bo + 2 * h);
            signB == (b0 >= b1) && Part(c[..], co + 2 * h, co + 3 * h) == if signB then b0 - b1 else b1 - b0
    ensures Kept(old(c[..]), c[..], co + 2 * h, co + 4 * h)
  {
    hide Val;
    signA := AbsDiff(c, co + 3 * h, a, ao + h, a, ao, h);
    ghost var da := c[co + 3 * h..co + 4 * h];
    assert b[bo..bo + h] == old(b[bo..bo + h]) && b[bo + h..bo + 2 * h] == old(b[bo + h..bo + 2 * h]);
    signB := AbsDiff(c, co + 2 * h, b, bo, b, bo + h, h);
    assert c[co + 3 * h..co + 4 * h] == da;
  }

  // ----- the recursion

  /** z is the product of x and y. */
  predicate IsProduct(z: int, x: int, y: int) {
    z == x * y
  }

  /** What c, holding the outer products, is with the middle added; d is the product of the differences. */
  function Combined(c: seq<Word>, co: nat, d: int, h: nat, minus: bool): int
    requires co + 4 * h <= |c|
  {
    Part(c, co, co + 4 * h) + Pow(h) * Middle(Part(c, co, co + 2 * h), Part(c, co + 2 * h, co + 4 * h), d, minus)
  }

  predicate Combinable(c: seq<Word>, co: nat, d: int, h: nat, minus: bool)
    requires co + 4 * h <= |c|
  {
    && 0 <= Middle(Part(c, co, co + 2 * h), Part(c, co + 2 * h, co + 4 * h), d, minus)
    && Combined(c, co, d, h, minus) < Pow(4 * h)
  }

  /** The product of the differences is what makes the outer products into the product. */
  lemma Karatsuba(a: seq<Word>, ao: nat, b: seq<Word>, bo: nat, c: seq<Word>, co: nat, da: nat, db: nat, d: nat, h: nat, upA: bool, upB: bool)
    requires ao + 2 * h <= |a| && bo + 2 * h <= |b| && co + 4 * h <= |c|
    requires IsProduct(Part(c, co, co + 2 * h), Part(a, ao, ao + h), Part(b, bo, bo + h))
    requires IsProduct(Part(c, co + 2 * h, co + 4 * h), Part(a, ao + h, ao + 2 * h), Part(b, bo + h, bo + 2 * h))
    requires IsProduct(d, da, db)
    requires var a0, a1 := Part(a, ao, ao + h), Part(a, ao + h, ao + 2 * h);
             upA == (a1 >= a0) && da == if upA then a1 - a0 else a0 - a1
    requires var b0, b1 := Part(b, bo, bo + h), Part(b, bo + h, bo + 2 * h);
             upB == (b0 >= b1) && db == if upB then b0 - b1 else b1 - b0
    ensures Combinable(c, co, d, h, upA != upB)
    ensures IsProduct(Combined(c, co, d, h, upA != upB), Part(a, ao, ao + 2 * h), Part(b, bo, bo + 2 * h))
  {
    hide Part, Pow, Middle;
    var a0, a1, b0, b1 := Part(a, ao, ao + h), Part(a, ao + h, ao + 2 * h), Part(b, bo, bo + h), Part(b, bo + h, bo + 2 * h);
    PartCut(a, ao, ao + h, ao + 2 * h);
    PartCut(b, bo, bo + h, bo + 2 * h);
    PartCut(c, co, co + 2 * h, co + 4 * h);
    PowAdd(h, h);
    MixedProducts(a0, a1, b0, b1, upA, upB, da, db);
    ProductOfHalves(a0, a1, b0, b1, Pow(h));
    PartBound(a, ao, ao + 2 * h);
    PartBound(b, bo, bo + 2 * h);
    PowAdd(2 * h, 2 * h);
    ProductBound(Part(a, ao, ao + 2 * h), Part(b, bo, bo + 2 * h), Pow(2 * h));
  }

  lemma ProductBound(x: nat, y: nat, p: nat)
    requires x < p && y < p
    ensures x * y < p * p
  {
    MulLess(y, p, x);
    MulLessStrict(x, p, p);
  }

  /** Adds the middle to the outer products in c; t holds the product of the differences, and is scratch. */
  method Combine(c: array<Word>, co: nat, t: array<Word>, to: nat, h: nat, minus: bool)
    requires 0 < h && co + 4 * h <= c.Length && to + 4 * h <= t.Length && Clear(c, co, 4 * h, t, to, 4 * h)
    requires Combinable(c[..], co, Part(t[..], to, to + 2 * h), h, minus)
    modifies c, t
    ensures Part(c[..], co, co + 4 * h) == Combined(old(c[..]), co, Part(old(t[..]), to, to + 2 * h), h, minus)
    ensures Wrote(old(c[..]), old(t[..]), c[..], t[..], t == c, co, 4 * h, to, 4 * h)
  {
    hide Part, Val, Pow, Middle, Kept, Wrote;
    ghost var c0, t0 := c[..], t[..];
    var carry := MixMiddle(c, co, t, to, h, minus);
    ghost var c1, t1 := c[..], t[..];
    PartKept(c0, t0, c1, t1, t == c, co + h, 2 * h, to + 2 * h, 2 * h, co, co + h);
    PartKept(c0, t0, c1, t1, t == c, co + h, 2 * h, to + 2 * h, 2 * h, co + 3 * h, co + 4 * h);
    var out := SpreadCarry(c, co + 3 * h, co + 4 * h, h, carry);
    ghost var c2, t2 := c[..], t[..];
    WroteProduct(c1, t1, c2, t2, t == c, co, 4 * h, to, 4 * h, co + 3 * h, co + 4 * h);
    FrontKept(c1, c2, co + 3 * h, co + 4 * h, co, co + h);
    FrontKept(c1, c2, co + 3 * h, co + 4 * h, co + h, co + 3 * h);
    WroteWider(c0, t0, c1, t1, t == c, co + h, 2 * h, to + 2 * h, 2 * h, co, 4 * h, to, 4 * h);
    WroteThen(c0, t0, c1, t1, c2, t2, t == c, co, 4 * h, to, 4 * h, co, 4 * h, to, 4 * h);
    Whole(c0, co, h);
    Whole(c2, co, h);
    ghost var mid := Middle(Part(c0, co, co + 2 * h), Part(c0, co + 2 * h, co + 4 * h), Part(t0, to, to + 2 * h), minus);
    Added(Part(c0, co, co + h), Part(c0, co + h, co + 3 * h), Part(c0, co + 3 * h, co + 4 * h),
          Part(c2, co + h, co + 3 * h), Part(c2, co + 3 * h, co + 4 * h), carry, out, mid, h, Part(c0, co, co + 4 * h), Part(c2, co, co + 4 * h));
  }

  lemma FrontKept(s: seq<Word>, t: seq<Word>, lo: nat, hi: nat, p: nat, q: nat)
    requires Kept(s, t, lo, hi) && p <= q <= lo && q <= |s|
    ensures |t| == |s| && Part(t, p, q) == Part(s, p, q)
  {
    assert t[p..q] == s[p..q];
  }

  lemma WroteWider(c0: seq<Word>, t0: seq<Word>, c1: seq<Word>, t1: seq<Word>, same: bool,
                   co: nat, cn: nat, to: nat, tn: nat, co': nat, cn': nat, to': nat, tn': nat)
    requires Wrote(c0, t0, c1, t1, same, co, cn, to, tn) && Inside(co, cn, co', cn') && Inside(to, tn, to', tn')
    ensures Wrote(c0, t0, c1, t1, same, co', cn', to', tn')
  {
  }

  /** A number in its lower quarter, its middle half and its upper quarter. */
  lemma Whole(c: seq<Word>, co: nat, h: nat)
    requires co + 4 * h <= |c|
    ensures Part(c, co, co + 4 * h) == Part(c, co, co + h) + Pow(h) * (Part(c, co + h, co + 3 * h) + Pow(2 * h) * Part(c, co + 3 * h, co + 4 * h))
  {
    hide Part, Pow;
    PartCut(c, co, co + h, co + 4 * h);
    PartCut(c, co + h, co + 3 * h, co + 4 * h);
  }

  lemma Added(low: nat, m: nat, high: nat, m': nat, high': nat, carry: nat, out: nat, mid: nat, h: nat, c: nat, c': nat)
    requires c == low + Pow(h) * (m + Pow(2 * h) * high) && c' == low + Pow(h) * (m' + Pow(2 * h) * high')
    requires m' + carry * Pow(2 * h) == m + mid && high' + out * Pow(h) == high + carry
    requires c + Pow(h) * mid < Pow(4 * h)
    ensures c' == c + Pow(h) * mid
  {
    hide Pow;
    var p, q := Pow(h), Pow(2 * h);
    PowAdd(h, 2 * h);
    PowAdd(h, 3 * h);
    calc {
      m' + q * high';
      { MulDist(q, high', out * p); MulDist(q, high, carry); }
      (m + mid) + q * high - q * (out * p);
    }
    MulDist(p, (m + mid) + q * high - q * (out * p), q * (out * p));
    MulDist(p, m + q * high, mid);
    Overflow(p, q, out);
    assert c' + out * Pow(4 * h) == c + p * mid;
    if out > 0 { MulLess(1, out, Pow(4 * h)); }
  }

  lemma Overflow(p: int, q: int, out: int)
    ensures p * (q * (out * p)) == out * (p * (p * q))
  {
    MulAssoc(q, out, p);
    MulAssoc(out, q, p);
    MulAssoc(p, out, q * p);
    MulAssoc(out, p, p * q);
  }

  method SpreadCarry(c: array<Word>, p: nat, q: nat, h: nat, carry: Word) returns (out: Word)
    requires p + h == q <= c.Length
    modifies c
    ensures Part(c[..], p, q) + out * Pow(h) == Part(old(c[..]), p, q) + carry
    ensures Kept(old(c[..]), c[..], p, q)
  {
    out := CarryUp(c, p, h, carry, h);
  }

  /** Operands of n words, a product area and a scratch area of 2 * n words; neither area meets anything else. */
  predicate Layout(a: array<Word>, ao: nat, b: array<Word>, bo: nat, c: array<Word>, co: nat, t: array<Word>, to: nat, n: nat) {
    && ao + n <= a.Length && bo + n <= b.Length && co + 2 * n <= c.Length && to + 2 * n <= t.Length
    && Clear(c, co, 2 * n, a, ao, n) && Clear(c, co, 2 * n, b, bo, n) && Clear(c, co, 2 * n, t, to, 2 * n)
    && Clear(t, to, 2 * n, a, ao, n) && Clear(t, to, 2 * n, b, bo, n)
  }

  lemma SubLayouts(a: array<Word>, ao: nat, b: array<Word>, bo: nat, c: array<Word>, co: nat, t: array<Word>, to: nat, h: nat)
    requires Layout(a, ao, b, bo, c, co, t, to, 2 * h)
    ensures Layout(c, co + 3 * h, c, co + 2 * h, t, to, t, to + 2 * h, h)
    ensures Layout(a, ao, b, bo, c, co, t, to + 2 * h, h)
    ensures Layout(a, ao + h, b, bo + h, c, co + 2 * h, t, to + 2 * h, h)
    ensures ao + 2 * h <= a.Length && bo + 2 * h <= b.Length && co + 4 * h <= c.Length && to + 4 * h <= t.Length
    ensures t == c ==> co + 4 * h <= to || to + 4 * h <= co
    ensures Clear(c, co, 4 * h, t, to, 4 * h) && Clear(c, co, 4 * h, a, ao, 2 * h) && Clear(c, co, 4 * h, b, bo, 2 * h)
  {
  }

  /** The halves of the operands are what they were. */
  lemma OperandKept(a: array<Word>, ao: nat, c: array<Word>, co: nat, t: array<Word>, to: nat, h: nat, a0: seq<Word>, c0: seq<Word>, t0: seq<Word>)
    requires ao + 2 * h <= a.Length && co + 4 * h <= c.Length && to + 4 * h <= t.Length && |c0| == c.Length && |t0| == t.Length
    requires Clear(c, co, 4 * h, a, ao, 2 * h) && Clear(t, to, 4 * h, a, ao, 2 * h)
    requires Wrote(c0, t0, c[..], t[..], t == c, co, 4 * h, to, 4 * h)
    requires if a == c then a0 == c0 else if a == t then a0 == t0 else a0 == a[..]
    ensures |a0| == a.Length
    ensures Part(a[..], ao, ao + h) == Part(a0, ao, ao + h) && Part(a[..], ao + h, ao + 2 * h) == Part(a0, ao + h, ao + 2 * h)
  {
    hide Part, Only;
    if a == c {
      PartKept(c0, t0, c[..], t[..], t == c, co, 4 * h, to, 4 * h, ao, ao + h);
      PartKept(c0, t0, c[..], t[..], t == c, co, 4 * h, to, 4 * h, ao + h, ao + 2 * h);
    } else if a == t {
      ScratchKept(c0, t0, c[..], t[..], t == c, co, 4 * h, to, 4 * h, ao, ao + h);
      ScratchKept(c0, t0, c[..], t[..], t == c, co, 4 * h, to, 4 * h, ao + h, ao + 2 * h);
    }
  }

  lemma OperandsKept(a: array<Word>, ao: nat, b: array<Word>, bo: nat, c: array<Word>, co: nat, t: array<Word>, to: nat, h: nat,
                     a0: seq<Word>, b0: seq<Word>, c0: seq<Word>, t0: seq<Word>)
    requires Layout(a, ao, b, bo, c, co, t, to, 2 * h) && |a0| == a.Length && |b0| == b.Length && |c0| == c.Length && |t0| == t.Length
    requires Wrote(c0, t0, c[..], t[..], t == c, co, 4 * h, to, 4 * h)
    requires if a == c then a0 == c0 else if a == t then a0 == t0 else a0 == a[..]
    requires if b == c then b0 == c0 else if b == t then b0 == t0 else b0 == b[..]
    ensures ao + 2 * h <= a.Length && bo + 2 * h <= b.Length
    ensures Part(a[..], ao, ao + h) == Part(a0, ao, ao + h) && Part(a[..], ao + h, ao + 2 * h) == Part(a0, ao + h, ao + 2 * h)
    ensures Part(b[..], bo, bo + h) == Part(b0, bo, bo + h) && Part(b[..], bo + h, bo + 2 * h) == Part(b0, bo + h, bo + 2 * h)
  {
    hide Part, Wrote;
    OperandKept(a, ao, c, co, t, to, h, a0, c0, t0);
    OperandKept(b, bo, c, co, t, to, h, b0, c0, t0);
  }

  /** c := a * b, with t for scratch. */
  method RecursiveMultiply(a: array<Word>, ao: nat, b: array<Word>, bo: nat, c: array<Word>, co: nat, t: array<Word>, to: nat,
                           n: nat, cutoff: nat)
    requires Doubled(n, cutoff) && Layout(a, ao, b, bo, c, co, t, to, n)
    modifies c, t
    ensures IsProduct(Part(c[..], co, co + 2 * n), Part(old(a[..]), ao, ao + n), Part(old(b[..]), bo, bo + n))
    ensures Wrote(old(c[..]), old(t[..]), c[..], t[..], t == c, co, 2 * n, to, 2 * n)
    decreases n, 3
  {
    hide Val, Pow, Combined, Combinable, Kept, Wrote, Doubled;
    Halves(n, cutoff);
    if n == cutoff {
      BigMultN(a, ao, b, bo, c, co, n);
      WroteProduct(old(c[..]), old(t[..]), c[..], t[..], t == c, co, 2 * n, to, 2 * n, co, co + 2 * n);
      return;
    }
    var h := n / 2;
    assert n == 2 * h && 2 * n == 4 * h;
    Multiply(a, ao, b, bo, c, co, t, to, h, cutoff);
  }

  method Multiply(a: array<Word>, ao: nat, b: array<Word>, bo: nat, c: array<Word>, co: nat, t: array<Word>, to: nat, h: nat, cutoff: nat)
    requires Doubled(h, cutoff) && Layout(a, ao, b, bo, c, co, t, to, 2 * h)
    modifies c, t
    ensures ao + 2 * h <= a.Length && bo + 2 * h <= b.Length && co + 4 * h <= c.Length
    ensures IsProduct(Part(c[..], co, co + 4 * h), Part(old(a[..]), ao, ao + 2 * h), Part(old(b[..]), bo, bo + 2 * h))
    ensures Wrote(old(c[..]), old(t[..]), c[..], t[..], t == c, co, 4 * h, to, 4 * h)
    decreases 2 * h, 2
  {
    hide Part, Val, Pow, Combined, Combinable, IsProduct, Kept, Wrote, Layout, Doubled;
    SubLayouts(a, ao, b, bo, c, co, t, to, h);
    Halves(h, cutoff);
    ghost var a0, b0, c0, t0 := a[..], b[..], c[..], t[..];
    var signA, signB := Differences(a, ao, b, bo, c, co, h);
    ghost var c1, t1 := c[..], t[..];
    WroteProduct(c0, t0, c1, t1, t == c, co, 4 * h, to, 4 * h, co + 2 * h, co + 4 * h);
    OperandsKept(a, ao, b, bo, c, co, t, to, h, a0, b0, c0, t0);
    ThreeProducts(a, ao, b, bo, c, co, t, to, h, cutoff);
    ghost var c2, t2 := c[..], t[..];
    WroteThen(c0, t0, c1, t1, c2, t2, t == c, co, 4 * h, to, 4 * h, co, 4 * h, to, 4 * h);
    Karatsuba(a0, ao, b0, bo, c2, co, Part(c1, co + 3 * h, co + 4 * h), Part(c1, co + 2 * h, co + 3 * h), Part(t2, to, to + 2 * h), h, signA, signB);
    Combine(c, co, t, to, h, signA != signB);
    WroteThen(c0, t0, c2, t2, c[..], t[..], t == c, co, 4 * h, to, 4 * h, co, 4 * h, to, 4 * h);
  }

  /** The product of the differences, into the scratch area, then the outer products. */
  method ThreeProducts(a: array<Word>, ao: nat, b: array<Word>, bo: nat, c: array<Word>, co: nat, t: array<Word>, to: nat, h: nat, cutoff: nat)
    requires Doubled(h, cutoff) && Layout(a, ao, b, bo, c, co, t, to, 2 * h)
    modifies c, t
    ensures ao + 2 * h <= a.Length && bo + 2 * h <= b.Length && co + 4 * h <= c.Length && to + 4 * h <= t.Length
    ensures IsProduct(Part(t[..], to, to + 2 * h), Part(old(c[..]), co + 3 * h, co + 4 * h), Part(old(c[..]), co + 2 * h, co + 3 * h))
    ensures IsProduct(Part(c[..], co, co + 2 * h), Part(old(a[..]), ao, ao + h), Part(old(b[..]), bo, bo + h))
    ensures IsProduct(Part(c[..], co + 2 * h, co + 4 * h), Part(old(a[..]), ao + h, ao + 2 * h), Part(old(b[..]), bo + h, bo + 2 * h))
    ensures Wrote(old(c[..]), old(t[..]), c[..], t[..], t == c, co, 4 * h, to, 4 * h)
    decreases 2 * h, 1
  {
    hide Part, Val, Pow, IsProduct, Wrote, Layout, Doubled;
    Halves(h, cutoff);
    SubLayouts(a, ao, b, bo, c, co, t, to, h);
    ghost var a0, b0, c1, t1 := a[..], b[..], c[..], t[..];
    RecursiveMultiply(c, co + 3 * h, c, co + 2 * h, t, to, t, to + 2 * h, h, cutoff);
    ghost var c2, t2 := c[..], t[..];
    WroteScratch(c1, t1, c2, t2, t == c, co, 4 * h, to, 2 * h);
    OperandsKept(a, ao, b, bo, c, co, t, to, h, a0, b0, c1, t1);
    OuterProducts(a, ao, b, bo, c, co, t, to, h, cutoff);
    ghost var c3, t3 := c[..], t[..];
    WroteThen(c1, t1, c2, t2, c3, t3, t == c, co, 4 * h, to, 4 * h, co, 4 * h, to + 2 * h, 2 * h);
    ScratchKept(c2, t2, c3, t3, t == c, co, 4 * h, to + 2 * h, 2 * h, to, to + 2 * h);
  }

  method OuterProducts(a: array<Word>, ao: nat, b: array<Word>, bo: nat, c: array<Word>, co: nat, t: array<Word>, to: nat, h: nat, cutoff: nat)
    requires Doubled(h, cutoff) && Layout(a, ao, b, bo, c, co, t, to, 2 * h)
    modifies c, t
    ensures ao + 2 * h <= a.Length && bo + 2 * h <= b.Length && co + 4 * h <= c.Length && to + 4 * h <= t.Length
    ensures IsProduct(Part(c[..], co, co + 2 * h), Part(old(a[..]), ao, ao + h), Part(old(b[..]), bo, bo + h))
    ensures IsProduct(Part(c[..], co + 2 * h, co + 4 * h), Part(old(a[..]), ao + h, ao + 2 * h), Part(old(b[..]), bo + h, bo + 2 * h))
    ensures Wrote(old(c[..]), old(t[..]), c[..], t[..], t == c, co, 4 * h, to + 2 * h, 2 * h)
    decreases 2 * h, 0
  {
    hide Part, Val, Pow, IsProduct, Wrote, Layout, Doubled;
    Halves(h, cutoff);
    SubLayouts(a, ao, b, bo, c, co, t, to, h);
    ghost var a0, b0, c2, t2 := a[..], b[..], c[..], t[..];
    RecursiveMultiply(a, ao, b, bo, c, co, t, to + 2 * h, h, cutoff);
    ghost var c3, t3 := c[..], t[..];
    WroteWider(c2, t2, c3, t3, t == c, co, 2 * h, to + 2 * h, 2 * h, co, 4 * h, to, 4 * h);
    WroteWider(c2, t2, c3, t3, t == c, co, 2 * h, to + 2 * h, 2 * h, co, 4 * h, to + 2 * h, 2 * h);
    OperandsKept(a, ao, b, bo, c, co, t, to, h, a0, b0, c2, t2);
    RecursiveMultiply(a, ao + h, b, bo + h, c, co + 2 * h, t, to + 2 * h, h, cutoff);
    ghost var c4, t4 := c[..], t[..];
    WroteThen(c2, t2, c3, t3, c4, t4, t == c, co, 4 * h, to + 2 * h, 2 * h, co + 2 * h, 2 * h, to + 2 * h, 2 * h);
    PartKept(c3, t3, c4, t4, t == c, co + 2 * h, 2 * h, to + 2 * h, 2 * h, co, co + 2 * h);
  }

  // ----- squares

  /** The square of the difference is what makes the outer squares into the square. */
  lemma SquareHalves(a: seq<Word>, ao: nat, c: seq<Word>, co: nat, da: nat, d: nat, h: nat)
    requires ao + 2 * h <= |a| && co + 4 * h <= |c|
    requires IsProduct(Part(c, co, co + 2 * h), Part(a, ao, ao + h), Part(a, ao, ao + h))
    requires IsProduct(Part(c, co + 2 * h, co + 4 * h), Part(a, ao + h, ao + 2 * h), Part(a, ao + h, ao + 2 * h))
    requires IsProduct(d, da, da)
    requires var a0, a1 := Part(a, ao, ao + h), Part(a, ao + h, ao + 2 * h); da == if a1 >= a0 then a1 - a0 else a0 - a1
    ensures Combinable(c, co, d, h, true)
    ensures IsProduct(Combined(c, co, d, h, true), Part(a, ao, ao + 2 * h), Part(a, ao, ao + 2 * h))
  {
    hide Part, Pow;
    var a0, a1 := Part(a, ao, ao + h), Part(a, ao + h, ao + 2 * h);
    if a0 == a1 {
      Karatsuba(a, ao, a, ao, c, co, da, da, d, h, true, true);
      assert d == 0;
    } else {
      Karatsuba(a, ao, a, ao, c, co, da, da, d, h, a1 >= a0, a0 >= a1);
    }
  }

  lemma SquareLayouts(a: array<Word>, ao: nat, c: array<Word>, co: nat, t: array<Word>, to: nat, h: nat)
    requires Layout(a, ao, a, ao, c, co, t, to, 2 * h)
    ensures Layout(c, co + 2 * h, c, co + 2 * h, t, to, t, to + 2 * h, h)
    ensures Layout(a, ao, a, ao, c, co, t, to + 2 * h, h)
    ensures Layout(a, ao + h, a, ao + h, c, co + 2 * h, t, to + 2 * h, h)
    ensures ao + 2 * h <= a.Length && co + 4 * h <= c.Length && to + 4 * h <= t.Length
    ensures t == c ==> co + 4 * h <= to || to + 4 * h <= co
    ensures Clear(c, co, 4 * h, t, to, 4 * h) && Clear(c, co, 4 * h, a, ao, 2 * h)
  {
  }

  /** c := a * a, with t for scratch. */
  method RecursiveSquare(a: array<Word>, ao: nat, c: array<Word>, co: nat, t: array<Word>, to: nat, n: nat, cutoff: nat)
    requires Doubled(n, cutoff) && Layout(a, ao, a, ao, c, co, t, to, n)
    modifies c, t
    ensures IsProduct(Part(c[..], co, co + 2 * n), Part(old(a[..]), ao, ao + n), Part(old(a[..]), ao, ao + n))
    ensures Wrote(old(c[..]), old(t[..]), c[..], t[..], t == c, co, 2 * n, to, 2 * n)
    decreases n, 3
  {
    hide Val, Pow, Combined, Combinable, Kept, Wrote, Doubled;
    Halves(n, cutoff);
    if n == cutoff {
      BigSquareN(a, ao, c, co, n);
      WroteProduct(old(c[..]), old(t[..]), c[..], t[..], t == c, co, 2 * n, to, 2 * n, co, co + 2 * n);
      return;
    }
    var h := n / 2;
    assert n == 2 * h && 2 * n == 4 * h;
    Square(a, ao, c, co, t, to, h, cutoff);
  }

  method Square(a: array<Word>, ao: nat, c: array<Word>, co: nat, t: array<Word>, to: nat, h: nat, cutoff: nat)
    requires Doubled(h, cutoff) && Layout(a, ao, a, ao, c, co, t, to, 2 * h)
    modifies c, t
    ensures ao + 2 * h <= a.Length && co + 4 * h <= c.Length
    ensures IsProduct(Part(c[..], co, co + 4 * h), Part(old(a[..]), ao, ao + 2 * h), Part(old(a[..]), ao, ao + 2 * h))
    ensures Wrote(old(c[..]), old(t[..]), c[..], t[..], t == c, co, 4 * h, to, 4 * h)
    decreases 2 * h, 2
  {
    hide Part, Val, Pow, Combined, Combinable, IsProduct, Kept, Wrote, Layout, Doubled;
    SquareLayouts(a, ao, c, co, t, to, h);
    Halves(h, cutoff);
    ghost var a0, c0, t0 := a[..], c[..], t[..];
    Difference(a, ao, c, co, h);
    ghost var c1, t1 := c[..], t[..];
    WroteProduct(c0, t0, c1, t1, t == c, co, 4 * h, to, 4 * h, co + 2 * h, co + 3 * h);
    OperandsKept(a, ao, a, ao, c, co, t, to, h, a0, a0, c0, t0);
    ThreeSquares(a, ao, c, co, t, to, h, cutoff);
    ghost var c2, t2 := c[..], t[..];
    WroteThen(c0, t0, c1, t1, c2, t2, t == c, co, 4 * h, to, 4 * h, co, 4 * h, to, 4 * h);
    SquareHalves(a0, ao, c2, co, Part(c1, co + 2 * h, co + 3 * h), Part(t2, to, to + 2 * h), h);
    Combine(c, co, t, to, h, true);
    WroteThen(c0, t0, c2, t2, c[..], t[..], t == c, co, 4 * h, to, 4 * h, co, 4 * h, to, 4 * h);
  }

  /** The difference of the halves, in the third quarter of c. */
  method Difference(a: array<Word>, ao: nat, c: array<Word>, co: nat, h: nat)
    requires 0 < h && ao + 2 * h <= a.Length && co + 4 * h <= c.Length && Clear(c, co, 4 * h, a, ao, 2 * h)
    modifies c
    ensures var a0, a1 := Part(old(a[..]), ao, ao + h), Part(old(a[..]), ao + h, ao + 2 * h);
            Part(c[..], co + 2 * h, co + 3 * h) == if a1 >= a0 then a1 - a0 else a0 - a1
    ensures Kept(old(c[..]), c[..], co + 2 * h, co + 3 * h)
  {
    hide Val;
    var _ := AbsDiff(c, co + 2 * h, a, ao + h, a, ao, h);
  }

  /** The square of the difference, into the scratch area, then the outer squares. */
  method ThreeSquares(a: array<Word>, ao: nat, c: array<Word>, co: nat, t: array<Word>, to: nat, h: nat, cutoff: nat)
    requires Doubled(h, cutoff) && Layout(a, ao, a, ao, c, co, t, to, 2 * h)
    modifies c, t
    ensures ao + 2 * h <= a.Length && co + 4 * h <= c.Length && to + 4 * h <= t.Length
    ensures IsProduct(Part(t[..], to, to + 2 * h), Part(old(c[..]), co + 2 * h, co + 3 * h), Part(old(c[..]), co + 2 * h, co + 3 * h))
    ensures IsProduct(Part(c[..], co, co + 2 * h), Part(old(a[..]), ao, ao + h), Part(old(a[..]), ao, ao + h))
    ensures IsProduct(Part(c[..], co + 2 * h, co + 4 * h), Part(old(a[..]), ao + h, ao + 2 * h), Part(old(a[..]), ao + h, ao + 2 * h))
    ensures Wrote(old(c[..]), old(t[..]), c[..], t[..], t == c, co, 4 * h, to, 4 * h)
    decreases 2 * h, 1
  {
    hide Part, Val, Pow, IsProduct, Wrote, Layout, Doubled;
    Halves(h, cutoff);
    SquareLayouts(a, ao, c, co, t, to, h);
    ghost var a0, c1, t1 := a[..], c[..], t[..];
    RecursiveSquare(c, co + 2 * h, t, to, t, to + 2 * h, h, cutoff);
    ghost var c2, t2 := c[..], t[..];
    WroteScratch(c1, t1, c2, t2, t == c, co, 4 * h, to, 2 * h);
    OperandsKept(a, ao, a, ao, c, co, t, to, h, a0, a0, c1, t1);
    OuterSquares(a, ao, c, co, t, to, h, cutoff);
    ghost var c3, t3 := c[..], t[..];
    WroteThen(c1, t1, c2, t2, c3, t3, t == c, co, 4 * h, to, 4 * h, co, 4 * h, to + 2 * h, 2 * h);
    ScratchKept(c2, t2, c3, t3, t == c, co, 4 * h, to + 2 * h, 2 * h, to, to + 2 * h);
  }

  method OuterSquares(a: array<Word>, ao: nat, c: array<Word>, co: nat, t: array<Word>, to: nat, h: nat, cutoff: nat)
    requires Doubled(h, cutoff) && Layout(a, ao, a, ao, c, co, t, to, 2 * h)
    modifies c, t
    ensures ao + 2 * h <= a.Length && co + 4 * h <= c.Length && to + 4 * h <= t.Length
    ensures IsProduct(Part(c[..], co, co + 2 * h), Part(old(a[..]), ao, ao + h), Part(old(a[..]), ao, ao + h))
    ensures IsProduct(Part(c[..], co + 2 * h, co + 4 * h), Part(old(a[..]), ao + h, ao + 2 * h), Part(old(a[..]), ao + h, ao + 2 * h))
    ensures Wrote(old(c[..]), old(t[..]), c[..], t[..], t == c, co, 4 * h, to + 2 * h, 2 * h)
    decreases 2 * h, 0
  {
    hide Part, Val, Pow, IsProduct, Wrote, Layout, Doubled;
    Halves(h, cutoff);
    SquareLayouts(a, ao, c, co, t, to, h);
    ghost var a0, c2, t2 := a[..], c[..], t[..];
    RecursiveSquare(a, ao, c, co, t, to + 2 * h, h, cutoff);
    ghost var c3, t3 := c[..], t[..];
    WroteWider(c2, t2, c3, t3, t == c, co, 2 * h, to + 2 * h, 2 * h, co, 4 * h, to, 4 * h);
    WroteWider(c2, t2, c3, t3, t == c, co, 2 * h, to + 2 * h, 2 * h, co, 4 * h, to + 2 * h, 2 * h);
    OperandsKept(a, ao, a, ao, c, co, t, to, h, a0, a0, c2, t2);
    RecursiveSquare(a, ao + h, c, co + 2 * h, t, to + 2 * h, h, cutoff);
    ghost var c4, t4 := c[..], t[..];
    WroteThen(c2, t2, c3, t3, c4, t4, t == c, co, 4 * h, to + 2 * h, 2 * h, co + 2 * h, 2 * h, to + 2 * h, 2 * h);
    PartKept(c3, t3, c4, t4, t == c, co + 2 * h, 2 * h, to + 2 * h, 2 * h, co, co + 2 * h);
  }
}
