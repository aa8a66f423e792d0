/**
 The quotient of two words by one, a half word at a time. The temporaries of the original are
 kept as numbers; the operations on them are those proved exact elsewhere.
 */
module LongDivide {
  import opened Words
  import opened CoreMult
  import opened Shifts

  const HALF := 0x1_0000
  const TOPBIT := 0x8000_0000

  /** q is the quotient of y by d. */
  predicate Floor(q: int, y: int, d: int) {
    q * d <= y < q * d + d
  }

  lemma FloorIsDiv(q: int, y: int, d: int)
    requires Floor(q, y, d) && 0 <= y && 0 < d
    ensures q == y / d
  {
    var t, r := y / d, y % d;
    assert y == t * d + r;
    if t < q { MulLess(t + 1, q, d); MulDist(d, t, 1); }
    if q < t { MulLess(q + 1, t, d); MulDist(d, q, 1); }
  }

  lemma DivNonNeg(x: int, y: int)
    requires 0 <= x && 0 < y
    ensures 0 <= x / y
  {
    var q, r := x / y, x % y;
    assert x == y * q + r;
    if q < 0 { MulLess(q, -1, y); }
  }

  /** No multiple of d up to y has a factor above the estimate from the upper halves. */
  lemma EstimateEnough(t: nat, y: nat, d: Word, dhi: nat, s: nat)
    requires dhi == d / HALF && 0 < dhi && s == y / HALF && t * d <= y
    ensures t <= s / dhi
  {
    var dlo := d % HALF;
    assert d == dhi * HALF + dlo;
    MulDist(t, dhi * HALF, dlo);
    MulAssoc(t, dhi, HALF);
    MulLess(0, dlo, t);
    assert (t * dhi) * HALF <= y;
    assert t * dhi <= s;
    var u := s / dhi;
    assert s < (u + 1) * dhi by { MulDist(dhi, u, 1); assert s == u * dhi + s % dhi; }
    if t > u { MulLess(u + 1, t, dhi); }
  }

  lemma BelowHalf(t: nat, y: nat, d: Word)
    requires t * d <= y < d * HALF && 0 < d
    ensures t <= HALF - 1
  {
    if t >= HALF { MulLess(HALF, t, d); }
  }

  lemma EstimateFits(y: nat, d: Word, dhi: nat, s: nat)
    requires dhi == d / HALF && 0 < dhi && s == y / HALF && y < d * HALF && s / HALF != dhi
    ensures s / dhi <= HALF - 1
  {
    assert s < d;
    assert s / HALF < dhi;
    assert s < dhi * HALF;
    var u := s / dhi;
    assert s == u * dhi + s % dhi;
    if u >= HALF { MulLess(HALF, u, dhi); }
  }

  /** No multiple of d up to y has a factor above q. */
  ghost predicate Covers(q: int, y: nat, d: nat) {
    forall t: nat :: t * d <= y ==> t <= q
  }

  lemma EstimateCovers(q: int, y: nat, d: Word, dhi: nat, s: nat)
    requires TOPBIT <= d && y < d * HALF && dhi == d / HALF && s == y / HALF
    requires q == if s / HALF == dhi then HALF - 1 else s / dhi
    ensures Covers(q, y, d) && 0 <= q < HALF
  {
    DivNonNeg(s, dhi);
    if s / HALF != dhi { EstimateFits(y, d, dhi, s); }
    forall t: nat | t * d <= y
      ensures t <= q
    {
      EstimateAbove(t, q, y, d, dhi, s);
    }
  }

  lemma EstimateAbove(t: nat, q: int, y: nat, d: Word, dhi: nat, s: nat)
    requires TOPBIT <= d && y < d * HALF && dhi == d / HALF && s == y / HALF && t * d <= y
    requires q == if s / HALF == dhi then HALF - 1 else s / dhi
    ensures t <= q
  {
    if s / HALF == dhi {
      BelowHalf(t, y, d);
    } else {
      EstimateEnough(t, y, d, dhi, s);
    }
  }

  /** Lowering a factor that is too large loses nothing. */
  lemma Lower(q: int, y: nat, d: nat)
    requires Covers(q, y, d) && q * d > y && 0 <= q
    ensures Covers(q - 1, y, d) && 0 < q
  {
    if q == 0 { ZeroTimes(d); }
  }

  /** A half-word quotient: estimated from the upper half of d, and lowered until it fits. */
  method HalfDigit(y: nat, d: Word) returns (q: nat)
    requires TOPBIT <= d && y < d * HALF
    ensures Floor(q, y, d) && q < HALF
  {
    hide Covers, Floor;
    var dhi, s := d / HALF, y / HALF;
    DivNonNeg(s, dhi);
    q := if s / HALF == dhi then HALF - 1 else s / dhi;
    EstimateCovers(q, y, d, dhi, s);
    var tmp := q * d;
    while tmp > y
      invariant 0 <= q < HALF && tmp == q * d && Covers(q, y, d)
      decreases q
    {
      Lower(q, y, d);
      q := q - 1;
      tmp := q * d;
    }
    Largest(q, y, d);
  }

  lemma ZeroTimes(d: int)
    ensures 0 * d == 0
  {
  }

  lemma Largest(q: nat, y: nat, d: nat)
    requires q * d <= y && Covers(q, y, d)
    ensures Floor(q, y, d)
  {
    MulDist(d, q, 1);
    assert !((q + 1) * d <= y);
  }

  /** big / d, for d with its top bit set. */
  method DivideByTop(big: nat, d: Word) returns (r: Word)
    requires TOPBIT <= d && big < d * BASE
    ensures r == big / d && Floor(r, big, d)
  {
    hide Floor;
    var x: int := big;
    if x > d * BASE { x := x - d * BASE; }
    var q := HalfDigit(x / HALF, d);
    TakeUpper(x, q, d);
    x := x - q * (d * HALF);
    if x < 0 { x := x + d * HALF; }
    var r0 := q * HALF;
    var q' := HalfDigit(x, d);
    AddLower(big, q, x, q', d);
    FloorIsDiv(r0 + q', big, d);
    r := r0 + q';
  }

  lemma TakeUpper(x: nat, q: nat, d: Word)
    requires Floor(q, x / HALF, d)
    ensures 0 <= x - q * (d * HALF) < d * HALF
  {
    MulAssoc(q, d, HALF);
  }

  lemma AddLower(big: nat, q1: nat, x: nat, q2: nat, d: Word)
    requires x == big - q1 * (d * HALF) && Floor(q2, x, d)
    ensures Floor(q1 * HALF + q2, big, d)
  {
    MulAssoc(q1, HALF, d);
    MulDist(d, q1 * HALF, q2);
  }

  // ----- divisors without the top bit

  /** The number of bits of a word; the original looks it up by bytes. */
  function Msb(x: nat): (n: nat)
    ensures x < Two(n) && (x > 0 ==> n > 0 && Two(n - 1) <= x)
  {
    if x == 0 then 0 else 1 + Msb(x / 2)
  }

  lemma MsbWord(x: Word)
    requires 0 < x < TOPBIT
    ensures 0 < Msb(x) < 32 && TOPBIT <= x * Two(32 - Msb(x)) && (x + 1) * Two(32 - Msb(x)) <= BASE
  {
    hide Two, Msb;
    TwoWord();
    MsbRange(x);
    var n := Msb(x);
    TwoAdd(n, 32 - n);
    TwoAdd(n - 1, 32 - n);
    TwoAdd(31, 1);
    TwoOne();
    MulLess(Two(n - 1), x, Two(32 - n));
    MulLess(x + 1, Two(n), Two(32 - n));
  }

  lemma TwoOne()
    ensures Two(1) == 2
  {
  }

  lemma MsbRange(x: Word)
    requires 0 < x < TOPBIT
    ensures 0 < Msb(x) < 32 && Two(Msb(x) - 1) <= x < Two(Msb(x))
  {
    var n := Msb(x);
    if n >= 32 {
      TwoGrows(31, n - 1);
      assert Two(31) == TOPBIT by { TwoWord(); TwoOne(); TwoAdd(31, 1); }
    }
  }

  lemma {:induction false} TwoGrows(m: nat, n: nat)
    requires m <= n
    ensures Two(m) <= Two(n)
  {
    if m < n { TwoGrows(m, n - 1); }
  }

  /** How far a word is shifted up for its top bit to be set. */
  function Normbits(d: Word): (n: nat)
    requires 0 < d < TOPBIT
    ensures 0 < n < 32
  {
    MsbWord(d);
    32 - Msb(d)
  }

  lemma ScaledDivide(big: nat, d: Word, n: nat)
    requires 0 < d < TOPBIT && n == Normbits(d) && big < d * BASE
    ensures 0 < n && TOPBIT <= d * Two(n) < BASE && 0 <= big * Two(n) < (d * Two(n)) * BASE
    ensures (big * Two(n)) / (d * Two(n)) == big / d
  {
    hide Two, Msb;
    MsbWord(d);
    var p := Two(n);
    MulDist(p, d, 1);
    MulLess(0, big, p);
    MulLessStrict(big, d * BASE, p);
    MulAssoc(d, BASE, p);
    MulAssoc(d, p, BASE);
    var q, r := big / d, big % d;
    DivNonNeg(big, d);
    assert big == q * d + r;
    MulDist(p, q * d, r);
    MulAssoc(q, d, p);
    MulLess(0, r, p);
    MulLessStrict(r, d, p);
    MulDist(d * p, q, 1);
    assert Floor(q, big * p, d * p);
    FloorIsDiv(q, big * p, d * p);
  }

  /** What is shifted down is another number, unless it is zero. */
  lemma ShiftedLess(q: nat, n: nat)
    requires 0 < n
    ensures q / Two(n) == q <==> q == 0
  {
    var p := Two(n);
    TwoEven(n);
    DivNonNeg(q, p);
    var u, r := q / p, q % p;
    assert q == u * p + r;
    MulLess(2, p, u);
  }

  /**
   big / d, if d has its top bit set. If not, both are shifted up until it has, and the quotient,
   which that does not change, is shifted down again: it is right if and only if it is zero.
   */
  method LongBigDivide(big: nat, d: Word) returns (r: Word)
    requires 0 < d && big < d * BASE
    ensures r == if TOPBIT <= d then big / d else big / d / Two(Normbits(d))
    ensures r == big / d <==> TOPBIT <= d || big / d == 0
    ensures TOPBIT <= d ==> Floor(r, big, d)
  {
    hide Floor, Two, Msb;
    DivNonNeg(big, d);
    if d < TOPBIT {
      var normbits := Normbits(d);
      ScaledDivide(big, d, normbits);
      r := DivideByTop(big * Two(normbits), d * Two(normbits));
      ShiftedLess(r, normbits);
      ShiftedWord(r, normbits);
      r := r / Two(normbits);
    } else {
      r := DivideByTop(big, d);
    }
  }

  lemma ShiftedWord(r: Word, n: nat)
    ensures 0 <= r / Two(n) <= r
  {
    DivNonNeg(r, Two(n));
    var u := r / Two(n);
    assert r == u * Two(n) + r % Two(n);
    MulLess(1, Two(n), u);
  }
}
