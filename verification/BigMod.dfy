/** The remainder of a number by another: long division with normalization and add-back. */
module Modulo {
  import opened Words
  import opened LongMult
  import opened CoreMult
  import opened WordSums
  import opened Bignums
  import opened BigMult
  import opened Shifts
  import opened LongDivide
  import opened Congruence
  import opened BigModDigit

  predicate AllApart(x: Bignum, div: Bignum, tmp: Bignum)
    reads x, div, tmp
  {
    Apart(x, div) && Apart(x, tmp) && Apart(div, tmp)
  }

  /** Takes the multiple of div with the estimated digit q from x, and puts a negative rest right. */
  method TakeMultiple(x: Bignum, div: Bignum, tmp: Bignum, q: Word, i: nat, ghost l: nat)
    requires x.Valid() && div.Valid() && tmp.Valid() && AllApart(x, div, tmp) && x.Trimmed() && div.Trimmed()
    requires x.sign == div.sign == 1 && 2 <= i < l && x.length <= i + 1 && x.ZeroTo(l)
    requires Pow(i - 1) <= div.Mag() < Pow(i) && div.length == i && q * div.Mag() - x.Mag() < div.Mag() && x.Mag() - q * div.Mag() <= div.Mag()
    modifies x, x.num, tmp, tmp.num, div`length
    ensures x.Valid() && div.Valid() && tmp.Valid() && x.Trimmed() && div.Trimmed() && AllApart(x, div, tmp)
    ensures x.num == old(x.num) || fresh(x.num)
    ensures tmp.num == old(tmp.num) || fresh(tmp.num)
    ensures x.sign == 1 && x.length <= i + 1 && x.ZeroTo(l) && div.length == old(div.length) && div.Mag() == old(div.Mag())
    ensures x.Mag() == old(x.Mag()) - q * old(div.Mag()) + if old(x.Mag()) < q * old(div.Mag()) then old(div.Mag()) else 0
  {
    hide Val, Pow, Multiple, Grown, SumFits;
    tmp.Reset(0);
    GrownIs(tmp);
    SmallMultiple(q, div.Mag(), i);
    NumTypeBigMult(div, q, tmp, 0);
    PowGrows(i + 1, tmp.space);
    ghost var d, v := div.Mag(), x.Mag();
    MultipleLength(tmp, q, d, i);
    NoLoss(x, tmp, q, d, i);
    BigSubtract(x, tmp, x, l);
    if x.sign == -1 {
      ShorterThan(x, div, i);
      BigAdd(x, div, x, l);
    }
  }

  lemma SmallMultiple(q: Word, d: nat, i: nat)
    requires d < Pow(i)
    ensures Multiple(q, d, 0) == q * d < Pow(i + 1)
  {
    hide Pow;
    PowZero();
    MulLess(0, q, d);
    MulLess(q, BASE - 1, d);
    PowNext(i);
  }

  /** A multiple of the divisor is none, or at least as long. */
  lemma MultipleLength(tmp: Bignum, q: Word, d: nat, i: nat)
    requires tmp.Valid() && tmp.Trimmed() && tmp.Mag() == Multiple(q, d, 0) && 1 <= i && Pow(i - 1) <= d < Pow(i)
    ensures tmp.length <= i + 1 && (tmp.Mag() == 0 || i <= tmp.length) && tmp.Mag() == q * d
  {
    hide Pow;
    SmallMultiple(q, d, i);
    NotLonger(tmp.num[..tmp.length], i + 1);
    if tmp.Mag() != 0 {
      if q == 0 { ZeroTimes(d); }
      MulLess(1, q, d);
      ValBound(tmp.num[..tmp.length]);
      if tmp.length < i { PowGrows(tmp.length, i - 1); }
    }
  }

  /** No borrow is lost when the multiple is taken away in place. */
  lemma NoLoss(x: Bignum, tmp: Bignum, q: Word, d: nat, i: nat)
    requires x.Valid() && tmp.Valid() && Apart(x, tmp) && x.Trimmed() && tmp.Trimmed() && x.length <= i + 1
    requires tmp.length <= i + 1 && (tmp.Mag() == 0 || i <= tmp.length)
    ensures InPlaceSafe(x, tmp, x)
  {
    hide Val;
  }

  lemma ShorterThan(x: Bignum, div: Bignum, i: nat)
    requires x.Valid() && div.Valid() && x.Trimmed() && div.Trimmed() && div.length == i && x.Mag() < Pow(i) && 1 <= i && Apart(x, div)
    ensures x.length <= i && InPlaceSafe(x, div, x)
  {
    hide Pow;
    NotLonger(x.num[..x.length], i);
  }

  /** One digit: estimated from the leading words, taken away, put right. */
  method TakeDigit(x: Bignum, div: Bignum, tmp: Bignum, i: nat, ms: Word, m0: Word, ghost l: nat)
    requires x.Valid() && div.Valid() && tmp.Valid() && AllApart(x, div, tmp) && x.Trimmed() && div.Trimmed()
    requires x.sign == div.sign == 1 && 2 <= i < l && x.ZeroTo(l) && x.length <= l && div.length == i
    requires IsDivisor(div.Mag(), i, ms, m0) && x.Mag() <= div.Mag() * BASE
    modifies x, x.num, tmp, tmp.num, div`length
    ensures x.Valid() && div.Valid() && tmp.Valid() && x.Trimmed() && div.Trimmed() && AllApart(x, div, tmp)
    ensures x.num == old(x.num) || fresh(x.num)
    ensures tmp.num == old(tmp.num) || fresh(tmp.num)
    ensures x.sign == 1 && x.length <= l && x.ZeroTo(l) && div.length == old(div.length) && div.Mag() == old(div.Mag())
    ensures x.Mag() <= div.Mag() && (x.Mag() == div.Mag() <==> old(x.Mag()) == div.Mag() * BASE)
    ensures Cong(x.Mag(), old(x.Mag()), div.Mag())
  {
    hide Val, Pow, IsDivisor, Estimated, Cong;
    ghost var s, v, d := x.num[..l], x.Mag(), div.Mag();
    DivisorSize(d, i, ms, m0);
    assert s[..x.length] == x.num[..x.length];
    TopThree(s, x.length, i);
    ghost var low := Val(s[..i - 2]);
    ValBound(s[..i - 2]);
    var xi, x1, x0 := x.num[i], x.num[i - 1], x.num[i - 2];
    LeadingWord(v, d, i, ms, m0, low, xi, x1, x0);
    DivisorTop(d, i, ms, m0);
    var q := EstimateDigit(xi, x1, x0, ms, m0);
    DigitLeft(v, d, i, ms, m0, low, xi, x1, x0, q);
    TakeMultiple(x, div, tmp, q, i, l);
    Remains(v, d, q, x.Mag());
  }

  lemma DivisorTop(d: nat, i: nat, ms: Word, m0: Word)
    requires IsDivisor(d, i, ms, m0)
    ensures TOPBIT <= ms
  {
  }

  lemma Remains(v: nat, d: nat, q: int, x: int)
    requires q * d - v < d && v - q * d <= d && (v < d * BASE ==> v - q * d < d) && (v == d * BASE ==> v - q * d == d)
    requires v <= d * BASE && x == v - q * d + if v < q * d then d else 0
    ensures 0 <= x <= d && (x == d <==> v == d * BASE) && Cong(x, v, d)
  {
    if v < q * d {
      CongIs(x, v, d, 1 - q);
    } else {
      CongIs(x, v, d, -q);
    }
  }

  // ----- all digits

  /** A normalized modulus, shifted up, is a divisor. */
  lemma ShiftedDivisor(m: Bignum, k: nat, i: nat)
    requires m.Valid() && 2 <= k == m.length <= i && TOPBIT <= m.num[k - 1]
    ensures IsDivisor(m.Mag() * Pow(i - k), i, m.num[k - 1], m.num[k - 2])
  {
    hide Val, Pow;
    var s, p := m.num[..k], Pow(i - k);
    var low, v := Val(s[..k - 2]), Two2(m.num[k - 1], m.num[k - 2]);
    TopTwo(s, k);
    assert s[..k] == s;
    ValBound(s[..k - 2]);
    PowAdd(k - 2, i - k);
    ShiftedParts(low, v, Pow(k - 2), p);
    assert LowPart(m.Mag() * p, i, m.num[k - 1], m.num[k - 2], low * p);
  }

  lemma ShiftedParts(low: nat, v: nat, w: nat, p: nat)
    requires low < w && 0 < p
    ensures (low + w * v) * p == v * (w * p) + low * p && 0 <= low * p < w * p
  {
    MulDist(p, low, w * v);
    MulAssoc(w, v, p);
    MulAssoc(v, w, p);
    MulLessStrict(low, w, p);
    MulLess(0, low, p);
  }

  lemma CongDown(x: int, y: int, n: int, p: int)
    requires Cong(x, y, n * p)
    ensures Cong(x, y, n)
  {
    var k :| CongBy(x, y, n * p, k);
    MulAssoc(k, p, n);
    CongIs(x, y, n, k * p);
  }

  /** m shifted up by j words. */
  function Scaled(m: nat, j: nat): nat {
    m * Pow(j)
  }

  /** x := x mod m, for m normalized and x not shorter. */
  method Divide(x: Bignum, m: Bignum)
    requires x.Valid() && m.Valid() && Apart(x, m) && x.Trimmed() && x.sign == 1
    requires 2 <= m.length <= x.length && TOPBIT <= m.num[m.length - 1]
    modifies x, x.num
    ensures x.Valid() && x.Trimmed() && x.sign == 1 && (x.num == old(x.num) || fresh(x.num))
    ensures x.Mag() <= m.Mag() && Cong(x.Mag(), old(x.Mag()), m.Mag())
    ensures x.Mag() == m.Mag() <==> old(x.Mag()) == Scaled(m.Mag(), old(x.length) - m.length)
  {
    hide Val, Pow, Cong, Scaled;
    var l, k := x.length, m.length;
    var tmp := new Bignum(0);
    tmp.Guarantee(4);
    var div := new Bignum(0);
    LeftShiftWords(m, div, l - k);
    ScaledIs(m.Mag(), l - k);
    DivisorNonZero(m, div, l);
    ghost var v := x.Mag();
    FirstStep(x, div, m, l);
    ghost var u := x.Mag();
    TakeDigits(x, div, tmp, m, l, k);
    CongTrans(x.Mag(), u, v, m.Mag());
  }

  lemma ScaledIs(m: nat, j: nat)
    ensures Scaled(m, j) == m * Pow(j) && Scaled(m, 0) == m
  {
  }

  lemma NextDivisor(m: nat, j: nat)
    ensures Scaled(m, j + 1) / Pow(1) == Scaled(m, j) && Scaled(m, j + 1) == Scaled(m, j) * BASE
  {
    PowNext(j);
    MulAssoc(m, Pow(j), BASE);
    assert Pow(1) == BASE;
  }

  lemma ScaledDivisor(m: Bignum, k: nat, i: nat)
    requires m.Valid() && 2 <= k == m.length <= i && TOPBIT <= m.num[k - 1]
    ensures IsDivisor(Scaled(m.Mag(), i - k), i, m.num[k - 1], m.num[k - 2])
  {
    ShiftedDivisor(m, k, i);
  }

  /** The digits, from the highest down; div moves down a word for each. */
  method TakeDigits(x: Bignum, div: Bignum, tmp: Bignum, m: Bignum, l: nat, k: nat)
    requires x.Valid() && div.Valid() && tmp.Valid() && m.Valid() && AllApart(x, div, tmp) && x.Trimmed() && div.Trimmed()
    requires m != x && m != div && m != tmp && m.num != x.num && m.num != div.num && m.num != tmp.num
    requires 2 <= k == m.length <= l && TOPBIT <= m.num[k - 1]
    requires x.sign == div.sign == 1 && x.ZeroTo(l) && x.length <= l && div.length == l
    requires div.Mag() == Scaled(m.Mag(), l - k) && x.Mag() <= div.Mag()
    modifies x, x.num, div, div.num, tmp, tmp.num
    ensures x.Valid() && x.Trimmed() && x.sign == 1 && (x.num == old(x.num) || fresh(x.num))
    ensures x.Mag() <= m.Mag() && (x.Mag() == m.Mag() <==> old(x.Mag()) == old(div.Mag())) && Cong(x.Mag(), old(x.Mag()), m.Mag())
  {
    hide Val, Pow, Cong, Scaled, IsDivisor;
    ghost var v, d, mag := x.Mag(), div.Mag(), m.Mag();
    CongRefl(v, mag);
    var i: nat := l - 1;
    while i > k - 1
      invariant k - 1 <= i < l && x.Valid() && div.Valid() && tmp.Valid() && AllApart(x, div, tmp) && x.Trimmed() && div.Trimmed()
      invariant (x.num == old(x.num) || fresh(x.num)) && div.num == old(div.num) && (tmp.num == old(tmp.num) || fresh(tmp.num))
      invariant x.sign == div.sign == 1 && x.ZeroTo(l) && x.length <= l && div.length == i + 1
      invariant div.Mag() == Scaled(mag, i + 1 - k) && x.Mag() <= div.Mag()
      invariant (x.Mag() == div.Mag() <==> v == d) && Cong(x.Mag(), v, mag)
    {
      ghost var u := x.Mag();
      NextDigit(x, div, tmp, m, i, k, l);
      CongTrans(x.Mag(), u, v, mag);
      i := i - 1;
    }
    ScaledIs(mag, 0);
  }

  /** Moves div down a word and takes a digit. */
  method NextDigit(x: Bignum, div: Bignum, tmp: Bignum, m: Bignum, i: nat, k: nat, ghost l: nat)
    requires x.Valid() && div.Valid() && tmp.Valid() && m.Valid() && AllApart(x, div, tmp) && x.Trimmed() && div.Trimmed()
    requires m != x && m != div && m != tmp && m.num != x.num && m.num != div.num && m.num != tmp.num
    requires 2 <= k == m.length <= i < l && TOPBIT <= m.num[k - 1]
    requires x.sign == div.sign == 1 && x.ZeroTo(l) && x.length <= l && div.length == i + 1
    requires div.Mag() == Scaled(m.Mag(), i + 1 - k) && x.Mag() <= div.Mag()
    modifies x, x.num, div, div.num, tmp, tmp.num
    ensures x.Valid() && div.Valid() && tmp.Valid() && AllApart(x, div, tmp) && x.Trimmed() && div.Trimmed()
    ensures (x.num == old(x.num) || fresh(x.num)) && div.num == old(div.num) && (tmp.num == old(tmp.num) || fresh(tmp.num))
    ensures x.sign == div.sign == 1 && x.ZeroTo(l) && x.length <= l && div.length == i
    ensures div.Mag() == Scaled(m.Mag(), i - k) && x.Mag() <= div.Mag()
    ensures (x.Mag() == div.Mag() <==> old(x.Mag()) == old(div.Mag())) && Cong(x.Mag(), old(x.Mag()), m.Mag())
  {
    hide Val, Pow, Cong, Scaled, IsDivisor;
    NextDivisor(m.Mag(), i - k);
    RightShiftWords(div, div, 1);
    ScaledDivisor(m, k, i);
    TakeDigit(x, div, tmp, i, m.num[k - 1], m.num[k - 2], l);
    ScaledDown(x.Mag(), old(x.Mag()), m.Mag(), i - k);
  }

  lemma ScaledDown(x: int, y: int, m: nat, j: nat)
    requires Cong(x, y, Scaled(m, j))
    ensures Cong(x, y, m)
  {
    CongDown(x, y, m, Pow(j));
  }

  /** The modulus, shifted up to the length of x, has half the room of that length below it. */
  lemma DivisorNonZero(m: Bignum, div: Bignum, l: nat)
    requires m.Valid() && div.Valid() && 2 <= m.length <= l && TOPBIT <= m.num[m.length - 1] && div.Mag() == m.Mag() * Pow(l - m.length)
    ensures Pow(l) <= 2 * div.Mag() && m.Mag() != 0
  {
    hide Val, Pow, IsDivisor;
    ShiftedDivisor(m, m.length, l);
    DivisorSize(div.Mag(), l, m.num[m.length - 1], m.num[m.length - 2]);
    PowNext(l - 1);
    if m.Mag() == 0 { ZeroTimes(Pow(l - m.length)); }
  }

  /** Before the first digit: x, if larger than the shifted modulus, loses it. */
  method FirstStep(x: Bignum, div: Bignum, m: Bignum, l: nat)
    requires x.Valid() && div.Valid() && m.Valid() && Apart(x, div) && x.Trimmed() && div.Trimmed() && x.sign == 1
    requires x.length == l == div.length && Pow(l) <= 2 * div.Mag() && m.length <= l && div.Mag() == m.Mag() * Pow(l - m.length)
    requires m != x && m != div && m.num != x.num
    modifies x, x.num, div`length
    ensures x.Valid() && div.Valid() && x.Trimmed() && div.Trimmed() && (x.num == old(x.num) || fresh(x.num))
    ensures x.sign == 1 && x.ZeroTo(l) && x.length <= l && div.length == l && div.Mag() == old(div.Mag())
    ensures x.Mag() <= div.Mag() && (x.Mag() == div.Mag() <==> old(x.Mag()) == div.Mag()) && Cong(x.Mag(), old(x.Mag()), m.Mag())
  {
    hide Val, Pow;
    ghost var v := x.Mag();
    ValBound(x.num[..l]);
    var r := BigCompare(x, div, l);
    if r > 0 {
      BigSub(x, div, x, l);
      CongIs(x.Mag(), v, m.Mag(), -(Pow(l - m.length) as int));
      Negated(m.Mag(), Pow(l - m.length));
    } else {
      CongRefl(v, m.Mag());
    }
  }

  lemma Negated(m: nat, p: nat)
    ensures (-(p as int)) * m == -(m * p)
  {
  }

  // ----- normalization

  /** Shifting a number up until the top bit of its top word is set keeps its length. */
  lemma Normalized(s: seq<Word>, t: seq<Word>, n: nat)
    requires s != [] && 0 < s[|s| - 1] < TOPBIT && n == Normbits(s[|s| - 1]) && Val(t) == Val(s) * Two(n)
    requires t != [] && (|t| == 1 || t[|t| - 1] != 0)
    ensures |t| == |s| && TOPBIT <= t[|t| - 1]
  {
    hide Val, Pow, Two, Msb;
    var k, top := |s| - 1, s[|s| - 1];
    MsbWord(top);
    assert s[..k + 1] == s;
    ValNext(s, k);
    ValBound(s[..k]);
    NormalizedBounds(Val(s[..k]), top, Two(n), Pow(k), Val(s));
    PowNext(k);
    NotLonger(t, k + 1);
    ShortTop(t, k);
  }

  lemma NormalizedBounds(low: nat, top: Word, p: nat, q: nat, v: nat)
    requires low < q && v == low + top * q && 0 < p && TOPBIT <= top * p && (top + 1) * p <= BASE
    ensures TOPBIT * q <= v * p < q * BASE
  {
    MulLess(top * q, v, p);
    MulAssoc(top, q, p);
    MulAssoc(top, p, q);
    MulLess(TOPBIT, top * p, q);
    MulDist(q, top, 1);
    MulLessStrict(v, (top + 1) * q, p);
    MulAssoc(top + 1, q, p);
    MulAssoc(top + 1, p, q);
    MulLess((top + 1) * p, BASE, q);
  }

  lemma ShortTop(t: seq<Word>, k: nat)
    requires t != [] && |t| <= k + 1 && TOPBIT * Pow(k) <= Val(t) < Pow(k) * BASE
    ensures |t| == k + 1 && TOPBIT <= t[k]
  {
    ValBound(t);
    if |t| <= k { PowGrows(|t|, k); }
    assert t == t[..k] + [t[k]];
    ValSnoc(t[..k], t[k]);
    ValBound(t[..k]);
    if t[k] < TOPBIT {
      MulLess(t[k] + 1, TOPBIT, Pow(k));
      MulDist(Pow(k), t[k], 1);
    }
  }

  // ----- the remainder

  /** a is m times a power of the word size. */
  ghost predicate WordMultiple(a: nat, m: nat) {
    exists j: nat :: a == Scaled(m, j)
  }

  /**
   x := a mod m on magnitudes, with the sign of a, for a modulus of at least two words, and all
   in their shortest form. The remainder is the modulus itself, and not 0, just when the dividend
   is the modulus times a power of the word size. The modulus is shifted up for a while.
   */
  method BigMod(a: Bignum, m: Bignum, x: Bignum)
    requires a.Valid() && m.Valid() && x.Valid() && Apart(a, m) && Apart(m, x) && SameOrApart(a, x)
    requires a.Trimmed() && m.Trimmed() && 2 <= m.length
    modifies x, x.num, m, m.num, a`length
    ensures x.Valid() && m.Valid() && a.Valid() && x.Trimmed() && m.Trimmed() && (x.num == old(x.num) || fresh(x.num)) && (m.num == old(m.num) || fresh(m.num))
    ensures m.Mag() == old(m.Mag()) && m.sign == old(m.sign) && m.length == old(m.length) && Apart(m, x)
    ensures a != x ==> a.Mag() == old(a.Mag()) && a.length == old(a.length)
    ensures x.sign == old(a.sign) && x.Mag() <= m.Mag() && Cong(x.Mag(), old(a.Mag()), m.Mag())
    ensures x.Mag() == m.Mag() <==> WordMultiple(old(a.Mag()), m.Mag())
  {
    hide Val, Pow, Cong, WordMultiple, Scaled;
    ghost var v, n := a.Mag(), m.Mag();
    if a != x {
      BigCopy(a, x);
    }
    var savesign := a.sign;
    var r := BigCompare(a, m, 0);
    if r < 0 {
      CongRefl(v, n);
      NotMultiple(v, n);
      return;
    }
    ReduceSigned(x, m, savesign);
  }

  method ReduceSigned(x: Bignum, m: Bignum, sign: int)
    requires m.Valid() && x.Valid() && Apart(m, x) && x.Trimmed() && m.Trimmed() && (sign == 1 || sign == -1)
    requires 2 <= m.length && m.Mag() <= x.Mag()
    modifies x, x.num, m, m.num
    ensures x.Valid() && m.Valid() && x.Trimmed() && m.Trimmed() && (x.num == old(x.num) || fresh(x.num)) && (m.num == old(m.num) || fresh(m.num))
    ensures m.Mag() == old(m.Mag()) && m.sign == old(m.sign) && m.length == old(m.length) && Apart(m, x) && x.sign == sign
    ensures x.Mag() <= m.Mag() && Cong(x.Mag(), old(x.Mag()), m.Mag())
    ensures x.Mag() == m.Mag() <==> WordMultiple(old(x.Mag()), m.Mag())
  {
    hide Val, Pow, Cong, WordMultiple;
    x.sign := 1;
    Reduce(x, m);
    x.sign := sign;
  }

  /** x := x mod m, for x not below m. */
  method Reduce(x: Bignum, m: Bignum)
    requires m.Valid() && x.Valid() && Apart(m, x) && x.sign == 1 && x.Trimmed() && m.Trimmed()
    requires 2 <= m.length && m.Mag() <= x.Mag()
    modifies x, x.num, m, m.num
    ensures x.Valid() && m.Valid() && x.Trimmed() && m.Trimmed() && (x.num == old(x.num) || fresh(x.num)) && (m.num == old(m.num) || fresh(m.num))
    ensures m.Mag() == old(m.Mag()) && m.sign == old(m.sign) && m.length == old(m.length) && Apart(m, x) && x.sign == 1
    ensures x.Mag() <= m.Mag() && Cong(x.Mag(), old(x.Mag()), m.Mag())
    ensures x.Mag() == m.Mag() <==> WordMultiple(old(x.Mag()), m.Mag())
  {
    hide Val, Pow, Cong, WordMultiple, Scaled, Two, Msb, Normbits;
    ghost var v, n := x.Mag(), m.Mag();
    NonZero(m);
    var top := m.num[m.length - 1];
    if top < TOPBIT {
      ReduceShifted(x, m, Normbits(top));
    } else {
      LongEnough(x, m);
      ghost var l := x.length;
      SizeOf(x);
      SizeOf(m);
      Divide(x, m);
      MultipleIff(v, n, 1, l, m.length);
    }
  }

  /** The same, both shifted up for a while. */
  method ReduceShifted(x: Bignum, m: Bignum, normbits: nat)
    requires m.Valid() && x.Valid() && Apart(m, x) && x.sign == 1 && x.Trimmed() && m.Trimmed()
    requires 2 <= m.length && m.Mag() <= x.Mag() && 0 < m.num[m.length - 1] < TOPBIT && normbits == Normbits(m.num[m.length - 1])
    modifies x, x.num, m, m.num
    ensures x.Valid() && m.Valid() && x.Trimmed() && m.Trimmed() && (x.num == old(x.num) || fresh(x.num)) && (m.num == old(m.num) || fresh(m.num))
    ensures m.Mag() == old(m.Mag()) && m.sign == old(m.sign) && m.length == old(m.length) && Apart(m, x) && x.sign == 1
    ensures x.Mag() <= m.Mag() && Cong(x.Mag(), old(x.Mag()), m.Mag())
    ensures x.Mag() == m.Mag() <==> WordMultiple(old(x.Mag()), m.Mag())
  {
    hide Val, Pow, Cong, WordMultiple, Scaled, Two, Msb, Normbits;
    ghost var v, n, s := x.Mag(), m.Mag(), m.num[..m.length];
    NonZero(m);
    Normalize(x, m, normbits);
    ghost var p, l := Two(normbits), x.length;
    Divide(x, m);
    MultipleIff(v, n, p, l, m.length);
    Unscaled(x.Mag(), v, n, p);
    BigRightShift(m, normbits, m);
    BigRightShift(x, normbits, x);
    SameLength(s, m.num[..m.length]);
  }

  /** Shifts both numbers up until the top bit of the modulus is set. */
  method Normalize(x: Bignum, m: Bignum, normbits: nat)
    requires m.Valid() && x.Valid() && Apart(m, x) && x.sign == 1 && x.Trimmed() && m.Trimmed()
    requires 2 <= m.length && m.Mag() <= x.Mag() && 0 < m.num[m.length - 1] < TOPBIT && normbits == Normbits(m.num[m.length - 1])
    modifies x, x.num, m, m.num
    ensures x.Valid() && m.Valid() && x.Trimmed() && m.Trimmed() && (x.num == old(x.num) || fresh(x.num)) && (m.num == old(m.num) || fresh(m.num))
    ensures Apart(m, x) && x.sign == 1 && m.sign == old(m.sign) && m.length == old(m.length) <= x.length && TOPBIT <= m.num[m.length - 1]
    ensures m.Mag() == old(m.Mag()) * Two(normbits) && x.Mag() == old(x.Mag()) * Two(normbits)
    ensures Pow(m.length - 1) <= m.Mag() < Pow(m.length) && Pow(x.length - 1) <= x.Mag() < Pow(x.length)
  {
    hide Val, Pow, Two, Msb;
    MsbWord(m.num[m.length - 1]);
    ghost var s := m.num[..m.length];
    BigLeftShift(m, normbits, m);
    Normalized(s, m.num[..m.length], normbits);
    BigLeftShift(x, normbits, x);
    MulLess(old(m.Mag()), old(x.Mag()), Two(normbits));
    NonZero(m);
    LongEnough(x, m);
    SizeOf(x);
    SizeOf(m);
  }

  lemma NonZero(m: Bignum)
    requires m.Valid() && m.Trimmed() && 2 <= m.length
    ensures 0 < m.Mag() && 0 < m.num[m.length - 1]
  {
    ValTop(m.num[..m.length]);
  }

  lemma LongEnough(x: Bignum, m: Bignum)
    requires m.Valid() && x.Valid() && m.Trimmed() && x.Trimmed() && m.Mag() <= x.Mag()
    ensures m.length <= x.length
  {
    if x.length < m.length { ValLonger(x.num[..x.length], m.num[..m.length]); }
  }

  lemma SizeOf(x: Bignum)
    requires x.Valid() && x.Trimmed()
    ensures x.Mag() < Pow(x.length) && (0 < x.Mag() ==> Pow(x.length - 1) <= x.Mag())
  {
    ValBound(x.num[..x.length]);
    if x.num[x.length - 1] != 0 { ValTop(x.num[..x.length]); } else { ValOne(x.num[..x.length]); }
  }

  lemma SameLength(s: seq<Word>, t: seq<Word>)
    requires s != [] && t != [] && Val(s) == Val(t) && (|s| == 1 || s[|s| - 1] != 0) && (|t| == 1 || t[|t| - 1] != 0)
    ensures |s| == |t|
  {
    if |s| < |t| { ValLonger(s, t); }
    if |t| < |s| { ValLonger(t, s); }
  }

  /** Both numbers shifted up alike, one is the other shifted up by words just when it was before. */
  lemma MultipleIff(v: nat, n: nat, p: nat, l: nat, k: nat)
    requires 0 < n && 0 < p && 1 <= k <= l
    requires Pow(k - 1) <= n * p < Pow(k) && Pow(l - 1) <= v * p < Pow(l)
    ensures v * p == Scaled(n * p, l - k) <==> WordMultiple(v, n)
  {
    hide Pow;
    if v * p == Scaled(n * p, l - k) {
      MulAssoc(n, p, Pow(l - k));
      MulAssoc(n, Pow(l - k), p);
      EqualFactors(v, n * Pow(l - k), p);
      assert v == Scaled(n, l - k);
    }
    if WordMultiple(v, n) {
      var j: nat :| v == Scaled(n, j);
      MulAssoc(n, p, Pow(j));
      MulAssoc(n, Pow(j), p);
      PowAdd(k - 1, j);
      PowAdd(k, j);
      MulLess(Pow(k - 1), n * p, Pow(j));
      MulLessStrict(n * p, Pow(k), Pow(j));
      if l < k + j { PowGrows(l, k + j - 1); }
      if l > k + j { PowGrows(k + j, l - 1); }
    }
  }

  lemma EqualFactors(x: int, y: int, p: int)
    requires x * p == y * p && 0 < p
    ensures x == y
  {
    if x < y { MulLessStrict(x, y, p); }
    if y < x { MulLessStrict(y, x, p); }
  }

  /** A remainder of numbers shifted up alike is shifted up as well. */
  lemma Unscaled(x: nat, v: nat, n: nat, p: nat)
    requires 0 < p && 0 < n && x <= n * p && Cong(x, v * p, n * p)
    ensures x / p <= n && Cong(x / p, v, n) && (x / p == n <==> x == n * p) && (n * p) / p == n
  {
    var k :| CongBy(x, v * p, n * p, k);
    MulAssoc(k, n, p);
    MulDist(p, v, k * n);
    var y := v + k * n;
    assert x == y * p;
    if y < 0 { MulLess(y, -1, p); }
    Divided(x, p, y, 0);
    Divided(n * p, p, n, 0);
    if y > n { MulLessStrict(n, y, p); }
    CongIs(y, v, n, k);
  }

  /** What is smaller than m is not m shifted up. */
  lemma NotMultiple(v: nat, m: nat)
    requires v < m
    ensures !WordMultiple(v, m)
  {
    if WordMultiple(v, m) {
      var j: nat :| v == Scaled(m, j);
      MulLess(1, Pow(j), m);
    }
  }
}
