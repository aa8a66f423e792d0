/** One digit of the long division: the estimate from the leading words, and what is left. */
module BigModDigit {
  import opened Words
  import opened LongMult
  import opened CoreMult
  import opened WordSums
  import opened Bignums
  import opened BigMult
  import opened LongDivide
  import opened Congruence

  // ----- the estimate

  /** The leading words of the divisor and of the dividend. */
  function Two2(ms: Word, m0: Word): nat {
    ms * BASE + m0
  }

  function Three(xi: Word, x1: Word, x0: Word): nat {
    xi * BASE * BASE + x1 * BASE + x0
  }

  /** q times the leading words of the divisor fit, and no larger word does. */
  ghost predicate Estimated(q: nat, v: nat, t: nat) {
    q < BASE && q * v <= t && forall u: nat :: u < BASE && u * v <= t ==> u <= q
  }

  ghost predicate AtMost(q: int, v: nat, t: nat) {
    forall u: nat :: u < BASE && u * v <= t ==> u <= q
  }

  lemma FirstGuess(q: nat, xi: Word, x1: Word, x0: Word, ms: Word, m0: Word)
    requires TOPBIT <= ms && (if xi == ms then q == BASE - 1 else Floor(q, xi * BASE + x1, ms))
    ensures AtMost(q, Two2(ms, m0), Three(xi, x1, x0))
  {
    forall u: nat | u < BASE && u * Two2(ms, m0) <= Three(xi, x1, x0)
      ensures u <= q
    {
      if xi != ms { GuessAbove(u, q, xi, x1, x0, ms, m0); }
    }
  }

  lemma GuessAbove(u: nat, q: nat, xi: Word, x1: Word, x0: Word, ms: Word, m0: Word)
    requires 0 < ms && u * Two2(ms, m0) <= Three(xi, x1, x0) && Floor(q, xi * BASE + x1, ms)
    ensures u <= q
  {
    MulDist(u, ms * BASE, m0);
    MulAssoc(u, ms, BASE);
    MulLess(0, m0, u);
    assert (u * ms) * BASE <= (xi * BASE + x1) * BASE + x0;
    assert u * ms <= xi * BASE + x1;
    if u > q {
      MulLess(q + 1, u, ms);
      MulDist(ms, q, 1);
    }
  }

  lemma LowerGuess(q: int, v: nat, t: nat)
    requires AtMost(q, v, t) && 0 <= q < BASE && q * v > t
    ensures AtMost(q - 1, v, t) && 0 < q
  {
    if q == 0 { ZeroTimes(v); }
  }

  lemma GuessFits(q: nat, v: nat, t: nat)
    requires AtMost(q, v, t) && q < BASE && q * v <= t
    ensures Estimated(q, v, t)
  {
  }

  /** A quotient digit, from three words of the dividend and two of the divisor. */
  method EstimateDigit(xi: Word, x1: Word, x0: Word, ms: Word, m0: Word) returns (q: Word)
    requires TOPBIT <= ms && xi <= ms
    ensures Estimated(q, Two2(ms, m0), Three(xi, x1, x0))
  {
    hide Estimated, AtMost, Floor;
    if xi == ms {
      q := 0xFFFF_FFFF;
    } else {
      GuessDefined(xi, x1, ms);
      q := LongBigDivide(xi * BASE + x1, ms);
    }
    FirstGuess(q, xi, x1, x0, ms, m0);
    var v, t := Two2(ms, m0), Three(xi, x1, x0);
    var tmp := q * v;
    while tmp > t
      invariant tmp == q * v && AtMost(q, v, t)
      decreases q
    {
      LowerGuess(q, v, t);
      q := q - 1;
      tmp := q * v;
    }
    GuessFits(q, v, t);
  }

  lemma GuessDefined(xi: Word, x1: Word, ms: Word)
    requires xi < ms
    ensures xi * BASE + x1 < ms * BASE
  {
  }

  // ----- what is left

  /**
   With the digit estimated from the leading words, the rest lies within the divisor on both
   sides: a negative one takes a single addition of the divisor to put right.
   */
  lemma DigitLeaves(x: nat, d: nat, q: nat, t: nat, xl: nat, v: nat, dl: nat, p: nat)
    requires x == t * p + xl && xl < p && d == v * p + dl && dl < p && 0 < p
    requires TOPBIT * BASE <= v && x <= d * BASE && Estimated(q, v, t)
    ensures q * d - x < d && x - q * d <= d && (x < d * BASE ==> x - q * d < d) && (x == d * BASE ==> x - q * d == d)
  {
    hide Estimated;
    EstimateUpper(x, d, q, t, xl, v, dl, p);
    EstimateLower(x, d, q, t, xl, v, dl, p);
  }

  lemma EstimateFacts(q: nat, v: nat, t: nat)
    requires Estimated(q, v, t)
    ensures q < BASE && q * v <= t
  {
  }

  lemma EstimateUpper(x: nat, d: nat, q: nat, t: nat, xl: nat, v: nat, dl: nat, p: nat)
    requires x == t * p + xl && xl < p && d == v * p + dl && dl < p && 0 < p
    requires 0 < v && Estimated(q, v, t)
    ensures q * d - x < d || v < BASE
  {
    hide Estimated;
    EstimateFacts(q, v, t);
    MulDist(q, v * p, dl);
    MulAssoc(q, v, p);
    MulLess(q * v, t, p);
    MulLess(dl, p, q);
    MulLess(q, BASE, p);
    if BASE <= v { MulLess(BASE, v, p); Strict(q, p); }
  }

  lemma Strict(q: int, p: int)
    requires q < BASE && 0 < p
    ensures q * p < BASE * p
  {
    MulLess(q + 1, BASE, p);
    MulDist(p, q, 1);
  }

  lemma EstimateLower(x: nat, d: nat, q: nat, t: nat, xl: nat, v: nat, dl: nat, p: nat)
    requires x == t * p + xl && xl < p && d == v * p + dl && dl < p && 0 < p
    requires 0 < v && x <= d * BASE && Estimated(q, v, t)
    ensures x - q * d <= d && (x < d * BASE ==> x - q * d < d) && (x == d * BASE ==> x - q * d == d)
  {
    EstimateFacts(q, v, t);
    MulLess(1, v, p);
    var u := if x < d * BASE then x / d else BASE - 1;
    if x < d * BASE {
      FloorOf(x, d, u);
      BelowBase(u, d, x);
    } else {
      MulDist(d, BASE - 1, 1);
    }
    FactorFits(u, x, d, t, xl, v, dl, p);
    MulLess(u, q, d);
  }

  lemma FloorOf(x: nat, d: nat, u: int)
    requires 0 < d && u == x / d
    ensures 0 <= u && u * d <= x < u * d + d
  {
    DivNonNeg(x, d);
    assert x == d * u + x % d;
  }

  lemma BelowBase(u: nat, d: nat, x: nat)
    requires u * d <= x < d * BASE
    ensures u < BASE
  {
    if u >= BASE { MulLess(BASE, u, d); }
  }

  /** A multiple of the divisor that fits, fits in the leading words. */
  lemma FactorFits(u: nat, x: nat, d: nat, t: nat, xl: nat, v: nat, dl: nat, p: nat)
    requires x == t * p + xl && xl < p && d == v * p + dl && 0 < p && u * d <= x
    ensures u * v <= t
  {
    MulDist(u, v * p, dl);
    MulAssoc(u, v, p);
    MulLess(0, dl, u);
    if u * v > t {
      MulLess(t + 1, u * v, p);
      MulDist(p, t, 1);
    }
  }

  // ----- words of a number

  /** The top three words of the first i + 1, when the words from i + 1 on are zero. */
  lemma TopThree(s: seq<Word>, n: nat, i: nat)
    requires 2 <= i < |s| && n <= |s| && (forall j :: n <= j < |s| ==> s[j] == 0) && Val(s[..n]) < Pow(i + 1) && n != 0
    requires n == 1 || s[n - 1] != 0
    ensures n <= i + 1
    ensures Val(s[..n]) == Val(s[..i - 2]) + Pow(i - 2) * Three(s[i], s[i - 1], s[i - 2])
  {
    hide Val, Pow;
    NotLonger(s[..n], i + 1);
    ValTrim(s[..i + 1], n);
    assert s[..i + 1][..n] == s[..n];
    ValNext(s, i);
    ValNext(s, i - 1);
    ValNext(s, i - 2);
    PowNext(i - 2);
    PowNext(i - 1);
    ThreeWords(Val(s[..i - 2]), Pow(i - 2), s[i], s[i - 1], s[i - 2]);
  }

  lemma ThreeWords(low: int, p: int, x: Word, y: Word, z: Word)
    ensures ((low + z * p) + y * (p * BASE)) + x * (p * BASE * BASE) == low + p * Three(x, y, z)
  {
    MulAssoc(y, BASE, p);
    MulAssoc(x, BASE * BASE, p);
    MulDist(p, x * BASE * BASE, y * BASE + z);
    MulDist(p, y * BASE, z);
  }

  /** The top two words of a number of k words. */
  lemma TopTwo(s: seq<Word>, k: nat)
    requires 2 <= k <= |s|
    ensures Val(s[..k]) == Val(s[..k - 2]) + Pow(k - 2) * Two2(s[k - 1], s[k - 2])
  {
    hide Val, Pow;
    ValNext(s, k - 1);
    ValNext(s, k - 2);
    PowNext(k - 2);
    TwoWords(Val(s[..k - 2]), Pow(k - 2), s[k - 1], s[k - 2]);
  }

  lemma TwoWords(low: int, p: int, y: Word, z: Word)
    ensures (low + z * p) + y * (p * BASE) == low + p * Two2(y, z)
  {
    MulAssoc(y, BASE, p);
    MulDist(p, y * BASE, z);
  }

  /** d is a divisor of i words, with ms and m0 the two on top. */
  ghost predicate IsDivisor(d: nat, i: nat, ms: Word, m0: Word) {
    2 <= i && TOPBIT <= ms && exists low: nat :: LowPart(d, i, ms, m0, low)
  }

  ghost predicate LowPart(d: nat, i: nat, ms: Word, m0: Word, low: nat)
    requires 2 <= i
  {
    d == Two2(ms, m0) * Pow(i - 2) + low && low < Pow(i - 2)
  }

  lemma DivisorSize(d: nat, i: nat, ms: Word, m0: Word)
    requires IsDivisor(d, i, ms, m0)
    ensures Pow(i - 1) <= d < Pow(i) && TOPBIT * Pow(i - 1) <= d && d * BASE < Pow(i + 1)
  {
    var low: nat :| LowPart(d, i, ms, m0, low);
    var p := Pow(i - 2);
    PowNext(i - 2);
    PowNext(i - 1);
    PowNext(i);
    MulLess(TOPBIT * BASE, Two2(ms, m0), p);
    MulLess(Two2(ms, m0) + 1, BASE * BASE, p);
    MulDist(p, Two2(ms, m0), 1);
  }

  /** The leading word of what is left does not exceed that of the divisor. */
  lemma LeadingWord(x: nat, d: nat, i: nat, ms: Word, m0: Word, xl: nat, xi: Word, x1: Word, x0: Word)
    requires IsDivisor(d, i, ms, m0) && x <= d * BASE && x == xl + Pow(i - 2) * Three(xi, x1, x0)
    ensures xi <= ms
  {
    hide Pow;
    if xi > ms {
      var low: nat :| LowPart(d, i, ms, m0, low);
      MulLess((ms + 1) * BASE * BASE, Three(xi, x1, x0), Pow(i - 2));
      MulLess(Two2(ms, m0) + 1, (ms + 1) * BASE, Pow(i - 2));
      MulDist(Pow(i - 2), Two2(ms, m0), 1);
    }
  }

  /** The rest after taking away q times the divisor, whatever its low words. */
  lemma DigitLeft(x: nat, d: nat, i: nat, ms: Word, m0: Word, xl: nat, xi: Word, x1: Word, x0: Word, q: nat)
    requires IsDivisor(d, i, ms, m0) && x <= d * BASE && x == xl + Pow(i - 2) * Three(xi, x1, x0) && xl < Pow(i - 2)
    requires Estimated(q, Two2(ms, m0), Three(xi, x1, x0))
    ensures q * d - x < d && x - q * d <= d && (x < d * BASE ==> x - q * d < d) && (x == d * BASE ==> x - q * d == d)
  {
    hide Pow, Estimated;
    var low: nat :| LowPart(d, i, ms, m0, low);
    DigitLeaves(x, d, q, Three(xi, x1, x0), xl, Two2(ms, m0), low, Pow(i - 2));
  }
}
