/** Powers of a fixed base, by way of its powers to the powers of sixteen. */
module Brickell {
  import opened Words
  import opened LongMult
  import opened Bignums
  import opened Shifts
  import opened Congruence
  import opened Modulo
  import opened Montgomery
  import opened ModularPower

  // ----- the table of the base

  /** Entry i stands for a to the power of sixteen to the i. */
  ghost predicate BaseTable(t: seq<Bignum>, a: int, n: nat, r: nat, safe: bool)
    reads t, set x | x in t :: x.num
  {
    forall i :: 0 <= i < |t| ==> StandsFor(t[i], Exp(a, Two(4 * i)), n, r, safe)
  }

  lemma BaseGrows(t: seq<Bignum>, y: Bignum, s: set<object>, a: int, n: nat, r: nat, safe: bool)
    requires BaseTable(t, a, n, r, safe) && StandsFor(y, Exp(a, Two(4 * |t|)), n, r, safe) && Within(t, s)
    ensures BaseTable(t + [y], a, n, r, safe) && Within(t + [y], s + {y, y.num})
  {
    hide StandsFor, Exp, Two;
  }

  lemma SixteenNext(a: int, i: nat)
    ensures Exp(Exp(a, Two(4 * i)), 16) == Exp(a, Two(4 * (i + 1))) && Exp(a, Two(4 * 0)) == a
  {
    hide Exp, Two;
    TwoAdd(4 * i, 4);
    TwoFour();
    ExpTimes(a, Two(4 * i), 16);
    ExpOne(a);
  }

  /**
   No carry is lost on the way to the table of a: what can lose one are the first two squarings,
   as afterwards both numbers have room for all.
   */
  ghost predicate BaseSecure(a: int, n: nat, k: nat) {
    NoSpill(a, 1, 1, n, k) && NoSpill(a, 2, 2, n, k)
  }

  lemma SquareKeeps(x: Bignum, d: Bignum, modulus: Bignum, a: int, i: nat, n: nat, r: nat, safe: bool)
    requires modulus.Valid() && n == modulus.Mag() && r == Pow(modulus.length) && StandsFor(x, Exp(a, i), n, r, safe)
    requires safe ==> HasRoom(d, modulus.length) || NoSpill(a, i, i, n, modulus.length)
    ensures x.Valid() && (safe ==> KeepsCarry(x, x, d, modulus))
  {
    hide Val, Pow, Cong, Exp, Spills;
  }

  /** c := its sixteenth power, by way of d. */
  method ToSixteenth(c: Bignum, d: Bignum, modulus: Bignum, n0p: Word, ghost u: int, ghost safe: bool)
    requires MontSet(modulus, n0p) && StandsFor(c, u, modulus.Mag(), Pow(modulus.length), safe)
    requires d.Valid() && Apart(d, c) && Apart(modulus, c) && Apart(modulus, d)
    requires safe ==> (HasRoom(c, modulus.length) && HasRoom(d, modulus.length)) || BaseSecure(u, modulus.Mag(), modulus.length)
    modifies c, c.num, d, d.num, modulus`length
    ensures MontSet(modulus, n0p) && modulus.length == old(modulus.length) && modulus.Mag() == old(modulus.Mag())
    ensures (c.num == old(c.num) || fresh(c.num)) && (d.num == old(d.num) || fresh(d.num)) && Apart(d, c)
    ensures HasRoom(c, modulus.length) && HasRoom(d, modulus.length)
    ensures d.Valid() && StandsFor(c, Exp(u, 16), modulus.Mag(), Pow(modulus.length), safe)
  {
    hide Val, Pow, Cong, StandsFor, Exp, Spills, NoSpill;
    ghost var n, r := modulus.Mag(), Pow(modulus.length);
    ghost var u2 := u * u;
    FirstPowersOf(u);
    SquareKeeps(c, d, modulus, u, 1, n, r, safe);
    MontMultiply(c, c, d, modulus, n0p, u, u, safe);
    ghost var u4 := u2 * u2;
    SquareKeeps(d, c, modulus, u, 2, n, r, safe);
    MontMultiply(d, d, c, modulus, n0p, u2, u2, safe);
    ghost var u8 := u4 * u4;
    MontMultiply(c, c, d, modulus, n0p, u4, u4, safe);
    ghost var u16 := u8 * u8;
    MontMultiply(d, d, c, modulus, n0p, u8, u8, safe);
    ExpSixteen(u, u2, u4, u8, u16);
  }

  lemma FirstPowersOf(u: int)
    ensures Exp(u, 1) == u && Exp(u, 2) == u * u
  {
    ExpOne(u);
    ExpAdd(u, 1, 1);
  }

  /** The next entry: the sixteenth power of the last, copied. */
  method NextBase(c: Bignum, d: Bignum, modulus: Bignum, n0p: Word, ghost v: int, ghost i: nat, ghost safe: bool) returns (y: Bignum)
    requires MontSet(modulus, n0p) && StandsFor(c, Exp(v, Two(4 * i)), modulus.Mag(), Pow(modulus.length), safe)
    requires d.Valid() && Apart(d, c) && Apart(modulus, c) && Apart(modulus, d)
    requires safe ==> (HasRoom(c, modulus.length) && HasRoom(d, modulus.length)) || (i == 0 && BaseSecure(v, modulus.Mag(), modulus.length))
    modifies c, c.num, d, d.num, modulus`length
    ensures MontSet(modulus, n0p) && modulus.length == old(modulus.length) && modulus.Mag() == old(modulus.Mag())
    ensures (c.num == old(c.num) || fresh(c.num)) && (d.num == old(d.num) || fresh(d.num)) && Apart(d, c) && d.Valid()
    ensures HasRoom(c, modulus.length) && HasRoom(d, modulus.length)
    ensures fresh(y) && fresh(y.num) && y.num != c.num && y.num != d.num
    ensures StandsFor(c, Exp(v, Two(4 * (i + 1))), modulus.Mag(), Pow(modulus.length), safe)
    ensures StandsFor(y, Exp(v, Two(4 * (i + 1))), modulus.Mag(), Pow(modulus.length), safe)
  {
    hide Val, Pow, Cong, StandsFor, Exp, Two, BaseSecure;
    SixteenNext(v, i);
    ToSixteenth(c, d, modulus, n0p, Exp(v, Two(4 * i)), safe);
    y := NewCopy(c, Exp(v, Two(4 * (i + 1))), modulus.Mag(), Pow(modulus.length), safe);
  }

  /** The powers of a to the powers of sixteen, for exponents of up to explength nibbles, if no carry is lost. */
  method G16BigPow(a: Bignum, modulus: Bignum, explength: nat) returns (t: seq<Bignum>, ghost s: set<object>)
    requires a.Valid() && a.Trimmed() && a.sign == 1 && OddModulus(modulus) && Apart(a, modulus) && 1 <= explength
    modifies modulus, modulus.num
    ensures OddModulus(modulus) && modulus.length == old(modulus.length) && modulus.Mag() == old(modulus.Mag())
    ensures modulus.num == old(modulus.num) || fresh(modulus.num)
    ensures |t| == explength && BaseTable(t, old(a.Mag()), modulus.Mag(), Pow(modulus.length), explength == 1 || BaseSecure(old(a.Mag()), modulus.Mag(), modulus.length))
    ensures fresh(s) && Within(t, s) && modulus.num !in s
  {
    hide Val, Pow, Cong, StandsFor, Exp, Two, BaseTable, BaseSecure;
    ghost var v := a.Mag();
    ghost var safe := explength == 1 || BaseSecure(v, modulus.Mag(), modulus.length);
    var n0p := MontPrepare(modulus);
    var c := ResForm(a, modulus, safe);
    var d := new Bignum(0);
    t, s := FillBase(c, d, modulus, n0p, explength, v, safe);
  }

  method FillBase(c: Bignum, d: Bignum, modulus: Bignum, n0p: Word, explength: nat, ghost v: int, ghost safe: bool) returns (t: seq<Bignum>, ghost s: set<object>)
    requires MontSet(modulus, n0p) && StandsFor(c, v, modulus.Mag(), Pow(modulus.length), safe) && 1 <= explength
    requires d.Valid() && Apart(d, c) && Apart(modulus, c) && Apart(modulus, d)
    requires safe ==> explength == 1 || BaseSecure(v, modulus.Mag(), modulus.length)
    modifies c, c.num, d, d.num, modulus`length
    ensures MontSet(modulus, n0p) && modulus.length == old(modulus.length) && modulus.Mag() == old(modulus.Mag())
    ensures |t| == explength && BaseTable(t, v, modulus.Mag(), Pow(modulus.length), safe)
    ensures fresh(s) && Within(t, s)
  {
    hide Val, Pow, Cong, StandsFor, Exp, Two, BaseTable, BaseSecure;
    ghost var n, r := modulus.Mag(), Pow(modulus.length);
    SixteenNext(v, 0);
    var t0 := NewCopy(c, v, n, r, safe);
    t, s := [t0], {t0, t0.num};
    BaseStart(t0, v, n, r, safe);
    ghost var i: nat := 0;
    while |t| < explength
      invariant |t| == i + 1 <= explength && MontSet(modulus, n0p) && modulus.length == old(modulus.length) && modulus.Mag() == n
      invariant fresh(s) && Within(t, s) && c.num !in s && d.num !in s
      invariant (c.num == old(c.num) || fresh(c.num)) && (d.num == old(d.num) || fresh(d.num)) && Apart(d, c) && d.Valid()
      invariant BaseTable(t, v, n, r, safe) && StandsFor(c, Exp(v, Two(4 * i)), n, r, safe)
      invariant 0 < i ==> HasRoom(c, modulus.length) && HasRoom(d, modulus.length)
    {
      var y := NextBase(c, d, modulus, n0p, v, i, safe);
      BaseGrows(t, y, s, v, n, r, safe);
      i := i + 1;
      t := t + [y];
      s := s + {y, y.num};
    }
  }

  lemma BaseStart(t0: Bignum, v: int, n: nat, r: nat, safe: bool)
    requires StandsFor(t0, v, n, r, safe)
    ensures BaseTable([t0], v, n, r, safe)
  {
    hide StandsFor;
    SixteenNext(v, 0);
  }

  // ----- the exponents

  function NibbleAt(e: seq<Word>, k: nat): (n: nat)
    requires k / 8 < |e|
    ensures n < 16
  {
    Nibble(e[k / 8], k)
  }

  /** The powers of sixteen from k to len whose nibble in e is j. */
  function Where(e: seq<Word>, j: nat, k: nat, len: nat): nat
    requires len <= 8 * |e| && k <= len
    decreases len - k
  {
    if k == len then 0 else (if NibbleAt(e, k) == j then Two(4 * k) else 0) + Where(e, j, k + 1, len)
  }

  /** The part of e in nibbles k to len. */
  function Weight(e: seq<Word>, k: nat, len: nat): nat
    requires len <= 8 * |e| && k <= len
    decreases len - k
  {
    if k == len then 0 else NibbleAt(e, k) * Two(4 * k) + Weight(e, k + 1, len)
  }

  /** The entries for the nibbles from j to 15, added up. */
  function AllFrom(e: seq<Word>, j: nat, k: nat, len: nat): nat
    requires len <= 8 * |e| && k <= len
    decreases 16 - j
  {
    if j >= 16 then 0 else Where(e, j, k, len) + AllFrom(e, j + 1, k, len)
  }

  /** Those sums from j to 15, added up. */
  function TriangleFrom(e: seq<Word>, j: nat, k: nat, len: nat): nat
    requires len <= 8 * |e| && k <= len
    decreases 16 - j
  {
    if j >= 16 then 0 else AllFrom(e, j, k, len) + TriangleFrom(e, j + 1, k, len)
  }

  lemma {:induction false} AllFromStep(e: seq<Word>, j: nat, k: nat, len: nat)
    requires len <= 8 * |e| && k < len
    ensures AllFrom(e, j, k, len) == AllFrom(e, j, k + 1, len) + if j <= NibbleAt(e, k) then Two(4 * k) else 0
    decreases 16 - j
  {
    hide Two, NibbleAt;
    if j < 16 { AllFromStep(e, j + 1, k, len); }
  }

  /** A nibble counts once for every j up to it. */
  lemma {:induction false} TriangleStep(e: seq<Word>, j: nat, k: nat, len: nat)
    requires len <= 8 * |e| && k < len
    ensures TriangleFrom(e, j, k, len) == TriangleFrom(e, j, k + 1, len) + (if j <= NibbleAt(e, k) then (NibbleAt(e, k) + 1 - j) * Two(4 * k) else 0)
    decreases 16 - j
  {
    hide Two, NibbleAt, AllFrom;
    AllFromStep(e, j, k, len);
    if j < 16 {
      TriangleStep(e, j + 1, k, len);
      Count(NibbleAt(e, k), j, Two(4 * k));
    }
  }

  lemma Count(q: nat, j: nat, p: nat)
    ensures (if j <= q then p else 0) + (if j + 1 <= q then (q + 1 - (j + 1)) * p else 0) == if j <= q then (q + 1 - j) * p else 0
  {
    if j < q { MulDist(p, q - j, 1); }
  }

  lemma {:induction false} TriangleIsWeight(e: seq<Word>, k: nat, len: nat)
    requires len <= 8 * |e| && k <= len
    ensures TriangleFrom(e, 1, k, len) == Weight(e, k, len)
    decreases len - k
  {
    hide Two, NibbleAt, TriangleFrom;
    if k < len {
      TriangleIsWeight(e, k + 1, len);
      TriangleStep(e, 1, k, len);
      FromOne(NibbleAt(e, k), Two(4 * k));
    } else {
      NoTriangle(e, 1, len);
    }
  }

  lemma FromOne(q: nat, p: nat)
    ensures (if 1 <= q then (q + 1 - 1) * p else 0) == q * p
  {
  }

  lemma {:induction false} NoTriangle(e: seq<Word>, j: nat, len: nat)
    requires len <= 8 * |e|
    ensures AllFrom(e, j, len, len) == 0 && TriangleFrom(e, j, len, len) == 0
    decreases 16 - j
  {
    if j < 16 { NoTriangle(e, j + 1, len); }
  }

  /** An exponent below sixteen to the len is the sum of its len nibbles. */
  lemma {:induction false} WeightIsValue(e: seq<Word>, k: nat, len: nat)
    requires len <= 8 * |e| && k <= len && Val(e) < Two(4 * len)
    ensures Weight(e, k, len) == Two(4 * k) * Above(Val(e), k)
    decreases len - k
  {
    hide Two, Val, Nibble, Above;
    if k == len {
      AboveAll(Val(e), len);
    } else {
      WeightIsValue(e, k + 1, len);
      NibbleOfNumber(e, k);
      TwoAdd(4 * k, 4);
      TwoFour();
      var p, a, b := Two(4 * k), Above(Val(e), k + 1), Nibble(e[k / 8], k);
      MulDist(p, 16 * a, b);
      MulAssoc(p, 16, a);
    }
  }

  lemma AboveAll(e: nat, len: nat)
    requires e < Two(4 * len)
    ensures Above(e, len) == 0
  {
    hide Two;
    Divided(e, Two(4 * len), 0, e);
  }

  lemma TriangleIsExponent(e: seq<Word>, len: nat)
    requires len <= 8 * |e| && Val(e) < Two(4 * len)
    ensures TriangleFrom(e, 1, 0, len) == Val(e)
  {
    hide Two, Val, TriangleFrom, Weight, Above;
    TriangleIsWeight(e, 0, len);
    WeightIsValue(e, 0, len);
    AboveNone(e);
    TwoFour();
    assert 4 * 0 == 0;
  }

  // ----- the exponentiation

  lemma WhereStep(v: int, e: seq<Word>, j: nat, i: nat, len: nat)
    requires len <= 8 * |e| && i < len
    ensures NibbleAt(e, i) == j ==> Exp(v, Two(4 * i)) * Exp(v, Where(e, j, i + 1, len)) == Exp(v, Where(e, j, i, len))
    ensures NibbleAt(e, i) != j ==> Where(e, j, i, len) == Where(e, j, i + 1, len)
    ensures Where(e, j, len, len) == 0
  {
    hide Exp, Two, NibbleAt;
    ExpAdd(v, Two(4 * i), Where(e, j, i + 1, len));
  }

  /** exp, padded with zeros, in the words of e. */
  ghost predicate Padded(exp: Bignum, e: seq<Word>, len: nat)
    reads exp, exp.num
  {
    && exp.Valid() && |e| <= exp.space && e == exp.num[..|e|] && len <= 8 * |e|
    && Val(e) == exp.Mag() && Val(e) < Two(4 * len)
  }

  lemma PaddedNibble(exp: Bignum, e: seq<Word>, len: nat, i: nat)
    requires Padded(exp, e, len) && i < len
    ensures i / 8 < exp.space && i / 8 < |e| && Nibble(exp.num[i / 8], i) == NibbleAt(e, i)
  {
    hide Nibble, Val, Two;
  }

  /** For moduli of 64 words or more: the first products, of an entry and 1, lose no carry. */
  ghost predicate CoefficientSecure(len: nat, v: int, n: nat, k: nat) {
    64 <= k ==> forall i :: 0 <= i < len ==> NoSpill(v, Two(4 * i), 0, n, k)
  }

  lemma EntryKeeps(x: Bignum, y: Bignum, tmp: Bignum, modulus: Bignum, i: nat, w: nat, len: nat, v: int, n: nat, r: nat, safe: bool)
    requires modulus.Valid() && n == modulus.Mag() && r == Pow(modulus.length) && i < len && x != y && (safe ==> CoefficientSecure(len, v, n, modulus.length))
    requires StandsFor(x, Exp(v, Two(4 * i)), n, r, safe) && StandsFor(y, Exp(v, w), n, r, safe) && (w == 0 || HasRoom(tmp, modulus.length))
    ensures x.Valid() && y.Valid() && (safe ==> KeepsCarry(x, y, tmp, modulus))
  {
    hide Val, Pow, Cong, Exp, Two, Spills;
    if safe && 64 <= modulus.length { assert NoSpill(v, Two(4 * i), 0, n, modulus.length); }
  }

  /** tmp1 := the product of the entries of g where the nibble of exp is j, by way of tmp2. */
  method Coefficient(exp: Bignum, j: nat, g: seq<Bignum>, ghost s: set<object>, tmp1: Bignum, tmp2: Bignum, modulus: Bignum, n0p: Word,
                     ghost e: seq<Word>, ghost v: int, ghost safe: bool)
    requires MontSet(modulus, n0p) && BaseTable(g, v, modulus.Mag(), Pow(modulus.length), safe) && Within(g, s) && Padded(exp, e, |g|)
    requires tmp1 !in s && tmp1.num !in s && tmp2 !in s && tmp2.num !in s && modulus !in s && modulus.num !in s && exp !in s && exp.num !in s
    requires Apart(tmp1, tmp2) && Apart(tmp1, modulus) && Apart(tmp2, modulus) && Apart(exp, tmp1) && Apart(exp, tmp2) && exp != modulus
    requires StandsFor(tmp1, 1, modulus.Mag(), Pow(modulus.length), safe) && tmp2.Valid()
    requires safe ==> CoefficientSecure(|g|, v, modulus.Mag(), modulus.length)
    modifies tmp1, tmp1.num, tmp2, tmp2.num, modulus`length, s
    ensures MontSet(modulus, n0p) && modulus.length == old(modulus.length) && modulus.Mag() == old(modulus.Mag())
    ensures (tmp1.num == old(tmp1.num) || fresh(tmp1.num)) && (tmp2.num == old(tmp2.num) || fresh(tmp2.num)) && Apart(tmp1, tmp2) && tmp2.Valid()
    ensures Within(g, s) && BaseTable(g, v, modulus.Mag(), Pow(modulus.length), safe) && tmp1.num !in s && tmp2.num !in s
    ensures |g| <= 8 * |e| && StandsFor(tmp1, Exp(v, Where(e, j, 0, |g|)), modulus.Mag(), Pow(modulus.length), safe)
  {
    hide Val, Pow, Cong, StandsFor, Exp, Two, BaseTable, Where, NibbleAt, Nibble, Padded, CoefficientSecure, KeepsCarry;
    ghost var n, r := modulus.Mag(), Pow(modulus.length);
    PaddedIs(exp, e, |g|);
    var i: nat := |g|;
    NoneAt(e, j, |g|, v);
    while i > 0
      invariant i <= |g| && MontSet(modulus, n0p) && modulus.length == old(modulus.length) && modulus.Mag() == n
      invariant (tmp1.num == old(tmp1.num) || fresh(tmp1.num)) && (tmp2.num == old(tmp2.num) || fresh(tmp2.num)) && Apart(tmp1, tmp2) && tmp2.Valid()
      invariant Within(g, s) && BaseTable(g, v, n, r, safe) && tmp1.num !in s && tmp2.num !in s
      invariant StandsFor(tmp1, Exp(v, Where(e, j, i, |g|)), n, r, safe) && (Where(e, j, i, |g|) == 0 || HasRoom(tmp2, modulus.length))
    {
      i := i - 1;
      PaddedNibble(exp, e, |g|, i);
      WhereStep(v, e, j, i, |g|);
      if Nibble(exp.num[i / 8], i) == j {
        BaseEntry(g, s, i, v, n, r, safe);
        EntryKeeps(g[i], tmp1, tmp2, modulus, i, Where(e, j, i + 1, |g|), |g|, v, n, r, safe);
        MultiplyInto(g[i], tmp1, tmp2, modulus, n0p, Exp(v, Two(4 * i)), Exp(v, Where(e, j, i + 1, |g|)), safe);
      }
    }
  }

  lemma PaddedIs(exp: Bignum, e: seq<Word>, len: nat)
    requires Padded(exp, e, len)
    ensures len <= 8 * |e| && exp.Valid()
  {
  }

  lemma NoneAt(e: seq<Word>, j: nat, len: nat, v: int)
    requires len <= 8 * |e|
    ensures Exp(v, Where(e, j, len, len)) == 1 && Where(e, j, len, len) == 0
  {
  }

  lemma BaseEntry(g: seq<Bignum>, s: set<object>, i: nat, v: int, n: nat, r: nat, safe: bool)
    requires BaseTable(g, v, n, r, safe) && Within(g, s) && i < |g|
    ensures StandsFor(g[i], Exp(v, Two(4 * i)), n, r, safe) && g[i] in s && g[i].num in s
  {
    hide StandsFor, Exp, Two;
  }

  /** y := the reduced product of x and y, by way of tmp. */
  method MultiplyInto(x: Bignum, y: Bignum, tmp: Bignum, modulus: Bignum, n0p: Word, ghost u: int, ghost w: int, ghost safe: bool)
    requires MontSet(modulus, n0p) && StandsFor(x, u, modulus.Mag(), Pow(modulus.length), safe) && StandsFor(y, w, modulus.Mag(), Pow(modulus.length), safe)
    requires tmp.Valid() && Apart(x, y) && Apart(x, tmp) && Apart(y, tmp) && Apart(modulus, tmp) && Apart(modulus, y) && modulus != x
    requires safe ==> KeepsCarry(x, y, tmp, modulus)
    modifies y, y.num, tmp, tmp.num, x`length, modulus`length
    ensures MontSet(modulus, n0p) && modulus.length == old(modulus.length) && modulus.Mag() == old(modulus.Mag())
    ensures x.length == old(x.length) && (y.num == old(y.num) || fresh(y.num)) && (tmp.num == old(tmp.num) || fresh(tmp.num)) && Apart(y, tmp) && tmp.Valid()
    ensures StandsFor(y, u * w, modulus.Mag(), Pow(modulus.length), safe) && HasRoom(tmp, modulus.length)
  {
    hide Val, Pow, Cong, StandsFor, KeepsCarry;
    ghost var n, r := modulus.Mag(), Pow(modulus.length);
    StandsParts(y, w, n, r, safe);
    MontMultiply(x, y, tmp, modulus, n0p, u, w, safe);
    StandsParts(tmp, u * w, n, r, safe);
    BigCopy(tmp, y);
    CopyStands(tmp, y, u * w, n, r, safe);
  }

  /** Entry j stands for the power where the nibble is j. */
  ghost predicate Coefficients(c: seq<Bignum>, e: seq<Word>, len: nat, v: int, n: nat, r: nat, safe: bool)
    reads c, set x | x in c :: x.num
  {
    len <= 8 * |e| && forall j :: 1 <= j < |c| ==> StandsFor(c[j], Exp(v, Where(e, j, 0, len)), n, r, safe)
  }

  lemma CoefficientsGrow(c: seq<Bignum>, y: Bignum, s: set<object>, e: seq<Word>, len: nat, v: int, n: nat, r: nat, safe: bool)
    requires Coefficients(c, e, len, v, n, r, safe) && StandsFor(y, Exp(v, Where(e, |c|, 0, len)), n, r, safe) && Within(c, s)
    ensures Coefficients(c + [y], e, len, v, n, r, safe) && Within(c + [y], s + {y, y.num})
  {
    hide StandsFor, Exp, Where;
  }

  /** The coefficient for one nibble value, as a number of its own. */
  method NextCoefficient(exp: Bignum, j: nat, g: seq<Bignum>, ghost s: set<object>, msOne: Bignum, tmp1: Bignum, tmp2: Bignum,
                         modulus: Bignum, n0p: Word, ghost e: seq<Word>, ghost v: int, ghost safe: bool) returns (y: Bignum)
    requires MontSet(modulus, n0p) && BaseTable(g, v, modulus.Mag(), Pow(modulus.length), safe) && Within(g, s) && Padded(exp, e, |g|)
    requires tmp1 !in s && tmp1.num !in s && tmp2 !in s && tmp2.num !in s && modulus !in s && modulus.num !in s && exp !in s && exp.num !in s
    requires Apart(tmp1, tmp2) && Apart(tmp1, modulus) && Apart(tmp2, modulus) && Apart(exp, tmp1) && Apart(exp, tmp2) && exp != modulus
    requires msOne !in s && msOne.num !in s && Apart(msOne, tmp1) && Apart(msOne, tmp2) && msOne != modulus
    requires StandsFor(msOne, 1, modulus.Mag(), Pow(modulus.length), safe) && tmp1.Valid() && tmp2.Valid()
    requires safe ==> CoefficientSecure(|g|, v, modulus.Mag(), modulus.length)
    modifies tmp1, tmp1.num, tmp2, tmp2.num, modulus`length, s
    ensures MontSet(modulus, n0p) && modulus.length == old(modulus.length) && modulus.Mag() == old(modulus.Mag())
    ensures (tmp1.num == old(tmp1.num) || fresh(tmp1.num)) && (tmp2.num == old(tmp2.num) || fresh(tmp2.num)) && Apart(tmp1, tmp2) && tmp1.Valid() && tmp2.Valid()
    ensures Within(g, s) && BaseTable(g, v, modulus.Mag(), Pow(modulus.length), safe) && tmp1.num !in s && tmp2.num !in s
    ensures fresh(y) && fresh(y.num) && y.num != tmp1.num && y.num != tmp2.num
    ensures |g| <= 8 * |e| && StandsFor(y, Exp(v, Where(e, j, 0, |g|)), modulus.Mag(), Pow(modulus.length), safe)
  {
    hide Val, Pow, Cong, StandsFor, Exp, Two, BaseTable, Where, Padded, CoefficientSecure;
    ghost var n, r := modulus.Mag(), Pow(modulus.length);
    StandsParts(msOne, 1, n, r, safe);
    BigCopy(msOne, tmp1);
    CopyStands(msOne, tmp1, 1, n, r, safe);
    Coefficient(exp, j, g, s, tmp1, tmp2, modulus, n0p, e, v, safe);
    y := NewCopy(tmp1, Exp(v, Where(e, j, 0, |g|)), n, r, safe);
    StandsParts(tmp1, Exp(v, Where(e, j, 0, |g|)), n, r, safe);
  }

  /** For each nibble value, the product of the entries where exp has it. */
  method BuildCoeffTable(exp: Bignum, g: seq<Bignum>, ghost s: set<object>, msOne: Bignum, modulus: Bignum, n0p: Word,
                         ghost e: seq<Word>, ghost v: int, ghost safe: bool) returns (c: seq<Bignum>, ghost cs: set<object>)
    requires MontSet(modulus, n0p) && BaseTable(g, v, modulus.Mag(), Pow(modulus.length), safe) && Within(g, s) && Padded(exp, e, |g|)
    requires modulus !in s && modulus.num !in s && exp !in s && exp.num !in s && exp != modulus
    requires msOne !in s && msOne.num !in s && msOne != modulus && StandsFor(msOne, 1, modulus.Mag(), Pow(modulus.length), safe)
    requires safe ==> CoefficientSecure(|g|, v, modulus.Mag(), modulus.length)
    modifies modulus`length, s
    ensures MontSet(modulus, n0p) && modulus.length == old(modulus.length) && modulus.Mag() == old(modulus.Mag())
    ensures Within(g, s) && BaseTable(g, v, modulus.Mag(), Pow(modulus.length), safe)
    ensures |c| == 16 && Coefficients(c, e, |g|, v, modulus.Mag(), Pow(modulus.length), safe) && fresh(cs) && Within(c, cs)
  {
    var tmp1 := new Bignum(0);
    var tmp2 := new Bignum(0);
    c, cs := FillCoefficients(exp, g, s, msOne, tmp1, tmp2, modulus, n0p, e, v, safe);
  }

  method FillCoefficients(exp: Bignum, g: seq<Bignum>, ghost s: set<object>, msOne: Bignum, tmp1: Bignum, tmp2: Bignum,
                          modulus: Bignum, n0p: Word, ghost e: seq<Word>, ghost v: int, ghost safe: bool) returns (c: seq<Bignum>, ghost cs: set<object>)
    requires MontSet(modulus, n0p) && BaseTable(g, v, modulus.Mag(), Pow(modulus.length), safe) && Within(g, s) && Padded(exp, e, |g|)
    requires tmp1 !in s && tmp1.num !in s && tmp2 !in s && tmp2.num !in s && modulus !in s && modulus.num !in s && exp !in s && exp.num !in s
    requires Apart(tmp1, tmp2) && Apart(tmp1, modulus) && Apart(tmp2, modulus) && Apart(exp, tmp1) && Apart(exp, tmp2) && exp != modulus
    requires msOne !in s && msOne.num !in s && Apart(msOne, tmp1) && Apart(msOne, tmp2) && msOne != modulus
    requires StandsFor(msOne, 1, modulus.Mag(), Pow(modulus.length), safe) && tmp1.Valid() && tmp2.Valid()
    requires safe ==> CoefficientSecure(|g|, v, modulus.Mag(), modulus.length)
    modifies tmp1, tmp1.num, tmp2, tmp2.num, modulus`length, s
    ensures MontSet(modulus, n0p) && modulus.length == old(modulus.length) && modulus.Mag() == old(modulus.Mag())
    ensures Within(g, s) && BaseTable(g, v, modulus.Mag(), Pow(modulus.length), safe)
    ensures |c| == 16 && Coefficients(c, e, |g|, v, modulus.Mag(), Pow(modulus.length), safe) && fresh(cs) && Within(c, cs)
  {
    hide Val, Pow, Cong, StandsFor, Exp, Two, BaseTable, Where, Padded, CoefficientSecure;
    ghost var n, r := modulus.Mag(), Pow(modulus.length);
    var one := new Bignum(1);
    c, cs := [one], {one, one.num};
    PaddedIs(exp, e, |g|);
    NoCoefficients(one, e, |g|, v, n, r, safe);
    while |c| < 16
      invariant 1 <= |c| <= 16 && MontSet(modulus, n0p) && modulus.length == old(modulus.length) && modulus.Mag() == n
      invariant (tmp1.num == old(tmp1.num) || fresh(tmp1.num)) && (tmp2.num == old(tmp2.num) || fresh(tmp2.num))
      invariant Apart(tmp1, tmp2) && tmp1.Valid() && tmp2.Valid() && tmp1.num !in s && tmp2.num !in s
      invariant Within(g, s) && BaseTable(g, v, n, r, safe) && fresh(cs) && Within(c, cs) && cs !! s
      invariant tmp1.num !in cs && tmp2.num !in cs
      invariant Coefficients(c, e, |g|, v, n, r, safe)
    {
      var y := NextCoefficient(exp, |c|, g, s, msOne, tmp1, tmp2, modulus, n0p, e, v, safe);
      CoefficientsGrow(c, y, cs, e, |g|, v, n, r, safe);
      c := c + [y];
      cs := cs + {y, y.num};
    }
  }

  lemma NoCoefficients(one: Bignum, e: seq<Word>, len: nat, v: int, n: nat, r: nat, safe: bool)
    requires len <= 8 * |e|
    ensures Coefficients([one], e, len, v, n, r, safe)
  {
  }

  lemma CoefficientEntry(c: seq<Bignum>, cs: set<object>, j: nat, e: seq<Word>, len: nat, v: int, n: nat, r: nat, safe: bool)
    requires Coefficients(c, e, len, v, n, r, safe) && Within(c, cs) && 1 <= j < |c|
    ensures len <= 8 * |e| && StandsFor(c[j], Exp(v, Where(e, j, 0, len)), n, r, safe) && c[j] in cs && c[j].num in cs
  {
    hide StandsFor, Exp, Where;
  }

  lemma Accumulate(v: int, e: seq<Word>, j: nat, len: nat)
    requires len <= 8 * |e| && 1 <= j < 16
    ensures Exp(v, Where(e, j, 0, len)) * Exp(v, AllFrom(e, j + 1, 0, len)) == Exp(v, AllFrom(e, j, 0, len))
    ensures Exp(v, TriangleFrom(e, j + 1, 0, len)) * Exp(v, AllFrom(e, j, 0, len)) == Exp(v, TriangleFrom(e, j, 0, len))
    ensures j == 15 ==> AllFrom(e, j, 0, len) == Where(e, j, 0, len) == TriangleFrom(e, j, 0, len)
  {
    hide Exp, Where;
    ExpAdd(v, Where(e, j, 0, len), AllFrom(e, j + 1, 0, len));
    ExpAdd(v, TriangleFrom(e, j + 1, 0, len), AllFrom(e, j, 0, len));
  }

  /** d and result, for one nibble value less: d has all coefficients from it on, result gains d. */
  method Descend(cj: Bignum, d: Bignum, result: Bignum, tmp: Bignum, modulus: Bignum, n0p: Word, ghost u: int, ghost w: int, ghost z: int, ghost safe: bool)
    requires MontSet(modulus, n0p) && StandsFor(cj, u, modulus.Mag(), Pow(modulus.length), safe) && StandsFor(d, w, modulus.Mag(), Pow(modulus.length), safe)
    requires StandsFor(result, z, modulus.Mag(), Pow(modulus.length), safe) && tmp.Valid()
    requires Apart(cj, d) && Apart(cj, tmp) && Apart(cj, result) && Apart(d, tmp) && Apart(d, result) && Apart(result, tmp)
    requires Apart(modulus, tmp) && Apart(modulus, d) && Apart(modulus, result) && modulus != cj
    requires safe ==> KeepsCarry(cj, d, tmp, modulus)
    modifies d, d.num, result, result.num, tmp, tmp.num, cj`length, modulus`length
    ensures MontSet(modulus, n0p) && modulus.length == old(modulus.length) && modulus.Mag() == old(modulus.Mag())
    ensures cj.length == old(cj.length) && (d.num == old(d.num) || fresh(d.num)) && (tmp.num == old(tmp.num) || fresh(tmp.num))
    ensures (result.num == old(result.num) || fresh(result.num)) && Apart(d, tmp) && Apart(d, result) && Apart(result, tmp) && tmp.Valid()
    ensures StandsFor(d, u * w, modulus.Mag(), Pow(modulus.length), safe) && StandsFor(result, z * (u * w), modulus.Mag(), Pow(modulus.length), safe)
    ensures HasRoom(tmp, modulus.length)
  {
    hide Val, Pow, Cong, StandsFor, Spills;
    ghost var n, r := modulus.Mag(), Pow(modulus.length);
    MultiplyInto(cj, d, tmp, modulus, n0p, u, w, safe);
    StandsParts(result, z, n, r, safe);
    MontMultiply(result, d, tmp, modulus, n0p, z, u * w, safe);
    StandsParts(tmp, z * (u * w), n, r, safe);
    BigCopy(tmp, result);
    CopyStands(tmp, result, z * (u * w), n, r, safe);
  }

  method CopyTwice(x: Bignum, d: Bignum, result: Bignum, ghost u: int, ghost n: nat, ghost r: nat, ghost safe: bool)
    requires StandsFor(x, u, n, r, safe) && d.Valid() && result.Valid() && Apart(x, d) && Apart(x, result) && Apart(d, result)
    modifies d, d.num, result, result.num
    ensures (d.num == old(d.num) || fresh(d.num)) && (result.num == old(result.num) || fresh(result.num)) && Apart(d, result)
    ensures StandsFor(d, u, n, r, safe) && StandsFor(result, u, n, r, safe)
  {
    hide Val, Cong;
    BigCopy(x, d);
    BigCopy(d, result);
  }

  /** For moduli of 64 words or more: the product of the two highest coefficients loses no carry. */
  ghost predicate CombineSecure(e: seq<Word>, len: nat, v: int, n: nat, k: nat)
    requires len <= 8 * |e|
  {
    64 <= k ==> NoSpill(v, Where(e, 14, 0, len), Where(e, 15, 0, len), n, k)
  }

  lemma TopKeeps(x: Bignum, y: Bignum, tmp: Bignum, modulus: Bignum, i: nat, e: seq<Word>, len: nat, v: int, n: nat, r: nat, safe: bool)
    requires modulus.Valid() && n == modulus.Mag() && r == Pow(modulus.length) && len <= 8 * |e| && x != y && i <= 14
    requires safe ==> CombineSecure(e, len, v, n, modulus.length)
    requires StandsFor(x, Exp(v, Where(e, i, 0, len)), n, r, safe) && StandsFor(y, Exp(v, AllFrom(e, i + 1, 0, len)), n, r, safe)
    requires i == 14 || HasRoom(tmp, modulus.length)
    ensures x.Valid() && y.Valid() && (safe ==> KeepsCarry(x, y, tmp, modulus))
  {
    hide Val, Pow, Cong, Exp, Two, Spills, Where;
    if i == 14 { Accumulate(v, e, 15, len); }
  }

  /** From the coefficients for 15 down to 1: each counts in d from there on, and d counts in result every time. */
  method CombineCoefficients(c: seq<Bignum>, ghost cs: set<object>, result: Bignum, d: Bignum, tmp: Bignum, modulus: Bignum, n0p: Word,
                             ghost e: seq<Word>, ghost len: nat, ghost v: int, ghost safe: bool)
    requires |c| == 16 && MontSet(modulus, n0p) && Coefficients(c, e, len, v, modulus.Mag(), Pow(modulus.length), safe) && Within(c, cs)
    requires d !in cs && d.num !in cs && tmp !in cs && tmp.num !in cs && result !in cs && result.num !in cs && modulus !in cs && modulus.num !in cs
    requires Apart(d, tmp) && Apart(d, result) && Apart(result, tmp) && Apart(modulus, tmp) && Apart(modulus, d) && Apart(modulus, result)
    requires d.Valid() && tmp.Valid() && result.Valid()
    requires len <= 8 * |e| && (safe ==> CombineSecure(e, len, v, modulus.Mag(), modulus.length))
    modifies d, d.num, result, result.num, tmp, tmp.num, modulus`length, cs
    ensures MontSet(modulus, n0p) && modulus.length == old(modulus.length) && modulus.Mag() == old(modulus.Mag())
    ensures result.num == old(result.num) || fresh(result.num)
    ensures len <= 8 * |e| && StandsFor(result, Exp(v, TriangleFrom(e, 1, 0, len)), modulus.Mag(), Pow(modulus.length), safe)
  {
    hide Val, Pow, Cong, StandsFor, Exp, Coefficients, Where, AllFrom, TriangleFrom, CombineSecure, KeepsCarry;
    ghost var n, r := modulus.Mag(), Pow(modulus.length);
    CoefficientEntry(c, cs, 15, e, len, v, n, r, safe);
    Accumulate(v, e, 15, len);
    CopyTwice(c[15], d, result, Exp(v, Where(e, 15, 0, len)), n, r, safe);
    var i := 14;
    while i > 0
      invariant 0 <= i <= 14 && MontSet(modulus, n0p) && modulus.length == old(modulus.length) && modulus.Mag() == n
      invariant (d.num == old(d.num) || fresh(d.num)) && (tmp.num == old(tmp.num) || fresh(tmp.num)) && (result.num == old(result.num) || fresh(result.num))
      invariant d.num !in cs && tmp.num !in cs && result.num !in cs && tmp.Valid() && (i < 14 ==> HasRoom(tmp, modulus.length))
      invariant Apart(d, tmp) && Apart(d, result) && Apart(result, tmp) && Within(c, cs) && Coefficients(c, e, len, v, n, r, safe)
      invariant StandsFor(d, Exp(v, AllFrom(e, i + 1, 0, len)), n, r, safe) && StandsFor(result, Exp(v, TriangleFrom(e, i + 1, 0, len)), n, r, safe)
    {
      CoefficientEntry(c, cs, i, e, len, v, n, r, safe);
      TopKeeps(c[i], d, tmp, modulus, i, e, len, v, n, r, safe);
      Descend(c[i], d, result, tmp, modulus, n0p, Exp(v, Where(e, i, 0, len)), Exp(v, AllFrom(e, i + 1, 0, len)), Exp(v, TriangleFrom(e, i + 1, 0, len)), safe);
      Accumulate(v, e, i, len);
      i := i - 1;
    }
  }

  /**
   result := the power of the base behind table g to exp, padded with zeros to as many nibbles
   as the table has entries, if no carry is lost: congruent to the power, and at most the modulus.
   */
  method BrickellBigPow(g: seq<Bignum>, ghost s: set<object>, exp: Bignum, modulus: Bignum, result: Bignum, ghost e: seq<Word>, ghost v: int, ghost sound: bool)
    requires OddModulus(modulus) && BaseTable(g, v, modulus.Mag(), Pow(modulus.length), sound) && Within(g, s) && Padded(exp, e, |g|)
    requires modulus !in s && modulus.num !in s && exp !in s && exp.num !in s && result !in s && result.num !in s && result.Valid()
    requires Apart(exp, modulus) && Apart(result, modulus) && Apart(result, exp)
    modifies result, result.num, modulus, modulus.num, s
    ensures modulus.Valid() && modulus.Trimmed() && modulus.sign == 1 && modulus.length == old(modulus.length) && modulus.Mag() == old(modulus.Mag())
    ensures Within(g, s)
    ensures result.Valid() && result.Trimmed() && result.sign == 1 && |g| <= 8 * |e|
    ensures sound && CoefficientSecure(|g|, v, modulus.Mag(), modulus.length) && CombineSecure(e, |g|, v, modulus.Mag(), modulus.length) ==>
              result.Mag() <= modulus.Mag() && Cong(result.Mag(), Exp(v, old(exp.Mag())), modulus.Mag())
  {
    hide Val, Pow, Cong, StandsFor, Exp, BaseTable, Padded, CoefficientSecure, CombineSecure;
    PaddedIs(exp, e, |g|);
    ghost var safe := sound && CoefficientSecure(|g|, v, modulus.Mag(), modulus.length) && CombineSecure(e, |g|, v, modulus.Mag(), modulus.length);
    BaseWeaker(g, v, modulus.Mag(), Pow(modulus.length), sound, safe);
    var n0p := MontPrepare(modulus);
    var msOne := StandsForOne(modulus, safe);
    FixedPower(g, s, exp, msOne, modulus, n0p, result, e, v, safe);
    Finish(result, modulus, n0p, Exp(v, old(exp.Mag())), safe);
  }

  lemma BaseWeaker(g: seq<Bignum>, v: int, n: nat, r: nat, sound: bool, safe: bool)
    requires BaseTable(g, v, n, r, sound) && (safe ==> sound)
    ensures BaseTable(g, v, n, r, safe)
  {
    hide Cong, Exp, Two;
    forall i | 0 <= i < |g| ensures StandsFor(g[i], Exp(v, Two(4 * i)), n, r, safe) {
      assert StandsFor(g[i], Exp(v, Two(4 * i)), n, r, sound);
    }
  }

  method FixedPower(g: seq<Bignum>, ghost s: set<object>, exp: Bignum, msOne: Bignum, modulus: Bignum, n0p: Word, result: Bignum,
                    ghost e: seq<Word>, ghost v: int, ghost safe: bool)
    requires MontSet(modulus, n0p) && BaseTable(g, v, modulus.Mag(), Pow(modulus.length), safe) && Within(g, s) && Padded(exp, e, |g|)
    requires modulus !in s && modulus.num !in s && exp !in s && exp.num !in s && exp != modulus && result !in s && result.num !in s && result.Valid()
    requires msOne !in s && msOne.num !in s && msOne != modulus && StandsFor(msOne, 1, modulus.Mag(), Pow(modulus.length), safe)
    requires exp.Valid() && Apart(result, modulus) && Apart(result, exp)
    requires safe ==> CoefficientSecure(|g|, v, modulus.Mag(), modulus.length)
    requires |g| <= 8 * |e| && (safe ==> CombineSecure(e, |g|, v, modulus.Mag(), modulus.length))
    modifies result, result.num, modulus`length, s
    ensures MontSet(modulus, n0p) && modulus.length == old(modulus.length) && modulus.Mag() == old(modulus.Mag()) && Within(g, s)
    ensures result.num == old(result.num) || fresh(result.num)
    ensures StandsFor(result, Exp(v, old(exp.Mag())), modulus.Mag(), Pow(modulus.length), safe)
  {
    hide Val, Pow, Cong, StandsFor, Exp, Coefficients, TriangleFrom, BaseTable, Padded, CoefficientSecure, CombineSecure;
    PaddedValue(exp, e, |g|);
    var c: seq<Bignum>;
    ghost var cs;
    c, cs := BuildCoeffTable(exp, g, s, msOne, modulus, n0p, e, v, safe);
    var tmp := new Bignum(0);
    var d := new Bignum(0);
    CombineCoefficients(c, cs, result, d, tmp, modulus, n0p, e, |g|, v, safe);
  }

  lemma PaddedValue(exp: Bignum, e: seq<Word>, len: nat)
    requires Padded(exp, e, len)
    ensures len <= 8 * |e| && exp.Valid() && TriangleFrom(e, 1, 0, len) == exp.Mag()
  {
    TriangleIsExponent(e, len);
  }

  /** Both ways to the power agree, but where it is a multiple of the modulus: there each is zero or the modulus. */
  lemma PowersAgree(x: nat, y: nat, u: int, n: nat)
    requires 0 < n && x <= n && y <= n && Cong(x, u, n) && Cong(y, u, n)
    ensures x % n == y % n && (u % n != 0 ==> x == y)
  {
    CongMod(x, u, n);
    CongMod(y, u, n);
    LeastRemainder(x, u, n);
    LeastRemainder(y, u, n);
  }
}
