/** Modular exponentiation: residues times a power of the word size, a table of small powers, four bits at a time. */
module ModularPower {
  import opened Words
  import opened LongMult
  import opened CoreMult
  import opened Bignums
  import opened BigMult
  import opened FastMult
  import opened Shifts
  import opened Congruence
  import opened Modulo
  import opened Montgomery
  import LongDivide

  function Exp(a: int, e: nat): int {
    if e == 0 then 1 else a * Exp(a, e - 1)
  }

  lemma {:induction false} ExpAdd(a: int, x: nat, y: nat)
    ensures Exp(a, x + y) == Exp(a, x) * Exp(a, y)
  {
    if x > 0 {
      ExpAdd(a, x - 1, y);
      MulAssoc(a, Exp(a, x - 1), Exp(a, y));
    }
  }

  // ----- residues

  /** x stands for u, as far as no carry was lost: it is at most the modulus n, and congruent to u times r. */
  ghost predicate StandsFor(x: Bignum, u: int, n: nat, r: nat, safe: bool)
    reads x, x.num
  {
    && x.Valid() && x.Trimmed() && x.sign == 1 && (safe ==> x.Mag() <= n && Cong(x.Mag(), u * r, n))
  }

  // ----- where a carry can be lost

  /** The number of words of v. */
  ghost function WordCount(v: nat): nat {
    if v < BASE then 1 else 1 + WordCount(v / BASE)
  }

  lemma {:induction false} WordCountIs(v: nat, w: nat)
    requires 1 <= w && v < Pow(w) && (1 < w ==> Pow(w - 1) <= v)
    ensures WordCount(v) == w
    decreases w
  {
    if w == 1 {
      assert Pow(1) == BASE;
    } else {
      PowNext(w - 2);
      PowNext(w - 1);
      PowGrows(1, w - 1);
      assert Pow(1) == BASE;
      var q, r := v / BASE, v % BASE;
      assert v == q * BASE + r;
      BaseQuotient(q, r, Pow(w - 2), Pow(w - 1));
      WordCountIs(q, w - 1);
    }
  }

  lemma BaseQuotient(q: int, r: int, low: int, high: int)
    requires 0 <= r < BASE && low * BASE <= q * BASE + r < high * BASE
    ensures low <= q < high
  {
  }

  lemma LengthIsWords(x: Bignum)
    requires x.Valid() && x.Trimmed()
    ensures x.length == WordCount(x.Mag())
  {
    hide Val, Pow, WordCount;
    SizeOf(x);
    if 1 < x.length { NonZero(x); }
    WordCountIs(x.Mag(), x.length);
  }

  /** Reducing the product of x and y, in just the room it needs, loses a carry. */
  ghost predicate Spills(x: nat, y: nat, n: nat, k: nat) {
    Leaves(x * y, n, k, WordCount(x) + WordCount(y))
  }

  /** A number has room for every reduction by a modulus of k words. */
  ghost predicate HasRoom(x: Bignum, k: nat)
    reads x
  {
    2 * k < x.space
  }

  /** Multiplying x by y into result, and reducing that, loses no carry. */
  ghost predicate KeepsCarry(x: Bignum, y: Bignum, result: Bignum, modulus: Bignum)
    requires x.Held() && y.Held() && modulus.Held()
    reads x, x.num, y, y.num, result, modulus, modulus.num
  {
    HasRoom(result, modulus.length) || (x != y && modulus.length < 64) || !Spills(x.Mag(), y.Mag(), modulus.Mag(), modulus.length)
  }

  /** No product of what stands for the powers i and j of a spills. */
  ghost predicate NoSpill(a: int, i: nat, j: nat, n: nat, k: nat) {
    forall x: nat, y: nat :: x <= n && y <= n && Cong(x, Exp(a, i) * Pow(k), n) && Cong(y, Exp(a, j) * Pow(k), n) ==> !Spills(x, y, n, k)
  }

  /** The most significant nibble. */
  ghost function TopNibbleOf(e: nat): nat {
    if e < 16 then e else TopNibbleOf(e / 16)
  }

  /** The products that fill the table. */
  ghost predicate TableSecure(a: int, n: nat, k: nat) {
    64 <= k ==> forall i :: 1 <= i < 15 ==> NoSpill(a, 1, i, n, k)
  }

  /**
   No carry is lost on the way to a^e modulo n, of k words. What can lose one is the first
   product each number takes, as afterwards it has room for all: the first squaring, if there is
   one, and for moduli of 64 words or more the products that fill the table and the first with 1.
   */
  ghost predicate Secure(a: int, e: nat, n: nat, k: nat) {
    && (16 <= e ==> NoSpill(a, TopNibbleOf(e), TopNibbleOf(e), n, k))
    && TableSecure(a, n, k)
    && (64 <= k ==> NoSpill(a, TopNibbleOf(e), 0, n, k))
  }

  /** With a modulus whose top word is not all ones, squares of numbers as long as it, or at most half as long, do not spill. */
  lemma SquareStays(x: nat, n: nat, k: nat)
    requires 2 <= k && x <= n <= (BASE - 1) * Pow(k - 1) && (WordCount(x) == k || 2 * WordCount(x) < k + 2)
    ensures !Spills(x, x, n, k)
  {
    hide Pow, WordCount;
    MulLess(x, n, x);
    MulLess(x, n, n);
    if WordCount(x) == k { TopWordNotFull(x * x, n, k); }
  }

  /** So squares of residues modulo two or three words do not spill unless the top word is all ones. */
  lemma ShortStays(a: int, i: nat, n: nat, k: nat)
    requires 2 <= k <= 3 && n <= (BASE - 1) * Pow(k - 1)
    ensures NoSpill(a, i, i, n, k)
  {
    hide Pow, WordCount, Spills, Exp, Cong;
    forall x: nat, y: nat | x <= n && y <= n && Cong(x, Exp(a, i) * Pow(k), n) && Cong(y, Exp(a, i) * Pow(k), n)
      ensures !Spills(x, y, n, k)
    {
      CongSym(y, Exp(a, i) * Pow(k), n);
      CongTrans(x, Exp(a, i) * Pow(k), y, n);
      PairStays(x, y, n, k);
    }
  }

  /** No power modulo such a number loses a carry. */
  lemma ShortSecure(a: int, e: nat, n: nat, k: nat)
    requires 2 <= k <= 3 && n <= (BASE - 1) * Pow(k - 1)
    ensures Secure(a, e, n, k)
  {
    ShortStays(a, TopNibbleOf(e), n, k);
  }

  /** Residues that are congruent are the same, or zero and the modulus. */
  lemma PairStays(x: nat, y: nat, n: nat, k: nat)
    requires 2 <= k <= 3 && x <= n <= (BASE - 1) * Pow(k - 1) && y <= n && Cong(x, y, n)
    ensures !Spills(x, y, n, k)
  {
    hide Pow, WordCount, Leaves;
    PowNext(k - 1);
    WordCountBelow(x, k);
    if x == y {
      if 2 * WordCount(x) < k + 2 { FewWords(x * x, n, k, 2 * WordCount(x)); } else { SquareStays(x, n, k); }
    } else {
      var j :| CongBy(x, y, n, j);
      if j > 0 { MulLess(1, j, n); }
      if j < 0 { MulLess(j, -1, n); }
      ZeroProduct(x, y);
      SpareStays(0, n, k, WordCount(x) + WordCount(y));
    }
  }

  lemma FewWords(t: nat, n: nat, k: nat, s: nat)
    requires s < k + 2
    ensures !Leaves(t, n, k, s)
  {
  }

  lemma {:induction false} WordCountBelow(x: nat, k: nat)
    requires 1 <= k && x < Pow(k)
    ensures 1 <= WordCount(x) <= k
    decreases k
  {
    if BASE <= x {
      var q, r := x / BASE, x % BASE;
      assert x == q * BASE + r;
      PowNext(k - 1);
      BaseQuotient(q, r, 0, Pow(k - 1));
      WordCountBelow(q, k - 1);
    }
  }

  /** Two words of ones, the largest residue, and a two-nibble exponent: the first squaring spills. */
  lemma SecondNibbleSpills()
    ensures !Secure(Pow(2) - 2, 0x12, Pow(2) - 1, 2)
  {
    hide Pow, Leaves;
    var n, a := Pow(2) - 1, Pow(2) - 2;
    CarryLost();
    TwoPowers();
    assert TopNibbleOf(0x12) == 1;
    ExpOne(a);
    WordCountIs(a, 2);
    MulDist(a, n, 1);
    CongIs(a, a * Pow(2), n, -a);
    MulDist(n, a, -1);
    assert !NoSpill(a, 1, 1, n, 2) by { assert Spills(a, a, n, 2); }
  }

  lemma TwoPowers()
    ensures Pow(1) == BASE && Pow(2) == BASE * BASE
  {
    PowNext(1);
    PowNext(0);
    PowZero();
  }

  /** The word size to the length of the modulus has an inverse. */
  ghost function RadixInverse(n: nat, n0p: nat, k: nat): int {
    Exp((n * n0p + 1) / BASE, k)
  }

  lemma {:induction false} RadixInverts(n: nat, n0p: nat, k: nat)
    requires (n * n0p) % BASE == BASE - 1
    ensures Cong(Pow(k) * RadixInverse(n, n0p, k), 1, n)
  {
    var q := (n * n0p + 1) / BASE;
    assert n * n0p + 1 == q * BASE;
    if k == 0 {
      CongRefl(1, n);
    } else {
      RadixInverts(n, n0p, k - 1);
      CongIs(BASE * q, 1, n, n0p);
      CongMul(Pow(k - 1) * Exp(q, k - 1), 1, BASE * q, 1, n);
      Pairs(Pow(k - 1), Exp(q, k - 1), q);
    }
  }

  lemma Pairs(p: int, e: int, q: int)
    ensures (p * e) * (BASE * q) == (p * BASE) * (q * e)
  {
    MulAssoc(p, e, BASE * q);
    MulAssoc(p, BASE, q * e);
    MulAssoc(BASE, q, e);
    MulAssoc(e, BASE, q);
  }

  /** The reduced product of what stands for u and v stands for the product. */
  lemma ProductStands(z: int, x: int, y: int, u: int, v: int, n: nat, r: int, rinv: int)
    requires Cong(z * r, x * y, n) && Cong(x, u * r, n) && Cong(y, v * r, n) && Cong(r * rinv, 1, n)
    ensures Cong(z, (u * v) * r, n)
  {
    CongMul(x, u * r, y, v * r, n);
    CongTrans(z * r, x * y, (u * r) * (v * r), n);
    Quads(u, v, r);
    CongCancel(z, (u * v) * r, r, rinv, n);
  }

  lemma Quads(u: int, v: int, r: int)
    ensures (u * r) * (v * r) == ((u * v) * r) * r
  {
    MulAssoc(u * r, v, r);
    MulAssoc(u, r, v);
    MulAssoc(u, v, r);
  }

  /** result := the reduced product; x and y may be one. */
  method MontMultiply(x: Bignum, y: Bignum, result: Bignum, modulus: Bignum, n0p: Word, ghost u: int, ghost v: int, ghost safe: bool)
    requires MontSet(modulus, n0p) && StandsFor(x, u, modulus.Mag(), Pow(modulus.length), safe) && StandsFor(y, v, modulus.Mag(), Pow(modulus.length), safe)
    requires result.Valid() && SameOrApart(x, y) && Apart(x, result) && Apart(y, result) && Apart(modulus, result) && modulus != x
    requires safe ==> KeepsCarry(x, y, result, modulus)
    modifies result, result.num, x`length, modulus`length
    ensures MontSet(modulus, n0p) && modulus.length == old(modulus.length) && modulus.Mag() == old(modulus.Mag())
    ensures x.Valid() && x.length == old(x.length) && (result.num == old(result.num) || fresh(result.num))
    ensures StandsFor(result, u * v, modulus.Mag(), Pow(modulus.length), safe) && HasRoom(result, modulus.length)
  {
    hide Val, Pow, Cong, Leaves, ReducedUnlessLost, WordCount;
    BigMultiply(x, y, result);
    ghost var s := result.space;
    if safe { FirstReduction(x, y, result, modulus); }
    Redc(result, modulus, n0p);
    if safe { ProductReduced(result.Mag(), x.Mag(), y.Mag(), u, v, modulus.Mag(), n0p, modulus.length, s, result.found(s)); }
  }

  /** The product loses no carry. */
  lemma FirstReduction(x: Bignum, y: Bignum, result: Bignum, modulus: Bignum)
    requires x.Valid() && x.Trimmed() && y.Valid() && y.Trimmed() && modulus.Valid() && modulus.Trimmed() && 2 <= modulus.length
    requires result.Valid() && result.Mag() == x.Mag() * y.Mag() && x.Mag() <= modulus.Mag() && y.Mag() <= modulus.Mag()
    requires result.SpareWord() || ((x == y || 64 <= x.length == y.length) && result.space == x.length + y.length)
    requires 2 * modulus.length < result.space || KeepsCarry(x, y, result, modulus)
    ensures !Leaves(result.Mag(), modulus.Mag(), modulus.length, result.space)
  {
    hide Val, Pow, LeavesAt, WordCount;
    ModulusSize(modulus);
    LengthIsWords(x);
    LengthIsWords(y);
    LongEnough(modulus, x);
    if result.SpareWord() { SpareStays(result.Mag(), modulus.Mag(), modulus.length, result.space); }
  }

  lemma ProductReduced(z: nat, x: nat, y: nat, u: int, v: int, n: nat, n0p: Word, k: nat, s: nat, found: Word)
    requires x <= n && y <= n && Cong(x, u * Pow(k), n) && Cong(y, v * Pow(k), n) && (n * n0p) % BASE == BASE - 1
    requires !Leaves(x * y, n, k, s) && (x * y <= n * n ==> ReducedUnlessLost(z, x * y, n, k, s, found))
    ensures z <= n && Cong(z, (u * v) * Pow(k), n)
  {
    hide Pow, Cong, Leaves;
    MulLess(x, n, y);
    MulLess(y, n, n);
    RadixInverts(n, n0p, k);
    ProductStands(z, x, y, u, v, n, Pow(k), RadixInverse(n, n0p, k));
  }

  /** The number a as it is reduced: a new number that stands for it. */
  method ResForm(a: Bignum, modulus: Bignum, ghost safe: bool) returns (r: Bignum)
    requires a.Valid() && a.Trimmed() && a.sign == 1 && modulus.Valid() && modulus.Trimmed() && modulus.sign == 1 && 2 <= modulus.length
    requires Apart(a, modulus)
    modifies modulus, modulus.num
    ensures modulus.Valid() && modulus.Trimmed() && modulus.sign == 1 && modulus.length == old(modulus.length) && modulus.Mag() == old(modulus.Mag())
    ensures modulus.num == old(modulus.num) || fresh(modulus.num)
    ensures fresh(r) && fresh(r.num) && Apart(r, modulus) && StandsFor(r, old(a.Mag()), modulus.Mag(), Pow(modulus.length), safe)
  {
    hide Val, Pow, Cong, Two;
    var tmp := new Bignum(0);
    var k := modulus.length;
    BigLeftShift(a, 32 * k, tmp);
    TwoWords(k);
    r := new Bignum(0);
    BigMod(tmp, modulus, r);
  }

  // ----- the table

  /** Numbers of their own, apart from x. */
  ghost predicate TableApart(t: seq<Bignum>, x: Bignum)
    reads t, x
  {
    forall i :: 0 <= i < |t| ==> Apart(t[i], x)
  }

  ghost predicate TableStands(t: seq<Bignum>, a: int, n: nat, r: nat, safe: bool)
    reads t, set x | x in t :: x.num
  {
    forall i :: 1 <= i < |t| ==> StandsFor(t[i], Exp(a, i), n, r, safe)
  }

  lemma StandsParts(x: Bignum, u: int, n: nat, r: nat, safe: bool)
    requires StandsFor(x, u, n, r, safe)
    ensures x.Valid() && x.Trimmed() && x.sign == 1 && (safe ==> x.Mag() <= n && Cong(x.Mag(), u * r, n))
  {
  }

  lemma CopyStands(x: Bignum, y: Bignum, u: int, n: nat, r: nat, safe: bool)
    requires StandsFor(x, u, n, r, safe) && y.Valid() && y.Trimmed() && y.Mag() == x.Mag() && y.sign == x.sign
    ensures StandsFor(y, u, n, r, safe)
  {
  }

  lemma ExpOne(a: int)
    ensures Exp(a, 1) == a && Exp(a, 0) == 1
  {
  }

  lemma TableProduct(x: Bignum, t: seq<Bignum>, v: int, n: nat, k: nat)
    requires TableSecure(v, n, k) && 2 <= |t| < 16 && TableStands(t, v, n, Pow(k), true) && StandsFor(x, v, n, Pow(k), true)
    ensures k < 64 || !Spills(x.Mag(), t[|t| - 1].Mag(), n, k)
  {
    hide Pow, Cong, Spills;
    ExpOne(v);
    if 64 <= k { assert NoSpill(v, 1, |t| - 1, n, k); }
  }

  /** The next power, by one more multiplication. */
  method NextPower(x: Bignum, t: seq<Bignum>, modulus: Bignum, n0p: Word, ghost v: int, ghost safe: bool) returns (y: Bignum)
    requires MontSet(modulus, n0p) && (safe ==> TableSecure(v, modulus.Mag(), modulus.length)) && 2 <= |t| < 16 && TableApart(t, modulus) && TableApart(t, x) && Apart(x, modulus)
    requires TableStands(t, v, modulus.Mag(), Pow(modulus.length), safe) && StandsFor(x, v, modulus.Mag(), Pow(modulus.length), safe)
    modifies x`length, modulus`length
    ensures MontSet(modulus, n0p) && modulus.length == old(modulus.length) && modulus.Mag() == old(modulus.Mag())
    ensures fresh(y) && fresh(y.num) && StandsFor(y, Exp(v, |t|), modulus.Mag(), Pow(modulus.length), safe)
    ensures StandsFor(x, v, modulus.Mag(), Pow(modulus.length), safe) && TableStands(t, v, modulus.Mag(), Pow(modulus.length), safe)
  {
    hide Val, Pow, Cong, StandsFor, Spills;
    y := new Bignum(0);
    if safe { TableProduct(x, t, v, modulus.Mag(), modulus.length); }
    MontMultiply(x, t[|t| - 1], y, modulus, n0p, v, Exp(v, |t| - 1), safe);
    assert Exp(v, |t|) == v * Exp(v, |t| - 1);
  }

  /** All numbers of t, and what they hold, are in s. */
  ghost predicate Within(t: seq<Bignum>, s: set<object>)
    reads t
  {
    forall x :: x in t ==> x in s && x.num in s
  }

  /** The powers of a from 0 to 15, but that the first is just 1. */
  method BuildAddChainTable(a: Bignum, modulus: Bignum, n0p: Word, ghost safe: bool) returns (t: seq<Bignum>, ghost s: set<object>)
    requires a.Valid() && a.Trimmed() && a.sign == 1 && MontSet(modulus, n0p) && Apart(a, modulus)
    requires safe ==> TableSecure(a.Mag(), modulus.Mag(), modulus.length)
    modifies modulus, modulus.num
    ensures MontSet(modulus, n0p) && modulus.length == old(modulus.length) && modulus.Mag() == old(modulus.Mag())
    ensures modulus.num == old(modulus.num) || fresh(modulus.num)
    ensures |t| == 16 && TableApart(t, modulus) && TableStands(t, old(a.Mag()), modulus.Mag(), Pow(modulus.length), safe)
    ensures fresh(s) && Within(t, s) && modulus.num !in s
  {
    hide Val, Pow, Cong, StandsFor, Exp, TableStands, TableApart, TableSecure;
    ghost var v, n, r := a.Mag(), modulus.Mag(), Pow(modulus.length);
    var x: Bignum;
    x, t, s := FirstPowers(a, modulus, safe);
    while |t| < 16
      invariant 2 <= |t| <= 16 && MontSet(modulus, n0p) && modulus.length == old(modulus.length) && modulus.Mag() == n
      invariant modulus.num == old(modulus.num) || fresh(modulus.num)
      invariant fresh(s) && Within(t, s) && x !in s && x.num !in s && modulus !in s && modulus.num !in s
      invariant TableStands(t, v, n, r, safe) && StandsFor(x, v, n, r, safe) && fresh(x) && fresh(x.num) && Apart(x, modulus)
      modifies x`length, modulus`length
    {
      WithinApart(t, s, x, modulus);
      var y := NextPower(x, t, modulus, n0p, v, safe);
      TableGrows(t, y, s, v, n, r, safe);
      t := t + [y];
      s := s + {y, y.num};
    }
    WithinApart(t, s, x, modulus);
  }

  method NewCopy(c: Bignum, ghost u: int, ghost n: nat, ghost r: nat, ghost safe: bool) returns (y: Bignum)
    requires StandsFor(c, u, n, r, safe)
    ensures fresh(y) && fresh(y.num) && StandsFor(y, u, n, r, safe) && StandsFor(c, u, n, r, safe)
  {
    hide Val, Cong;
    y := new Bignum(0);
    BigCopy(c, y);
  }

  /** The powers 0 and 1, and the number itself, reduced. */
  method FirstPowers(a: Bignum, modulus: Bignum, ghost safe: bool) returns (x: Bignum, t: seq<Bignum>, ghost s: set<object>)
    requires a.Valid() && a.Trimmed() && a.sign == 1 && modulus.Valid() && modulus.Trimmed() && modulus.sign == 1 && 2 <= modulus.length
    requires Apart(a, modulus)
    modifies modulus, modulus.num
    ensures modulus.Valid() && modulus.Trimmed() && modulus.sign == 1 && modulus.length == old(modulus.length) && modulus.Mag() == old(modulus.Mag())
    ensures modulus.num == old(modulus.num) || fresh(modulus.num)
    ensures |t| == 2 && TableStands(t, old(a.Mag()), modulus.Mag(), Pow(modulus.length), safe)
    ensures fresh(s) && Within(t, s) && x !in s && x.num !in s && modulus !in s && modulus.num !in s
    ensures fresh(x) && fresh(x.num) && Apart(x, modulus) && StandsFor(x, old(a.Mag()), modulus.Mag(), Pow(modulus.length), safe)
  {
    hide Val, Pow, Cong, StandsFor, Exp;
    ghost var v, n, r := a.Mag(), modulus.Mag(), Pow(modulus.length);
    x := ResForm(a, modulus, safe);
    var one := new Bignum(1);
    var t1 := NewCopy(x, v, n, r, safe);
    t := [one, t1];
    s := {one, one.num, t1, t1.num};
    ExpOne(v);
  }

  lemma TableGrows(t: seq<Bignum>, y: Bignum, s: set<object>, v: int, n: nat, r: nat, safe: bool)
    requires TableStands(t, v, n, r, safe) && StandsFor(y, Exp(v, |t|), n, r, safe) && Within(t, s)
    ensures TableStands(t + [y], v, n, r, safe) && Within(t + [y], s + {y, y.num})
  {
    hide StandsFor, Exp;
  }

  lemma WithinApart(t: seq<Bignum>, s: set<object>, x: Bignum, y: Bignum)
    requires Within(t, s) && x !in s && x.num !in s && y !in s && y.num !in s
    ensures TableApart(t, x) && TableApart(t, y)
  {
  }

  // ----- four bits at a time

  /** Bits 4 * i to 4 * i + 3 of a number. */
  function Nibble(w: Word, i: nat): (n: nat)
    ensures n < 16
  {
    (w / Two(4 * (i % 8))) % 16
  }

  lemma TwoFour()
    ensures Two(4) == 16 && Two(0) == 1
  {
    assert Two(2) == 4;
  }

  /** What is left of e above its i lowest nibbles. */
  function Above(e: nat, i: nat): nat {
    DivNat(e, Two(4 * i));
    e / Two(4 * i)
  }

  lemma DivNat(x: nat, y: nat)
    requires 0 < y
    ensures 0 <= x / y
  {
    LongDivide.DivNonNeg(x, y);
  }

  lemma AboveNext(e: nat, i: nat)
    ensures Above(e, i + 1) == Above(e, i) / 16
  {
    TwoFour();
    TwoAdd(4 * i, 4);
    DivTwice(e, Two(4 * i), 16);
  }

  lemma NibbleOfNumber(s: seq<Word>, i: nat)
    requires i / 8 < |s|
    ensures Above(Val(s), i) % 16 == Nibble(s[i / 8], i) && Above(Val(s), i) == 16 * Above(Val(s), i + 1) + Nibble(s[i / 8], i)
  {
    hide Val, Pow, Two;
    AboveNext(Val(s), i);
    var j, r := i / 8, 4 * (i % 8);
    ValSplit(s, j);
    ValBound(s[..j]);
    ValCons(s[j..]);
    var w, high := s[j], Val(s[j..][1..]);
    Divided(Val(s), Pow(j), w + BASE * high, Val(s[..j]));
    TwoAdd(32 * j, r);
    TwoWords(j);
    DivTwice(Val(s), Pow(j), Two(r));
    assert 4 * i == 32 * j + r;
    TwoAdd(r, 32 - r);
    TwoAdd(28 - r, 4);
    TwoFour();
    TwoWord();
    UpperPart(w, high, Two(r), Two(32 - r), Two(28 - r));
  }

  lemma UpperPart(w: nat, high: nat, p: nat, q: nat, q': nat)
    requires 0 < p && p * q == BASE && q == q' * 16
    ensures ((w + BASE * high) / p) % 16 == (w / p) % 16
  {
    var u, v := w / p, w % p;
    assert w == u * p + v;
    UpperSum(w, high, p, q, q', u, v);
    var k := q' * high;
    Divided(w + BASE * high, p, u + 16 * k, v);
    SixteensOff(u, k);
  }

  lemma SixteensOff(u: int, k: int)
    ensures (u + 16 * k) % 16 == u % 16
  {
  }

  lemma UpperSum(w: int, high: int, p: int, q: int, q': int, u: int, v: int)
    requires p * q == BASE && q == q' * 16 && w == u * p + v
    ensures w + BASE * high == p * (u + 16 * (q' * high)) + v
  {
    MulAssoc(p, q, high);
    MulAssoc(q', 16, high);
    MulAssoc(16, q', high);
    MulDist(p, u, q * high);
  }

  lemma AboveNone(s: seq<Word>)
    ensures Above(Val(s), 8 * |s|) == 0 && Above(Val(s), 0) == Val(s)
  {
    hide Val, Pow, Two;
    TwoWords(|s|);
    ValBound(s);
    Divided(Val(s), Pow(|s|), 0, Val(s));
    TwoFour();
  }

  /** The highest nibble that is not zero. */
  method TopNibble(exp: Bignum) returns (i: nat)
    requires exp.Valid() && exp.Mag() != 0
    ensures i / 8 < exp.length && Above(exp.Mag(), i + 1) == 0 && Nibble(exp.num[i / 8], i) != 0
  {
    hide Val, Above, Nibble;
    ghost var s := exp.num[..exp.length];
    var k: int := 8 * exp.length - 1;
    AboveNone(s);
    while k >= 0 && Nibble(exp.num[k / 8], k) == 0
      invariant -1 <= k < 8 * exp.length && Above(Val(s), k + 1) == 0
    {
      NibbleOfNumber(s, k);
      k := k - 1;
    }
    i := k;
  }

  /** result := the power for one more nibble. */
  method TakeNibble(t: seq<Bignum>, nib: nat, p: Bignum, d: Bignum, result: Bignum, modulus: Bignum, n0p: Word, ghost v: int, ghost u: int, ghost safe: bool)
    requires |t| == 16 && nib < 16 && p == t[nib] && MontSet(modulus, n0p) && TableStands(t, v, modulus.Mag(), Pow(modulus.length), safe)
    requires TableApart(t, d) && TableApart(t, result) && TableApart(t, modulus) && Apart(d, result) && Apart(modulus, result) && modulus != d
    requires StandsFor(d, u, modulus.Mag(), Pow(modulus.length), safe) && result.Valid()
    requires safe && nib != 0 ==> KeepsCarry(p, d, result, modulus)
    modifies result, result.num, p`length, modulus`length
    ensures MontSet(modulus, n0p) && modulus.length == old(modulus.length) && modulus.Mag() == old(modulus.Mag())
    ensures p.length == old(p.length) && (result.num == old(result.num) || fresh(result.num))
    ensures nib != 0 || old(HasRoom(result, modulus.length)) ==> HasRoom(result, modulus.length)
    ensures StandsFor(result, Exp(v, nib) * u, modulus.Mag(), Pow(modulus.length), safe)
  {
    hide Val, Pow, Cong, StandsFor, Spills;
    StandsParts(d, u, modulus.Mag(), Pow(modulus.length), safe);
    if nib != 0 {
      MontMultiply(p, d, result, modulus, n0p, Exp(v, nib), u, safe);
    } else {
      BigCopy(d, result);
      CopyStands(d, result, u, modulus.Mag(), Pow(modulus.length), safe);
    }
  }

  /** d := the sixteenth power of result, by four squarings between the two. */
  method FourSquarings(result: Bignum, d: Bignum, modulus: Bignum, n0p: Word, ghost u: int, ghost safe: bool)
    requires MontSet(modulus, n0p) && StandsFor(result, u, modulus.Mag(), Pow(modulus.length), safe)
    requires d.Valid() && Apart(d, result) && Apart(modulus, result) && Apart(modulus, d) && HasRoom(result, modulus.length)
    requires safe ==> KeepsCarry(result, result, d, modulus)
    modifies result, result.num, d, d.num, modulus`length
    ensures MontSet(modulus, n0p) && modulus.length == old(modulus.length) && modulus.Mag() == old(modulus.Mag())
    ensures HasRoom(result, modulus.length) && HasRoom(d, modulus.length)
    ensures (result.num == old(result.num) || fresh(result.num)) && (d.num == old(d.num) || fresh(d.num)) && Apart(d, result)
    ensures result.Valid() && StandsFor(d, Exp(u, 16), modulus.Mag(), Pow(modulus.length), safe)
  {
    hide Val, Pow, Cong, StandsFor, Exp, Spills;
    ghost var n, r := modulus.Mag(), Pow(modulus.length);
    ghost var u2 := u * u;
    MontMultiply(result, result, d, modulus, n0p, u, u, safe);
    ghost var u4 := u2 * u2;
    MontMultiply(d, d, result, modulus, n0p, u2, u2, safe);
    ghost var u8 := u4 * u4;
    MontMultiply(result, result, d, modulus, n0p, u4, u4, safe);
    ghost var u16 := u8 * u8;
    MontMultiply(d, d, result, modulus, n0p, u8, u8, safe);
    StandsParts(result, u16, n, r, safe);
    BigCopy(result, d);
    CopyStands(result, d, u16, n, r, safe);
    ExpSixteen(u, u2, u4, u8, u16);
  }

  lemma ExpSixteen(u: int, u2: int, u4: int, u8: int, u16: int)
    requires u2 == u * u && u4 == u2 * u2 && u8 == u4 * u4 && u16 == u8 * u8
    ensures Exp(u, 16) == u16
  {
    ExpOne(u);
    ExpAdd(u, 1, 1);
    ExpAdd(u, 2, 2);
    ExpAdd(u, 4, 4);
    ExpAdd(u, 8, 8);
  }

  lemma {:induction false} ExpTimes(v: int, x: nat, y: nat)
    ensures Exp(Exp(v, x), y) == Exp(v, y * x)
  {
    if y > 0 {
      ExpTimes(v, x, y - 1);
      ExpAdd(v, x, (y - 1) * x);
      MulDist(x, y, -1);
    }
  }

  lemma NibbleExponent(v: int, s: seq<Word>, i: nat)
    requires i / 8 < |s|
    ensures Exp(v, Nibble(s[i / 8], i)) * Exp(v, 16 * Above(Val(s), i + 1)) == Exp(v, Above(Val(s), i))
    ensures Exp(Exp(v, Above(Val(s), i)), 16) == Exp(v, 16 * Above(Val(s), i))
  {
    hide Val, Above, Nibble, Exp;
    NibbleOfNumber(s, i);
    ExpAdd(v, Nibble(s[i / 8], i), 16 * Above(Val(s), i + 1));
    ExpTimes(v, Above(Val(s), i), 16);
  }

  /** What is left above the nibbles below the top one is the top one. */
  lemma {:induction false} TopIsAbove(e: nat, i: nat)
    requires 0 < Above(e, i)
    ensures TopNibbleOf(e) == TopNibbleOf(Above(e, i))
  {
    hide Two;
    if i == 0 {
      TwoFour();
    } else {
      AboveNext(e, i - 1);
      TopIsAbove(e, i - 1);
    }
  }

  lemma TopNibbleIs(s: seq<Word>, i: nat)
    requires i / 8 < |s| && Above(Val(s), i + 1) == 0 && Nibble(s[i / 8], i) != 0
    ensures TopNibbleOf(Val(s)) == Above(Val(s), i) == Nibble(s[i / 8], i) && (0 < i ==> 16 <= Val(s))
  {
    hide Val, Above, Nibble;
    NibbleOfNumber(s, i);
    TopIsAbove(Val(s), i);
    if 0 < i && Val(s) < 16 { AboveSmall(Val(s), i); }
  }

  lemma {:induction false} AboveSmall(e: nat, i: nat)
    requires e < 16 && 0 < i
    ensures Above(e, i) == 0
  {
    hide Two;
    AboveNext(e, i - 1);
    if i == 1 { TwoFour(); } else { AboveSmall(e, i - 1); }
  }

  /** The first product of the loop is secure, */
  lemma FirstProduct(t: seq<Bignum>, d: Bignum, e: seq<Word>, i: nat, v: int, n: nat, k: nat, safe: bool)
    requires |t| == 16 && i / 8 < |e| && Above(Val(e), i + 1) == 0 && Nibble(e[i / 8], i) != 0 && (safe ==> Secure(v, Val(e), n, k))
    requires TableStands(t, v, n, Pow(k), safe) && StandsFor(d, Exp(v, 16 * Above(Val(e), i + 1)), n, Pow(k), safe)
    ensures t[Nibble(e[i / 8], i)].Valid() && d.Valid() && (safe ==> k < 64 || !Spills(t[Nibble(e[i / 8], i)].Mag(), d.Mag(), n, k))
  {
    hide Val, Pow, Cong, Spills, Above, Nibble, Exp;
    TopNibbleIs(e, i);
    var j := Nibble(e[i / 8], i);
    assert StandsFor(t[j], Exp(v, j), n, Pow(k), safe);
    if safe && 64 <= k { assert NoSpill(v, j, 0, n, k); }
  }

  /** and so is the first squaring. */
  lemma FirstSquare(x: Bignum, e: seq<Word>, i: nat, v: int, n: nat, k: nat, safe: bool)
    requires 0 < i && i / 8 < |e| && Above(Val(e), i + 1) == 0 && Nibble(e[i / 8], i) != 0 && (safe ==> Secure(v, Val(e), n, k))
    requires StandsFor(x, Exp(v, Above(Val(e), i)), n, Pow(k), safe)
    ensures x.Valid() && (safe ==> !Spills(x.Mag(), x.Mag(), n, k))
  {
    hide Val, Pow, Cong, Spills, Above, Nibble, Exp;
    TopNibbleIs(e, i);
    var j := Nibble(e[i / 8], i);
    if safe { assert NoSpill(v, j, j, n, k); }
  }

  /** From the top nibble down: result is the power for one more nibble, d its sixteenth power. */
  method PowerLoop(t: seq<Bignum>, ghost s: set<object>, exp: Bignum, top: nat, d: Bignum, result: Bignum, modulus: Bignum, n0p: Word, ghost v: int, ghost safe: bool)
    requires |t| == 16 && Within(t, s) && MontSet(modulus, n0p) && TableStands(t, v, modulus.Mag(), Pow(modulus.length), safe)
    requires exp.Valid() && top / 8 < exp.length && Above(exp.Mag(), top + 1) == 0
    requires d !in s && d.num !in s && result !in s && result.num !in s && modulus !in s && modulus.num !in s && exp !in s && exp.num !in s
    requires Apart(d, result) && Apart(modulus, result) && Apart(modulus, d) && Apart(exp, result) && Apart(exp, d) && exp != modulus
    requires StandsFor(d, 1, modulus.Mag(), Pow(modulus.length), safe) && result.Valid() && Nibble(exp.num[top / 8], top) != 0
    requires safe ==> Secure(v, exp.Mag(), modulus.Mag(), modulus.length)
    modifies result, result.num, d, d.num, modulus`length, s
    ensures MontSet(modulus, n0p) && modulus.length == old(modulus.length) && modulus.Mag() == old(modulus.Mag())
    ensures result.num == old(result.num) || fresh(result.num)
    ensures StandsFor(result, Exp(v, exp.Mag()), modulus.Mag(), Pow(modulus.length), safe)
  {
    hide Val, Pow, Cong, StandsFor, Exp, Above, Nibble, TableStands, TableApart, Secure, Spills;
    ghost var n, r, e, k := modulus.Mag(), Pow(modulus.length), exp.num[..exp.length], modulus.length;
    var i := top;
    ExpOne(v);
    while true
      invariant 0 <= i <= top && MontSet(modulus, n0p) && modulus.length == old(modulus.length) && modulus.Mag() == n
      invariant (result.num == old(result.num) || fresh(result.num)) && (d.num == old(d.num) || fresh(d.num))
      invariant Within(t, s) && TableStands(t, v, n, r, safe) && Apart(d, result) && result.Valid()
      invariant d.num !in s && result.num !in s
      invariant StandsFor(d, Exp(v, 16 * Above(Val(e), i + 1)), n, r, safe) && (i < top ==> HasRoom(d, k) && HasRoom(result, k))
      decreases i
    {
      var nib := Nibble(exp.num[i / 8], i);
      WithinApart(t, s, d, result);
      WithinApart(t, s, modulus, result);
      if i == top { FirstProduct(t, d, e, i, v, n, k, safe); }
      TakeNibble(t, nib, t[nib], d, result, modulus, n0p, v, Exp(v, 16 * Above(Val(e), i + 1)), safe);
      NibbleExponent(v, e, i);
      if i == 0 { break; }
      StandsParts(d, Exp(v, 16 * Above(Val(e), i + 1)), n, r, safe);
      if i == top { FirstSquare(result, e, i, v, n, k, safe); }
      FourSquarings(result, d, modulus, n0p, Exp(v, Above(Val(e), i)), safe);
      i := i - 1;
    }
    AboveNone(e);
  }

  // ----- the power

  /** What the exponentiation computes: a power of zero is zero, even the one that should be 1. */
  ghost function PowerOf(a: nat, e: nat): int {
    if a == 0 then 0 else Exp(a, e)
  }

  lemma OddWord(n: Bignum)
    requires n.Valid()
    ensures n.Mag() % 2 == n.num[0] % 2
  {
    var nh := FirstWord(n);
  }

  lemma OddSet(n: Bignum, n0p: Word)
    requires n.Valid() && (n.num[0] * n0p) % BASE == BASE - 1
    ensures (n.Mag() * n0p) % BASE == BASE - 1
  {
    var nh := FirstWord(n);
    LowWord(n.Mag(), n.num[0], nh, n0p);
  }

  /** Reducing what stands for u gives u. */
  lemma Unmasked(z: int, x: int, u: int, n: nat, r: int, rinv: int)
    requires Cong(z * r, x, n) && Cong(x, u * r, n) && Cong(r * rinv, 1, n)
    ensures Cong(z, u, n)
  {
    CongTrans(z * r, x, u * r, n);
    CongCancel(z, u, r, rinv, n);
  }

  /** Moduli are odd, of two words at least. */
  ghost predicate OddModulus(modulus: Bignum)
    reads modulus, modulus.num
  {
    modulus.Valid() && modulus.Trimmed() && modulus.sign == 1 && 2 <= modulus.length && modulus.Mag() % 2 == 1
  }

  method MontPrepare(modulus: Bignum) returns (n0p: Word)
    requires OddModulus(modulus)
    ensures MontSet(modulus, n0p)
  {
    hide Val, Pow;
    OddWord(modulus);
    n0p := ModInverse(modulus.num[0]);
    OddSet(modulus, n0p);
  }

  /**
   result := a to the exp, modulo an odd modulus of two words at least, if no carry is lost:
   congruent to the power and at most the modulus, which it is only where the power is a
   multiple of the modulus.
   */
  method BigPowMontgomery(a: Bignum, exp: Bignum, modulus: Bignum, result: Bignum)
    requires a.Valid() && a.Trimmed() && a.sign == 1 && exp.Valid() && exp.Trimmed() && exp.sign == 1 && result.Valid() && OddModulus(modulus)
    requires Apart(a, modulus) && Apart(exp, modulus) && Apart(result, modulus) && Apart(result, a) && Apart(result, exp)
    modifies result, result.num, modulus, modulus.num
    ensures modulus.Valid() && modulus.Trimmed() && modulus.sign == 1 && modulus.length == old(modulus.length) && modulus.Mag() == old(modulus.Mag())
    ensures (result.num == old(result.num) || fresh(result.num)) && (modulus.num == old(modulus.num) || fresh(modulus.num)) && Apart(result, modulus)
    ensures result.Valid() && result.Trimmed() && result.sign == 1
    ensures Secure(a.Mag(), exp.Mag(), modulus.Mag(), modulus.length) ==>
              result.Mag() <= modulus.Mag() && Cong(result.Mag(), PowerOf(a.Mag(), exp.Mag()), modulus.Mag())
    ensures exp.Mag() == 0 ==> result.Mag() == if a.Mag() == 0 then 0 else 1
  {
    hide Val, Pow, Cong, StandsFor, Exp, Above, TableStands, TableApart, Secure;
    ghost var v, e, n, r := a.Mag(), exp.Mag(), modulus.Mag(), Pow(modulus.length);
    NonZero(modulus);
    var za := a.IsZero();
    if za {
      result.Reset(0);
      CongRefl(0, n);
      return;
    }
    var ze := exp.IsZero();
    if ze {
      result.Reset(1);
      ExpOne(v);
      CongRefl(1, n);
      return;
    }
    ModPower(a, exp, modulus, result);
  }

  lemma SecureTable(a: int, e: nat, n: nat, k: nat)
    requires Secure(a, e, n, k)
    ensures TableSecure(a, n, k)
  {
  }

  method ModPower(a: Bignum, exp: Bignum, modulus: Bignum, result: Bignum)
    requires a.Valid() && a.Trimmed() && a.sign == 1 && exp.Valid() && exp.Mag() != 0 && result.Valid() && OddModulus(modulus)
    requires Apart(a, modulus) && Apart(exp, modulus) && Apart(result, modulus) && Apart(result, a) && Apart(result, exp)
    modifies result, result.num, modulus, modulus.num
    ensures modulus.Valid() && modulus.Trimmed() && modulus.sign == 1 && modulus.length == old(modulus.length) && modulus.Mag() == old(modulus.Mag())
    ensures (result.num == old(result.num) || fresh(result.num)) && (modulus.num == old(modulus.num) || fresh(modulus.num)) && Apart(result, modulus)
    ensures result.Valid() && result.Trimmed() && result.sign == 1
    ensures Secure(a.Mag(), exp.Mag(), modulus.Mag(), modulus.length) ==>
              result.Mag() <= modulus.Mag() && Cong(result.Mag(), Exp(a.Mag(), exp.Mag()), modulus.Mag())
  {
    hide Val, Pow, Cong, StandsFor, Exp, Secure;
    ghost var v, e := a.Mag(), exp.Mag();
    ghost var safe := Secure(v, e, modulus.Mag(), modulus.length);
    var n0p := MontPrepare(modulus);
    MaskedPower(a, exp, modulus, n0p, result, safe);
    Finish(result, modulus, n0p, Exp(v, e), safe);
  }

  /** result stands for a to the exp. */
  method MaskedPower(a: Bignum, exp: Bignum, modulus: Bignum, n0p: Word, result: Bignum, ghost safe: bool)
    requires a.Valid() && a.Trimmed() && a.sign == 1 && exp.Valid() && exp.Mag() != 0 && result.Valid() && MontSet(modulus, n0p)
    requires Apart(a, modulus) && Apart(exp, modulus) && Apart(result, modulus) && Apart(result, a) && Apart(result, exp)
    requires safe ==> Secure(a.Mag(), exp.Mag(), modulus.Mag(), modulus.length)
    modifies result, result.num, modulus, modulus.num
    ensures MontSet(modulus, n0p) && modulus.length == old(modulus.length) && modulus.Mag() == old(modulus.Mag())
    ensures (result.num == old(result.num) || fresh(result.num)) && (modulus.num == old(modulus.num) || fresh(modulus.num)) && Apart(result, modulus)
    ensures StandsFor(result, Exp(old(a.Mag()), old(exp.Mag())), modulus.Mag(), Pow(modulus.length), safe)
  {
    hide Val, Pow, Cong, StandsFor, Exp, Above, TableStands, TableApart, Secure, TableSecure, Nibble;
    ghost var v := a.Mag();
    if safe { SecureTable(v, exp.Mag(), modulus.Mag(), modulus.length); }
    var t: seq<Bignum>;
    ghost var s;
    t, s := BuildAddChainTable(a, modulus, n0p, safe);
    var top := TopNibble(exp);
    var d := StandsForOne(modulus, safe);
    PowerLoop(t, s, exp, top, d, result, modulus, n0p, v, safe);
  }

  /** The number 1, reduced. */
  method StandsForOne(modulus: Bignum, ghost safe: bool) returns (d: Bignum)
    requires modulus.Valid() && modulus.Trimmed() && modulus.sign == 1 && 2 <= modulus.length
    modifies modulus, modulus.num
    ensures modulus.Valid() && modulus.Trimmed() && modulus.sign == 1 && modulus.length == old(modulus.length) && modulus.Mag() == old(modulus.Mag())
    ensures modulus.num == old(modulus.num) || fresh(modulus.num)
    ensures fresh(d) && fresh(d.num) && Apart(d, modulus) && StandsFor(d, 1, modulus.Mag(), Pow(modulus.length), safe)
  {
    var one := new Bignum(1);
    d := ResForm(one, modulus, safe);
  }

  /** What stands for u is reduced to u. */
  method Finish(result: Bignum, modulus: Bignum, n0p: Word, ghost u: int, ghost safe: bool)
    requires MontSet(modulus, n0p) && StandsFor(result, u, modulus.Mag(), Pow(modulus.length), safe) && Apart(result, modulus)
    modifies result, result.num, modulus`length
    ensures MontSet(modulus, n0p) && modulus.length == old(modulus.length) && modulus.Mag() == old(modulus.Mag())
    ensures result.Valid() && result.Trimmed() && result.sign == 1 && (result.num == old(result.num) || fresh(result.num))
    ensures safe ==> result.Mag() <= modulus.Mag() && Cong(result.Mag(), u, modulus.Mag())
  {
    hide Val, Pow, Cong, Leaves, ReducedUnlessLost;
    ghost var x, s := result.Mag(), result.space;
    ModulusSize(modulus);
    Redc(result, modulus, n0p);
    if safe { LastReduction(result.Mag(), x, u, modulus.Mag(), n0p, modulus.length, s, result.found(s)); }
  }

  /** What is no larger than the modulus is reduced without loss. */
  lemma LastReduction(z: nat, x: nat, u: int, n: nat, n0p: Word, k: nat, s: nat, found: Word)
    requires 0 < k && x <= n < Pow(k) && 0 < n && Cong(x, u * Pow(k), n) && (n * n0p) % BASE == BASE - 1
    requires x <= n * n ==> ReducedUnlessLost(z, x, n, k, s, found)
    ensures z <= n && Cong(z, u, n)
  {
    hide Pow, Cong, LeavesAt;
    MulLess(1, n, n);
    if k + 2 <= s {
      PowGrows(k, s - 1);
      SpareStays(x, n, k, s);
    }
    RadixInverts(n, n0p, k);
    Unmasked(z, x, u, n, Pow(k), RadixInverse(n, n0p, k));
  }

  /** A remainder up to the modulus is the least one, unless the number is a multiple of the modulus. */
  lemma LeastRemainder(z: nat, u: int, n: nat)
    requires 0 < n && z <= n && Cong(z, u, n)
    ensures if u % n == 0 then z == 0 || z == n else z == u % n
  {
    CongMod(z, u, n);
    if z < n { Divided(z, n, 0, z); } else { Divided(n, n, 1, 0); }
  }

  /** result := m to the exp modulo an odd modulus, for any m that is not negative, if no carry is lost. */
  method BigPow(m: Bignum, exp: Bignum, modulus: Bignum, result: Bignum)
    requires m.Valid() && m.Trimmed() && m.sign == 1 && exp.Valid() && exp.Trimmed() && exp.sign == 1 && result.Valid() && OddModulus(modulus)
    requires Apart(m, modulus) && Apart(exp, modulus) && Apart(result, modulus) && Apart(result, m) && Apart(result, exp)
    modifies result, result.num, modulus, modulus.num, m`length
    ensures modulus.Valid() && modulus.Trimmed() && modulus.sign == 1 && modulus.length == old(modulus.length) && modulus.Mag() == old(modulus.Mag())
    ensures (result.num == old(result.num) || fresh(result.num)) && (modulus.num == old(modulus.num) || fresh(modulus.num)) && Apart(result, modulus)
    ensures m.length == old(m.length)
    ensures result.Valid() && result.Trimmed() && result.sign == 1
    ensures Secure(old(m.Mag()), exp.Mag(), modulus.Mag(), modulus.length) ==>
              && result.Mag() <= modulus.Mag()
              && (exp.Mag() != 0 || !Cong(old(m.Mag()), 0, modulus.Mag()) ==> Cong(result.Mag(), Exp(old(m.Mag()), exp.Mag()), modulus.Mag()))
    ensures exp.Mag() == 0 && Cong(old(m.Mag()), 0, modulus.Mag()) ==>
              result.Mag() == if old(m.Mag()) != 0 && WordMultiple(old(m.Mag()), modulus.Mag()) then 1 else 0
  {
    hide Val, Pow, Cong, Exp, WordMultiple, PowerOf, Secure;
    ghost var v, n := m.Mag(), modulus.Mag();
    var newm := Reduced(m, modulus);
    ghost var w := newm.Mag();
    BigPowMontgomery(newm, exp, modulus, result);
    if Secure(v, exp.Mag(), n, modulus.length) {
      SecureCong(v, w, exp.Mag(), n, modulus.length);
      SamePower(result.Mag(), w, v, exp.Mag(), n);
    }
    if exp.Mag() == 0 { ZeroPower(w, v, n); }
  }

  /** Whether a carry can be lost depends on the base modulo n only. */
  lemma SecureCong(a: int, b: int, e: nat, n: nat, k: nat)
    requires Secure(a, e, n, k) && Cong(b, a, n)
    ensures Secure(b, e, n, k)
  {
    hide NoSpill;
    var t := TopNibbleOf(e);
    if 16 <= e { NoSpillCong(a, b, t, t, n, k); }
    if 64 <= k {
      NoSpillCong(a, b, t, 0, n, k);
      forall i | 1 <= i < 15 ensures NoSpill(b, 1, i, n, k) { NoSpillCong(a, b, 1, i, n, k); }
    }
  }

  lemma NoSpillCong(a: int, b: int, i: nat, j: nat, n: nat, k: nat)
    requires NoSpill(a, i, j, n, k) && Cong(b, a, n)
    ensures NoSpill(b, i, j, n, k)
  {
    hide Cong, Exp, Pow, Spills;
    forall x: nat, y: nat | x <= n && y <= n && Cong(x, Exp(b, i) * Pow(k), n) && Cong(y, Exp(b, j) * Pow(k), n)
      ensures !Spills(x, y, n, k)
    {
      PowerOfOther(x, a, b, i, n, k);
      PowerOfOther(y, a, b, j, n, k);
    }
  }

  lemma PowerOfOther(x: int, a: int, b: int, i: nat, n: nat, k: nat)
    requires Cong(b, a, n) && Cong(x, Exp(b, i) * Pow(k), n)
    ensures Cong(x, Exp(a, i) * Pow(k), n)
  {
    CongExp(b, a, i, n);
    CongRefl(Pow(k), n);
    CongMul(Exp(b, i), Exp(a, i), Pow(k), Pow(k), n);
    CongTrans(x, Exp(b, i) * Pow(k), Exp(a, i) * Pow(k), n);
  }

  /** The base, no larger than the modulus. */
  method Reduced(m: Bignum, modulus: Bignum) returns (newm: Bignum)
    requires m.Valid() && m.Trimmed() && m.sign == 1 && OddModulus(modulus) && Apart(m, modulus)
    modifies modulus, modulus.num, m`length
    ensures OddModulus(modulus) && modulus.length == old(modulus.length) && modulus.Mag() == old(modulus.Mag())
    ensures (modulus.num == old(modulus.num) || fresh(modulus.num)) && m.length == old(m.length) && 0 < modulus.Mag()
    ensures fresh(newm) && fresh(newm.num) && Apart(newm, modulus) && newm.Valid() && newm.Trimmed() && newm.sign == 1
    ensures newm.Mag() <= modulus.Mag() && Cong(newm.Mag(), old(m.Mag()), modulus.Mag())
    ensures newm.Mag() == modulus.Mag() <==> WordMultiple(old(m.Mag()), modulus.Mag())
  {
    hide Val, Pow, Cong, WordMultiple;
    NonZero(modulus);
    newm := new Bignum(0);
    ghost var v, n := m.Mag(), modulus.Mag();
    var r := BigCompare(m, modulus, 0);
    if r > 0 {
      BigMod(m, modulus, newm);
    } else {
      BigCopy(m, newm);
      CongRefl(v, n);
      AtMostOnce(v, n);
    }
  }

  lemma AtMostOnce(v: nat, n: nat)
    requires v <= n && 0 < n
    ensures v == n <==> WordMultiple(v, n)
  {
    ScaledIs(n, 0);
    if v < n { NotMultiple(v, n); }
  }

  /** A multiple of the modulus is reduced to zero, or, if it is the modulus shifted up by words, to the modulus. */
  lemma ZeroPower(w: nat, v: nat, n: nat)
    requires Cong(w, v, n) && w <= n && 0 < n && (w == n <==> WordMultiple(v, n))
    ensures Cong(v, 0, n) ==> (w == 0 <==> !(v != 0 && WordMultiple(v, n)))
  {
    hide WordMultiple;
    if Cong(v, 0, n) {
      CongTrans(w, v, 0, n);
      LeastRemainder(w, 0, n);
      if v == 0 { NotMultiple(v, n); }
    }
  }

  lemma {:induction false} CongExp(x: int, y: int, e: nat, n: int)
    requires Cong(x, y, n)
    ensures Cong(Exp(x, e), Exp(y, e), n)
  {
    if e == 0 {
      CongRefl(1, n);
    } else {
      CongExp(x, y, e - 1, n);
      CongMul(x, y, Exp(x, e - 1), Exp(y, e - 1), n);
    }
  }

  /** The power of what was reduced, w, is the power of v, but for the power 0 of a multiple of the modulus. */
  lemma SamePower(z: int, w: nat, v: nat, e: nat, n: nat)
    requires Cong(w, v, n) && Cong(z, PowerOf(w, e), n)
    ensures e != 0 || !Cong(v, 0, n) ==> Cong(z, Exp(v, e), n)
  {
    CongExp(w, v, e, n);
    if w == 0 && e == 0 {
      CongSym(w, v, n);
    } else {
      if w == 0 { assert Exp(0, e) == 0 * Exp(0, e - 1); }
      CongTrans(z, Exp(w, e), Exp(v, e), n);
    }
  }
}
