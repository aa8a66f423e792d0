/**
 Word loops on arrays: adding a multiple of one number to another, the diagonal and the
 cross products of a square.
 */
module LongMult {
  import opened Words

  /** Stretches of arrays that do not meet. */
  predicate Clear(x: array<Word>, xo: nat, xn: nat, y: array<Word>, yo: nat, yn: nat) {
    x != y || xo + xn <= yo || yo + yn <= xo
  }

  /** Word i of a sequence that was s is still the same. */
  predicate Kept(s: seq<Word>, t: seq<Word>, lo: nat, hi: nat) {
    |s| == |t| && forall i :: 0 <= i < |s| && !(lo <= i < hi) ==> t[i] == s[i]
  }

  /** An operand clear of what has been written is the same. */
  lemma KeptAt(a: seq<Word>, a': seq<Word>, c: seq<Word>, c': seq<Word>, same: bool, lo: nat, hi: nat, ao: nat, n: nat)
    requires Kept(c, c', lo, hi) && ao + n <= |a| && |a'| == |a|
    requires if same then a == c && a' == c' && (hi <= ao || ao + n <= lo) else a' == a
    ensures a'[ao..ao + n] == a[ao..ao + n]
  {
  }

  method UMult(m: Word, x: Word) returns (hi: Word, lo: Word)
    ensures hi * BASE + lo == m * x && hi <= BASE - 2
  {
    ProductFits(m, x);
    hi, lo := m * x / BASE, m * x % BASE;
  }

  lemma ProductFits(m: Word, x: Word)
    ensures 0 <= m * x <= (BASE - 1) * (BASE - 1)
  {
    MulBound(m, x, BASE - 1);
  }

  lemma MulBound(m: int, x: int, b: int)
    requires 0 <= m <= b && 0 <= x <= b
    ensures 0 <= m * x <= b * b
  {
    MulLess(m, b, x);
    MulLess(x, b, b);
    MulLess(0, m, x);
  }

  /** One step of accumulating m * src onto dst. */
  lemma AccumulateStep(v: int, c: int, v0: int, m: int, sv: int, p: int, lo: int, c': int, x: int, d: int)
    requires v + c * p == v0 + m * sv
    requires lo + c' * BASE == m * x + c + d
    ensures (v + lo * p) + c' * (p * BASE) == (v0 + d * p) + m * (sv + x * p)
  {
    calc {
      v + lo * p + c' * (p * BASE);
      { MulAssoc(c', BASE, p); MulDist(p, lo, c' * BASE); }
      v + (lo + c' * BASE) * p;
      { MulDist(p, m * x, c + d); MulDist(p, c, d); }
      v + c * p + d * p + (m * x) * p;
      { MulAssoc(m, x, p); MulDist(m, sv, x * p); }
      (v0 + d * p) + m * (sv + x * p);
    }
  }

  /** m * x + carry + y, in two words. */
  method MulAdd(m: Word, x: Word, carry: Word, y: Word) returns (hi: Word, lo: Word)
    ensures hi * BASE + lo == m * x + carry + y
  {
    var sumh, suml := UMult(m, x);
    suml := (suml + carry) % BASE;
    if suml < carry { sumh := sumh + 1; }
    assert sumh * BASE + suml == m * x + carry;
    StepFits(m, x, carry, y);
    lo := (y + suml) % BASE;
    hi := sumh;
    if lo < suml { hi := hi + 1; }
  }

  /** dst += m * src over n words; the carry out is returned. */
  method LMult(dst: array<Word>, d: nat, m: Word, src: array<Word>, s: nat, n: nat) returns (carry: Word)
    requires d + n <= dst.Length && s + n <= src.Length && Clear(dst, d, n, src, s, n)
    modifies dst
    ensures Val(dst[d..d + n]) + carry * Pow(n) == old(Val(dst[d..d + n])) + m * old(Val(src[s..s + n]))
    ensures Kept(old(dst[..]), dst[..], d, d + n)
  {
    hide Val, Pow;
    carry := 0;
    ghost var before, a := dst[d..d + n], src[s..s + n];
    PowZero();
    ValEmpty();
    assert dst[d..d] == before[..0] == a[..0] == [];
    var i := 0;
    while i < n
      invariant i <= n && Kept(old(dst[..]), dst[..], d, d + i)
      invariant Val(dst[d..d + i]) + carry * Pow(i) == Val(before[..i]) + m * Val(a[..i])
    {
      ghost var c, done := carry, dst[d..d + i];
      var x, y := src[s + i], dst[d + i];
      assert x == a[i] && y == before[i];
      carry, dst[d + i] := MulAdd(m, x, carry, y);
      assert dst[d..d + i + 1] == done + [dst[d + i]];
      ValSnoc(done, dst[d + i]);
      ValNext(before, i);
      ValNext(a, i);
      PowNext(i);
      AccumulateStep(Val(done), c, Val(before[..i]), m, Val(a[..i]), Pow(i), dst[d + i], carry, x, y);
      i := i + 1;
    }
    assert before[..n] == before && a[..n] == a;
  }

  lemma StepFits(m: Word, x: Word, c: Word, y: Word)
    ensures 0 <= m * x + c + y < BASE * BASE
  {
    ProductFits(m, x);
  }

  lemma PowZero()
    ensures Pow(0) == 1
  {
  }

  lemma PowNext(n: nat)
    ensures Pow(n + 1) == Pow(n) * BASE
  {
  }

  // ----- squaring

  /** The squares of the words, each at its place. */
  ghost function Diag(s: seq<Word>): nat {
    if s == [] then 0 else Diag(s[..|s| - 1]) + s[|s| - 1] * s[|s| - 1] * Pow(2 * (|s| - 1))
  }

  method BuildDiag(dst: array<Word>, d: nat, src: array<Word>, s: nat, n: nat)
    requires 0 < n && d + 2 * n <= dst.Length && s + n <= src.Length && Clear(dst, d, 2 * n, src, s, n)
    modifies dst
    ensures Val(dst[d..d + 2 * n]) == Diag(old(src[s..s + n]))
    ensures Kept(old(dst[..]), dst[..], d, d + 2 * n)
  {
    hide Val, Pow, Diag;
    ghost var a := src[s..s + n];
    DiagEmpty();
    assert dst[d..d] == a[..0] == [];
    var i := 0;
    while i < n
      invariant i <= n && Kept(old(dst[..]), dst[..], d, d + 2 * i)
      invariant Val(dst[d..d + 2 * i]) == Diag(a[..i])
    {
      ghost var done := dst[d..d + 2 * i];
      var m := src[s + i];
      assert m == a[i];
      dst[d + 2 * i + 1], dst[d + 2 * i] := UMult(m, m);
      DiagNext(a, i);
      assert dst[d..d + 2 * i + 2] == done + [dst[d + 2 * i]] + [dst[d + 2 * i + 1]];
      ValTwo(done, dst[d + 2 * i], dst[d + 2 * i + 1]);
      i := i + 1;
    }
    assert a[..n] == a;
  }

  lemma DiagEmpty()
    ensures Diag([]) == 0 && Val([]) == 0
  {
  }

  lemma DiagNext(a: seq<Word>, i: nat)
    requires i < |a|
    ensures Diag(a[..i + 1]) == Diag(a[..i]) + a[i] * a[i] * Pow(2 * i)
  {
    assert a[..i + 1][..i] == a[..i];
  }

  lemma ValTwo(s: seq<Word>, x: Word, y: Word)
    ensures Val(s + [x] + [y]) == Val(s) + (y * BASE + x) * Pow(|s|)
  {
    hide Val, Pow;
    ValSnoc(s, x);
    ValSnoc(s + [x], y);
    PowNext(|s|);
    MulAssoc(y, BASE, Pow(|s|));
    MulDist(Pow(|s|), y * BASE, x);
  }

  /** The sum of two words, in two words. */
  method Add32(x: Word, y: Word) returns (hi: Word, lo: Word)
    ensures hi * BASE + lo == x + y && hi <= 1
  {
    lo := (x + y) % BASE;
    hi := if lo < x then 1 else 0;
  }

  /** One step of accumulating 2 * m * src: the carry stands at the second word. */
  lemma DoubleStep(v: int, u: int, p: int, c: int, vb: int, m: int, av: int, x: int, y: int, u': int, y': int, c': int)
    requires v + u * p + c * (p * BASE) == vb + 2 * m * av
    requires u' + BASE * y' + BASE * BASE * c' == 2 * (m * x) + u + BASE * y + BASE * c
    ensures (v + u' * p) + y' * (p * BASE) + c' * (p * BASE * BASE) == (vb + y * (p * BASE)) + 2 * m * (av + x * p)
  {
    calc {
      (v + u' * p) + y' * (p * BASE) + c' * (p * BASE * BASE);
      { MulAssoc(y', BASE, p); MulAssoc(c', BASE * BASE, p); MulDist(p, u', y' * BASE); MulDist(p, u' + y' * BASE, c' * (BASE * BASE)); }
      v + (u' + BASE * y' + BASE * BASE * c') * p;
      v + (2 * (m * x) + u + BASE * y + BASE * c) * p;
      { MulDist(p, 2 * (m * x), u + BASE * y + BASE * c); MulDist(p, u, BASE * y + BASE * c); MulDist(p, BASE * y, BASE * c); }
      v + u * p + (BASE * c) * p + (BASE * y) * p + (2 * (m * x)) * p;
      { MulAssoc(c, BASE, p); MulAssoc(y, BASE, p); MulAssoc(2 * m, x, p); MulAssoc(2, m, x); MulDist(2 * m, av, x * p); }
      (vb + y * (p * BASE)) + 2 * m * (av + x * p);
    }
  }

  /** 2 * m * x + u + y * BASE + carry * BASE, in three words. */
  method DoubleMulAdd(m: Word, x: Word, u: Word, y: Word, carry: Word) returns (c: Word, hi: Word, lo: Word)
    requires carry <= 2
    ensures lo + BASE * hi + BASE * BASE * c == 2 * (m * x) + u + BASE * y + BASE * carry && c <= 2
  {
    var prodhi, prodlo := UMult(m, x);
    var sumh, suml := Add32(prodlo, prodlo);
    var k, s := Add32(suml, u);
    lo := s;
    c := sumh + carry + k;
    assert lo + BASE * c == 2 * prodlo + u + BASE * carry;
    sumh, suml := Add32(prodhi, prodhi);
    k, s := Add32(suml, y);
    sumh, suml := sumh + k, s;
    assert suml + BASE * sumh == 2 * prodhi + y;
    k, s := Add32(suml, c);
    hi, c := s, sumh + k;
  }

  /** dst += carry, for as long as there is a carry, over at most max words; n words are enough, or all there are. */
  method CarryUp(dst: array<Word>, d: nat, max: nat, carry: Word, ghost n: nat) returns (c: Word)
    requires d + n <= dst.Length && n <= max && (n < max ==> Val(dst[d..d + n]) + carry < Pow(n))
    modifies dst
    ensures Val(dst[d..d + n]) + c * Pow(n) == old(Val(dst[d..d + n])) + carry
    ensures Kept(old(dst[..]), dst[..], d, d + n)
    ensures c <= 1 || c == carry
  {
    hide Val, Pow;
    ghost var before := dst[d..d + n];
    PowZero();
    ValEmpty();
    assert dst[d..d] == before[..0] == [];
    c := carry;
    var i := 0;
    while c != 0 && i < max
      invariant i <= n && Kept(old(dst[..]), dst[..], d, d + i) && (c <= 1 || c == carry)
      invariant Val(dst[d..d + i]) + c * Pow(i) == Val(before[..i]) + carry
    {
      ghost var c0, done := c, dst[d..d + i];
      if n < max { CarryStays(Val(done), c, before, i, carry); }
      var y := dst[d + i];
      assert y == before[i];
      c, dst[d + i] := Add32(y, c);
      assert dst[d..d + i + 1] == done + [dst[d + i]];
      ValSnoc(done, dst[d + i]);
      ValNext(before, i);
      PowNext(i);
      CarryOn(Val(done), c0, Pow(i), Val(before[..i]), carry, y, dst[d + i], c);
      i := i + 1;
    }
    Untouched(before, dst[d..d + n], i);
    assert dst[d..d + n][..i] == dst[d..d + i];
    if i < n { NoCarry(c, Pow(i), Pow(n)); }
  }

  lemma NoCarry(c: int, p: int, q: int)
    requires c == 0
    ensures c * p == 0 && c * q == 0
  {
  }

  /** A carry past the end would need a larger sum. */
  lemma CarryStays(v: nat, carry: nat, before: seq<Word>, k: nat, add: nat)
    requires k <= |before| && v + carry * Pow(k) == Val(before[..k]) + add && 0 < carry
    requires Val(before) + add < Pow(|before|)
    ensures k < |before|
  {
    if k == |before| {
      assert before[..k] == before;
      MulLess(1, carry, Pow(k));
    }
  }

  lemma CarryOn(v: int, c: int, p: int, vb: int, add: int, y: int, lo: int, hi: int)
    requires v + c * p == vb + add && hi * BASE + lo == y + c
    ensures (v + lo * p) + hi * (p * BASE) == (vb + y * p) + add
  {
    MulAssoc(hi, BASE, p);
    MulDist(p, lo, hi * BASE);
    MulDist(p, y, c);
  }

  /** The words from k on are the same. */
  lemma Untouched(s: seq<Word>, t: seq<Word>, k: nat)
    requires |s| == |t| && k <= |s| && s[k..] == t[k..]
    ensures Val(t) - Val(s) == Val(t[..k]) - Val(s[..k])
  {
    ValSplit(s, k);
    ValSplit(t, k);
  }

  /** dst += 2 * m * src, but for a carry that belongs behind the last word written. */
  method CrossProducts(dst: array<Word>, d: nat, m: Word, src: array<Word>, s: nat, n: nat) returns (carry: Word)
    requires 0 < n && d + n + 1 <= dst.Length && s + n <= src.Length && Clear(dst, d, n + 1, src, s, n)
    modifies dst
    ensures Val(dst[d..d + n + 1]) + carry * Pow(n + 1) == old(Val(dst[d..d + n + 1])) + 2 * m * old(Val(src[s..s + n]))
    ensures Kept(old(dst[..]), dst[..], d, d + n + 1)
  {
    hide Val, Pow;
    ghost var before, a := dst[d..d + n + 1], src[s..s + n];
    carry := 0;
    var i := 0;
    PowZero();
    ValEmpty();
    assert a[..0] == [] && before[..1] == dst[d..d + 1];
    while i < n
      invariant i <= n && carry <= 2
      invariant Kept(old(dst[..]), dst[..], d, d + i + 1)
      invariant Val(dst[d..d + i + 1]) + carry * Pow(i + 1) == Val(before[..i + 1]) + 2 * m * Val(a[..i])
    {
      ghost var c, done := carry, dst[d..d + i];
      var x, u, y := src[s + i], dst[d + i], dst[d + i + 1];
      assert x == a[i] && y == before[i + 1];
      assert dst[d..d + i + 1] == done + [u];
      ValSnoc(done, u);
      carry, dst[d + i + 1], dst[d + i] := DoubleMulAdd(m, x, u, y, carry);
      assert dst[d..d + i + 2] == done + [dst[d + i]] + [dst[d + i + 1]];
      ValSnoc(done, dst[d + i]);
      ValSnoc(done + [dst[d + i]], dst[d + i + 1]);
      ValNext(before, i + 1);
      ValNext(a, i);
      PowNext(i);
      PowNext(i + 1);
      DoubleStep(Val(done), u, Pow(i), c, Val(before[..i + 1]), m, Val(a[..i]), x, y, dst[d + i], dst[d + i + 1], carry);
      i := i + 1;
    }
    assert a[..n] == a && before[..n + 1] == before;
  }

  /** dst += 2 * m * src[start..end], carrying on for as long as there is a carry. */
  method SquareInnerLoop(dst: array<Word>, d: nat, m: Word, src: array<Word>, s: nat, start: nat, end: nat, ghost n: nat)
    requires start < end && end - start + 1 <= n <= 2 * end - start + 1
    requires d + n <= dst.Length && s + end <= src.Length && Clear(dst, d, n, src, s, end)
    requires Val(dst[d..d + n]) + 2 * m * Val(src[s + start..s + end]) < Pow(n)
    modifies dst
    ensures Val(dst[d..d + n]) == old(Val(dst[d..d + n])) + 2 * m * old(Val(src[s + start..s + end]))
    ensures Kept(old(dst[..]), dst[..], d, d + n)
  {
    hide Val, Pow;
    var k := end - start + 1;
    ghost var before := dst[d..d + n];
    ghost var add := 2 * m * Val(src[s + start..s + end]);
    var carry := CrossProducts(dst, d, m, src, s + start, end - start);
    ghost var mid := dst[d..d + n];
    assert before[..k] == old(dst[d..d + k]) && mid[..k] == dst[d..d + k];
    assert before[k..] == mid[k..] == dst[d + k..d + n];
    RoomAbove(before, mid, k, carry, add);
    ghost var carry0 := carry;
    carry := CarryUp(dst, d + k, end, carry, n - k);
    ghost var after := dst[d..d + n];
    assert after[..k] == mid[..k] && after[k..] == dst[d + k..d + n];
    CarriedOut(before, mid, after, k, carry0, carry, add);
  }

  /** Above the words written there is room for the carry. */
  lemma RoomAbove(before: seq<Word>, mid: seq<Word>, k: nat, carry: nat, add: nat)
    requires |mid| == |before| && k <= |before| && mid[k..] == before[k..]
    requires Val(mid[..k]) + carry * Pow(k) == Val(before[..k]) + add && Val(before) + add < Pow(|before|)
    ensures Val(mid[k..]) + carry < Pow(|before| - k)
  {
    hide Val, Pow;
    ValSplit(before, k);
    PowAdd(k, |before| - k);
    MulDist(Pow(k), Val(mid[k..]), carry);
    Cancel(Pow(k), Val(mid[k..]) + carry, Pow(|before| - k));
  }

  lemma Cancel(p: int, x: int, y: int)
    requires 0 < p && p * x < p * y
    ensures x < y
  {
    if y <= x { MulLess(y, x, p); }
  }

  /** The carry out of the upper words is none, and the whole has grown by what was added. */
  lemma CarriedOut(before: seq<Word>, mid: seq<Word>, after: seq<Word>, k: nat, carry: nat, c: nat, add: nat)
    requires |mid| == |before| == |after| && k <= |before| && mid[k..] == before[k..] && after[..k] == mid[..k]
    requires Val(mid[..k]) + carry * Pow(k) == Val(before[..k]) + add
    requires Val(after[k..]) + c * Pow(|before| - k) == Val(mid[k..]) + carry < Pow(|before| - k)
    ensures Val(after) == Val(before) + add
  {
    hide Val, Pow;
    if c > 0 { MulLess(1, c, Pow(|before| - k)); }
    ValSplit(before, k);
    ValSplit(after, k);
    MulDist(Pow(k), Val(mid[k..]), carry);
  }
}
