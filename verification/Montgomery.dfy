/** Montgomery reduction: the inverse of a word, and dividing by a power of the word size. */
module Montgomery {
  import opened Words
  import opened LongMult
  import opened CoreMult
  import opened WordSums
  import opened Bignums
  import opened BigMult
  import opened Shifts
  import opened LongDivide
  import opened Congruence
  import opened Modulo

  // ----- the inverse of an odd word

  lemma Remainder(a: int, k: int, n: int, r: int)
    requires a == k * n + r && 0 < n
    ensures a % n == r % n
  {
    CongIs(a, r, n, k);
    CongMod(a, r, n);
  }

  /** A number that leaves 1 by od leaves 1 or 1 + od by twice od. */
  lemma OneMoreBit(a: nat, od: nat) returns (j: int)
    requires 2 <= od && a % od == 1
    ensures a == j * (2 * od) + 1 || a == j * (2 * od) + od + 1
    ensures a % (2 * od) == a - j * (2 * od)
  {
    var k := a / od;
    assert a == od * k + 1;
    j := k / 2;
    MulAssoc(j, 2, od);
    MulDist(od, 2 * j, k % 2);
    assert a == od * (2 * j + k % 2) + 1;
    Divided(a, 2 * od, j, a - j * (2 * od));
  }

  lemma OddMultiple(x: int, od: int) returns (u: int)
    requires x % 2 == 1
    ensures x * od == u * (2 * od) + od
  {
    u := x / 2;
    assert x == 2 * u + 1;
    MulDist(od, 2 * u, 1);
    MulAssoc(u, 2, od);
  }

  /** One more bit of the inverse: whether od has to be added shows in the product. */
  lemma LiftStep(x: Word, y: nat, od: nat, xx: nat)
    requires x % 2 == 1 && 2 <= od && 0 <= x * y && (x * y) % od == 1 && xx == (x * y) % (2 * od)
    ensures xx < od ==> (x * y) % (2 * od) == 1
    ensures xx >= od ==> (x * (y + od)) % (2 * od) == 1
  {
    var j := OneMoreBit(x * y, od);
    if xx >= od {
      var u := OddMultiple(x, od);
      MulDist(x, y, od);
      MulDist(2 * od, j + u, 1);
      MulDist(2 * od, j, u);
      Divided(x * (y + od), 2 * od, j + u + 1, 1);
    }
  }

  lemma ModOfMod(a: nat, od: nat, i: nat)
    requires 1 <= i <= 31 && od == Two(i)
    ensures (a % BASE) % (2 * od) == a % (2 * od)
  {
    hide Two;
    TwoAdd(i + 1, 31 - i);
    TwoAdd(1, i);
    TwoOne();
    TwoWord();
    SubModulus(a, 2 * od, Two(31 - i));
  }

  lemma SubModulus(a: nat, n: nat, q: nat)
    requires 0 < n && n * q == BASE
    ensures (a % BASE) % n == a % n
  {
    var k := a / BASE;
    assert a == k * BASE + a % BASE;
    MulAssoc(k, q, n);
    CongIs(a, a % BASE, n, k * q);
    CongMod(a, a % BASE, n);
  }

  /** y inverts x up to i bits. */
  predicate Inverts(x: Word, y: Word, i: nat) {
    y < Two(i) && (x * y) % Two(i) == 1
  }

  /** The inverse up to one more bit. */
  method InverseBit(x: Word, y: Word, od: Word, i: nat) returns (y': Word, d: Word)
    requires x % 2 == 1 && 1 <= i <= 31 && od == Two(i) && Inverts(x, y, i)
    ensures Inverts(x, y', i + 1) && d == if i < 31 then Two(i + 1) else 0
  {
    hide Two;
    TwoStep(i);
    d := (od * 2) % BASE;
    ProductNat(x, y);
    var xx := (x * y) % BASE;
    ModOfMod(x * y, od, i);
    if d != 0 { xx := xx % d; }
    TwoGrows(1, i);
    TwoOne();
    LiftStep(x, y, od, xx);
    y' := if xx < od then y else y + od;
  }

  /** The negative of the inverse of an odd word, found a bit at a time. */
  method ModInverse(x: Word) returns (n: Word)
    requires x % 2 == 1
    ensures (x * n) % BASE == BASE - 1
  {
    hide Two, Inverts;
    var y := new Word[33];
    y[1] := 1;
    var od: Word := 2;
    FirstInverse(x);
    var i := 2;
    while i < 33
      invariant 2 <= i <= 33 && Inverts(x, y[i - 1], i - 1) && od == if i < 33 then Two(i - 1) else 0
    {
      y[i], od := InverseBit(x, y[i - 1], od, i - 1);
      i := i + 1;
    }
    n := (y[32] * 0xFFFF_FFFF) % BASE;
    LastInverse(x, y[32]);
    Negative(x, y[32], n);
  }

  lemma FirstInverse(x: Word)
    requires x % 2 == 1
    ensures Two(1) == 2 && Inverts(x, 1, 1)
  {
  }

  lemma LastInverse(x: Word, y: Word)
    requires Inverts(x, y, 32)
    ensures (x * y) % BASE == 1
  {
    TwoWord();
  }

  lemma ProductNat(x: nat, y: nat)
    ensures 0 <= x * y
  {
    MulLess(0, x, y);
  }

  lemma TwoStep(i: nat)
    requires i <= 31
    ensures Two(i + 1) == 2 * Two(i) <= BASE && (i == 31 <==> 2 * Two(i) == BASE)
  {
    TwoWord();
    TwoGrows(i + 1, 32);
    if i < 31 { TwoGrows(i + 1, 31); TwoAdd(31, 1); TwoOne(); }
  }

  lemma Negative(x: Word, y: Word, n: Word)
    requires (x * y) % BASE == 1 && n == (y * 0xFFFF_FFFF) % BASE
    ensures (x * n) % BASE == BASE - 1
  {
    var k, j := x * y / BASE, y * 0xFFFF_FFFF / BASE;
    assert x * y == k * BASE + 1 && y * 0xFFFF_FFFF == j * BASE + n;
    calc {
      x * n;
      x * (y * 0xFFFF_FFFF - j * BASE);
      { MulDist(x, y * 0xFFFF_FFFF, -(j * BASE)); MulAssoc(x, y, 0xFFFF_FFFF); MulAssoc(x, j, BASE); }
      (x * y) * 0xFFFF_FFFF - (x * j) * BASE;
      (k * 0xFFFF_FFFF - x * j) * BASE + 0xFFFF_FFFF;
    }
    Remainder(x * n, k * 0xFFFF_FFFF - x * j, BASE, 0xFFFF_FFFF);
  }

  // ----- reduction

  /** The word of a multiple of Pow(i) that decides whether it is one of Pow(i + 1). */
  lemma NextWord(s: seq<Word>, n: nat, i: nat, h: nat) returns (rest: nat)
    requires n <= |s| && i < |s| && (forall j :: n <= j <= i ==> s[j] == 0) && Val(s[..n]) == h * Pow(i)
    ensures h == s[i] + rest * BASE
  {
    hide Val, Pow;
    var k := if n <= i then i + 1 else n;
    var t := s[..k];
    ValTrim(t, n);
    assert t[..n] == s[..n];
    ValSplit(t, i);
    ValBound(t[..i]);
    PowZero();
    ValSplit(t[i..], 1);
    ValOne(t[i..][..1]);
    PowNext(0);
    rest := Val(t[i..][1..]);
    LowIsZero(Val(t[..i]), Val(t[i..]), Pow(i), h);
  }

  lemma LowIsZero(low: int, high: int, p: int, h: int)
    requires 0 <= low < p && low + p * high == h * p
    ensures low == 0 && high == h
  {
    Divided(h * p, p, high, low);
    Divided(h * p, p, h, 0);
  }

  /** Adding m times the modulus clears the word. */
  lemma WordCleared(h: nat, rest: int, d: Word, m: Word, n0: Word, n0p: Word, nh: int, n: int) returns (h': int)
    requires h == d + rest * BASE && n == n0 + BASE * nh && m == (d * n0p) % BASE && (n0 * n0p) % BASE == BASE - 1
    ensures h + m * n == h' * BASE
  {
    var a, b := d * n0p / BASE, n0 * n0p / BASE;
    assert d * n0p == a * BASE + m && n0 * n0p == b * BASE + (BASE - 1);
    calc {
      m * n0;
      { MulDist(n0, d * n0p, -(a * BASE)); MulAssoc(d, n0, n0p); MulAssoc(n0, a, BASE); Swap(d, n0p, n0); }
      d * (n0 * n0p) - (n0 * a) * BASE;
      { MulDist(d, b * BASE, BASE - 1); MulAssoc(d, b, BASE); }
      (d * b) * BASE + d * BASE - d - (n0 * a) * BASE;
      (d * b + d - n0 * a) * BASE - d;
    }
    MulDist(m, n0, BASE * nh);
    MulAssoc(m, BASE, nh);
    MulAssoc(BASE, m, nh);
    h' := rest + d * b + d - n0 * a + m * nh;
  }

  lemma Swap(d: int, n0p: int, n0: int)
    ensures n0 * (d * n0p) == d * (n0 * n0p)
  {
    MulAssoc(n0, d, n0p);
    MulAssoc(d, n0, n0p);
  }

  /** A reduction under way: the number it goes out from, what is above the cleared words, and how often the modulus was added. */
  datatype Reduction = Reduction(from: int, high: nat, times: nat)

  /** Where the reduction stands after i words. */
  ghost predicate Reducing(t: int, n: nat, i: nat, r: Reduction) {
    t == r.high * Pow(i) == r.from + n * r.times && r.times < Pow(i)
  }

  lemma ReducingStep(t: nat, n: nat, i: nat, r: Reduction, m: Word, h': int) returns (r': Reduction)
    requires Reducing(t, n, i, r) && r.high + m * n == h' * BASE
    ensures Reducing(t + Multiple(m, n, i), n, i + 1, r') && r'.from == r.from
  {
    var p := Pow(i);
    PowNext(i);
    MulLess(0, m, n);
    MulDist(p, r.high, m * n);
    MulAssoc(h', BASE, p);
    MulAssoc(h', p, BASE);
    MulLess(0, m, p);
    MulLess(m, BASE - 1, p);
    MulDist(n, r.times, m * p);
    MulAssoc(n, m, p);
    r' := Reduction(r.from, h', r.times + m * p);
  }

  /** Another word in the place of word s, above the cleared ones. */
  lemma WordChanged(t: int, n: nat, i: nat, r: Reduction, s: nat, d: int) returns (r': Reduction)
    requires Reducing(t, n, i, r) && i <= s && 0 <= t + d * Pow(s)
    ensures Reducing(t + d * Pow(s), n, i, r') && r'.from == r.from + d * Pow(s)
  {
    PowAdd(s - i, i);
    MulAssoc(d, Pow(s - i), Pow(i));
    MulDist(Pow(i), r.high, d * Pow(s - i));
    var h := r.high + d * Pow(s - i);
    if h < 0 { MulLess(h, -1, Pow(i)); }
    r' := Reduction(r.from + d * Pow(s), h, r.times);
  }

  /** What growing to room for e words and two more does to a number. */
  ghost function Loss(t: Bignum, e: nat): int
    requires t.Held()
    reads t, t.num
  {
    if t.Valid() || e + 2 <= t.space then 0 else (t.found(t.space) - t.num[t.space]) * Pow(t.space)
  }

  /** The reduction as it stands with the room grown, and the word it comes to next. */
  lemma Regrown(t: Bignum, e: nat, n: nat, i: nat, r: Reduction) returns (r': Reduction, rest: nat)
    requires t.Held() && i < t.space && t.ZeroTo(i + 1) && Reducing(t.Mag(), n, i, r)
    ensures Reducing(Grown(t, e), n, i, r') && r'.from == r.from + Loss(t, e) && r'.high == t.num[i] + rest * BASE
  {
    hide Val, Pow;
    var s, w := t.space, t.num[..];
    assert w[..t.length] == t.num[..t.length];
    if t.Valid() || e + 2 <= s {
      r' := r;
    } else {
      ValSnoc(w[..s], w[s]);
      assert w[..s] == t.num[..s] && w[..s] + [w[s]] == w[..t.length];
      Exchanged(Val(w[..s]), w[s], t.found(s), Pow(s));
      r' := WordChanged(t.Mag(), n, i, r, s, t.found(s) - w[s]);
      w := w[s := t.found(s)];
      ValSnoc(w[..s], w[s]);
      assert w[..s] == t.num[..s] && w[..s] + [w[s]] == w[..t.length];
    }
    ReducingIs(Grown(t, e), n, i, r');
    rest := NextWord(w, t.length, i, r'.high);
  }

  lemma Exchanged(low: nat, x: Word, y: Word, p: nat)
    ensures low + x * p + (y - x) * p == low + y * p >= 0
  {
    MulDist(p, x, y - x);
    MulLess(0, y, p);
  }

  lemma ReducingIs(t: int, n: nat, i: nat, r: Reduction)
    requires Reducing(t, n, i, r)
    ensures t == r.high * Pow(i) == r.from + n * r.times && r.times < Pow(i) && Cong(t, r.from, n)
  {
    CongIs(t, r.from, n, r.times);
  }

  // ----- when a carry leaves the room

  /**
   Reducing t0 by an n of k words in a room of s words loses a carry: before the room grows the
   low s - k - 1 words are cleared, and the multiple of n that does so takes the sum out of the room.
   */
  ghost predicate Leaves(t0: nat, n: nat, k: nat, s: nat) {
    k + 2 <= s <= 2 * k && LeavesAt(t0, n, s, s - k - 1)
  }

  ghost predicate LeavesAt(t0: nat, n: nat, s: nat, i: nat) {
    exists q: nat :: q < Pow(i) && TakesOver(t0, n, s, i, q)
  }

  ghost predicate TakesOver(t0: nat, n: nat, s: nat, i: nat, q: nat) {
    (t0 + n * q) % Pow(i) == 0 && Pow(s) <= t0 + n * q
  }

  /** A number with a multiple that is one of Pow(i) is itself one, if n is odd. */
  lemma {:induction false} OddFactor(n: int, n0p: int, x: int, y: int, i: nat) returns (z: int)
    requires (n * n0p) % BASE == BASE - 1 && n * x == y * Pow(i)
    ensures x == z * Pow(i)
    decreases i
  {
    if i == 0 {
      z := x;
    } else {
      var g, v := n * n0p / BASE + 1, y * Pow(i - 1);
      MulAssoc(y, Pow(i - 1), BASE);
      assert n * n0p == g * BASE - 1;
      OneWordLess(n, n0p, x, v, g);
      var x1 := g * x - n0p * v;
      z := OddFactor(n, n0p, x1, y, i - 1);
      MulAssoc(z, Pow(i - 1), BASE);
    }
  }

  lemma OneWordLess(n: int, n0p: int, x: int, v: int, g: int)
    requires n * n0p == g * BASE - 1 && n * x == v * BASE
    ensures x == (g * x - n0p * v) * BASE && n * (g * x - n0p * v) == v
  {
    MulDist(x, g * BASE, -1);
    assert (n * n0p) * x == n0p * (v * BASE) by { MulAssoc(n0p, n, x); }
    MulAssoc(n0p, v, BASE);
    assert (g * BASE) * x == (g * x) * BASE by { MulAssoc(g, BASE, x); MulAssoc(g, x, BASE); }
    MulDist(BASE, g * x, -(n0p * v));
    var u := g * x - n0p * v;
    assert x == u * BASE;
    MulAssoc(n, u, BASE);
  }

  lemma LowMultiple(x: int, p: int)
    requires 0 < p && x % p == 0
    ensures x == (x / p) * p
  {
  }

  /** There is just one multiple of the modulus that clears the low i words. */
  lemma OneWay(t0: int, n: nat, n0p: int, i: nat, q: nat, q': nat)
    requires (n * n0p) % BASE == BASE - 1 && q < Pow(i) && q' < Pow(i)
    requires (t0 + n * q) % Pow(i) == 0 && (t0 + n * q') % Pow(i) == 0
    ensures q == q'
  {
    var p := Pow(i);
    var a, b := (t0 + n * q) / p, (t0 + n * q') / p;
    LowMultiple(t0 + n * q, p);
    LowMultiple(t0 + n * q', p);
    MulDist(n, q, -(q' as int));
    MulDist(p, a, -b);
    var z := OddFactor(n, n0p, q - q', a - b, i);
    if z > 0 { MulLess(1, z, p); }
    if z < 0 { MulLess(z, -1, p); }
  }

  lemma LeavesIff(t: nat, n: nat, n0p: int, k: nat, s: nat, r: Reduction)
    requires k + 2 <= s <= 2 * k && Reducing(t, n, s - k - 1, r) && 0 <= r.from && (n * n0p) % BASE == BASE - 1
    ensures Leaves(r.from, n, k, s) <==> Pow(s) <= t
  {
    hide Pow;
    var i := s - k - 1;
    Divided(t, Pow(i), r.high, 0);
    if Pow(s) <= t { assert TakesOver(r.from, n, s, i, r.times); }
    if Leaves(r.from, n, k, s) {
      var q: nat :| q < Pow(i) && TakesOver(r.from, n, s, i, q);
      OneWay(r.from, n, n0p, i, q, r.times);
    }
  }

  lemma TimesBelow(n: nat, k: nat, q: nat, i: nat)
    requires n < Pow(k) && q < Pow(i)
    ensures 0 <= n * q < Pow(k + i)
  {
    PowAdd(k, i);
    BelowProduct(n, Pow(k), q, Pow(i));
  }

  /** No carry is lost while the top word of the room is not all ones. */
  lemma TopNotFull(t0: nat, n: nat, k: nat, s: nat)
    requires n < Pow(k) && 0 < s && t0 + Pow(s - 1) <= Pow(s)
    ensures !Leaves(t0, n, k, s)
  {
    hide Pow;
    if Leaves(t0, n, k, s) {
      var q: nat :| q < Pow(s - k - 1) && TakesOver(t0, n, s, s - k - 1, q);
      TimesBelow(n, k, q, s - k - 1);
    }
  }

  lemma SpareStays(t0: nat, n: nat, k: nat, s: nat)
    requires n < Pow(k) && 0 < s && t0 < Pow(s - 1)
    ensures !Leaves(t0, n, k, s)
  {
    PowNext(s - 1);
    TopNotFull(t0, n, k, s);
  }

  /** Nor when the top word of the modulus is not all ones, and there is room for its square. */
  lemma TopWordNotFull(t0: nat, n: nat, k: nat)
    requires 0 < k && n <= (BASE - 1) * Pow(k - 1) && t0 <= n * n
    ensures !Leaves(t0, n, k, 2 * k)
  {
    hide Pow;
    var p := Pow(k - 1);
    PowNext(k - 1);
    PowAdd(k - 1, k);
    PowNext(2 * k - 1);
    MulLess(n, (BASE - 1) * p, n);
    MulLess(n, (BASE - 1) * p, (BASE - 1) * p);
    FullSquare(p);
    TopNotFull(t0, n, k, 2 * k);
  }

  lemma FullSquare(p: nat)
    requires 0 < p
    ensures ((BASE - 1) * p) * ((BASE - 1) * p) + p * (p * BASE) <= (p * (p * BASE)) * BASE
    ensures (BASE - 1) * p < p * BASE
  {
    var w := p * p;
    MulLess(0, p, p);
    MulAssoc(p, p, BASE);
    MulAssoc((BASE - 1) * p, BASE - 1, p);
    MulAssoc(BASE - 1, p, BASE - 1);
    assert ((BASE - 1) * p) * ((BASE - 1) * p) == ((BASE - 1) * (BASE - 1)) * w by { MulAssoc((BASE - 1) * (BASE - 1), p, p); }
  }

  // ----- the stages

  /**
   After i words: the room is the old one or has grown, and t has come from t0, or, once a carry
   was lost, from t0 with another word behind the room.
   */
  ghost predicate Underway(t: nat, space: nat, found: Word, t0: nat, s: nat, n: nat, k: nat, i: nat, r: Reduction) {
    && Reducing(t, n, i, r) && space == (if i == 0 then s else Max(s, k + i + 1))
    && (space == s ==> r.from == t0)
    && (space > s && OnceOnly(t0, found, n, k, s) ==> r.from == From(t0, found, n, k, s) && (t < Pow(space) || i == k))
  }

  /** A carry is lost once at most: with a word of all ones behind the room, the next could be as well, if the room grows again. */
  ghost predicate OnceOnly(t0: nat, found: Word, n: nat, k: nat, s: nat) {
    Leaves(t0, n, k, s) ==> found < BASE - 1 || s == 2 * k
  }

  /** The number that is reduced in the end. */
  ghost function From(t0: nat, found: Word, n: nat, k: nat, s: nat): int {
    if Leaves(t0, n, k, s) then t0 + (found - 1) * Pow(s) else t0
  }

  lemma FromBelow(t0: nat, found: Word, n: nat, k: nat, s: nat)
    requires t0 < Pow(s)
    ensures From(t0, found, n, k, s) < (BASE - 1) * Pow(s)
    ensures !Leaves(t0, n, k, s) || found < BASE - 1 ==> From(t0, found, n, k, s) < (BASE - 2) * Pow(s)
  {
    hide Leaves;
    MulLess(found, if found < BASE - 1 then BASE - 2 else BASE - 1, Pow(s));
    MulLess(1, BASE - 2, Pow(s));
    MulDist(Pow(s), found, -1);
  }

  lemma StageBelow(t: int, n: nat, k: nat, i: nat, r: Reduction, s: nat)
    requires Reducing(t, n, i + 1, r) && n < Pow(k) && r.from < (BASE - 2) * Pow(s) && s <= k + i + 1
    ensures t < Pow(k + i + 2)
  {
    hide Pow;
    TimesBelow(n, k, r.times, i + 1);
    PowGrows(s, k + i + 1);
    MulLess(Pow(s), Pow(k + i + 1), BASE - 2);
    PowNext(k + i + 1);
  }

  /** In its old room the number stays below twice that. */
  lemma StillBelow(t: nat, found: Word, t0: nat, s: nat, n: nat, k: nat, i: nat, r: Reduction)
    requires Underway(t, s, found, t0, s, n, k, i, r) && t0 < Pow(s) && n < Pow(k)
    ensures t < 2 * Pow(s) && (i == 0 ==> t == t0)
  {
    hide Pow, Leaves, From;
    TimesBelow(n, k, r.times, i);
    if i > 0 { PowGrows(k + i, s); } else { PowZero(); assert r.times == 0; }
  }

  lemma UnderwayStep(t: nat, space: nat, found: Word, t0: nat, s: nat, n: nat, n0p: int, k: nat, i: nat, r: Reduction, t': nat, r': Reduction, loss: int, top: nat)
    requires Underway(t, space, found, t0, s, n, k, i, r) && t0 < Pow(s) && n < Pow(k) && i < k && 0 < s && (n * n0p) % BASE == BASE - 1
    requires Reducing(t', n, i + 1, r') && r'.from == r.from + loss
    requires t < Pow(space) || k + i + 2 <= space ==> loss == 0
    requires Pow(space) <= t && space < k + i + 2 ==> top * Pow(space) <= t < (top + 1) * Pow(space)
    requires Pow(space) <= t && space == s < k + i + 2 ==> loss == (found - top) * Pow(s)
    ensures Underway(t', Max(space, k + i + 2), found, t0, s, n, k, i + 1, r')
  {
    hide Pow, Leaves, From, Reducing;
    if k + i + 2 <= s {
    } else if OnceOnly(t0, found, n, k, s) {
      if space == s { FirstGrowth(t, found, t0, s, n, n0p, k, i, r, loss, top); }
      FromBelow(t0, found, n, k, s);
      if i + 1 < k { StageBelow(t', n, k, i, r', s); }
    }
  }

  /** As the room grows for the first time, the carry behind it is lost. */
  lemma FirstGrowth(t: nat, found: Word, t0: nat, s: nat, n: nat, n0p: int, k: nat, i: nat, r: Reduction, loss: int, top: nat)
    requires Underway(t, s, found, t0, s, n, k, i, r) && t0 < Pow(s) && n < Pow(k) && i < k && s < k + i + 2 && (n * n0p) % BASE == BASE - 1
    requires t < Pow(s) ==> loss == 0
    requires Pow(s) <= t ==> top * Pow(s) <= t < (top + 1) * Pow(s) && loss == (found - top) * Pow(s)
    ensures r.from + loss == From(t0, found, n, k, s)
  {
    hide Pow, Reducing;
    StillBelow(t, found, t0, s, n, k, i, r);
    if i > 0 { LeavesIff(t, n, n0p, k, s, r); }
    if Pow(s) <= t {
      if top == 0 { ZeroProduct(top, Pow(s)); }
      if top >= 2 { MulLess(2, top, Pow(s)); }
    }
  }

  /** t with its next word made zero. */
  method ClearWord(t: Bignum, modulus: Bignum, n0p: Word, i: nat, ghost r: Reduction) returns (ghost r': Reduction)
    requires t.Held() && modulus.Valid() && Apart(t, modulus) && 2 <= modulus.length && i < modulus.length
    requires (modulus.Mag() * n0p) % BASE == BASE - 1
    requires i < t.space && t.ZeroTo(i + 1) && Reducing(t.Mag(), modulus.Mag(), i, r)
    requires t.space < modulus.length + i + 2 || t.Mag() < 2 * Pow(t.space)
    modifies t, t.num
    ensures t.Held() && t.Trimmed() && t.sign == old(t.sign) && (t.num == old(t.num) || fresh(t.num))
    ensures t.space == Max(old(t.space), modulus.length + i + 2) && t.ZeroTo(i + 2)
    ensures Reducing(t.Mag(), modulus.Mag(), i + 1, r') && r'.from == r.from + old(Loss(t, modulus.length + i))
  {
    hide Val, Pow, Reducing, Multiple, Grown, SumFits, Loss;
    ghost var n, e := modulus.Mag(), modulus.length + i;
    var d := t.num[i];
    var m := (d * n0p) % BASE;
    ghost var r1, rest := Regrown(t, e, n, i, r);
    ghost var nh := FirstWord(modulus);
    LowWord(n, modulus.num[0], nh, n0p);
    ghost var h' := WordCleared(r1.high, rest, d, m, modulus.num[0], n0p, nh, n);
    r' := ReducingStep(Grown(t, e), n, i, r1, m, h');
    MultipleFits(t, modulus, m, i);
    NumTypeBigMult(modulus, m, t, i);
    ZeroLess(t, e, i + 2);
  }

  lemma MultipleFits(t: Bignum, modulus: Bignum, m: Word, i: nat)
    requires t.Held() && modulus.Valid() && (t.space < modulus.length + i + 2 || t.Mag() < 2 * Pow(t.space))
    ensures SumFits(t, modulus.length + i, Multiple(m, modulus.Mag(), i))
  {
    hide Val, Pow, Multiple;
    ValBound(modulus.num[..modulus.length]);
    MultipleBelow(m, modulus.Mag(), modulus.length, i);
    if modulus.length + i + 2 <= t.space { PowGrows(modulus.length + i + 1, t.space); }
    PowNext(t.space);
  }

  lemma LowWord(n: int, n0: Word, nh: int, n0p: Word)
    requires n == n0 + BASE * nh
    ensures (n * n0p) % BASE == (n0 * n0p) % BASE
  {
    MulDist(n0p, n0, BASE * nh);
    MulAssoc(n0p, BASE, nh);
    MulAssoc(BASE, n0p, nh);
    CongIs(n * n0p, n0 * n0p, BASE, n0p * nh);
    CongMod(n * n0p, n0 * n0p, BASE);
  }

  lemma FirstWord(n: Bignum) returns (nh: nat)
    requires n.Valid()
    ensures n.Mag() == n.num[0] + BASE * nh
  {
    ValCons(n.num[..n.length]);
    nh := Val(n.num[..n.length][1..]);
  }

  lemma ZeroLess(t: Bignum, k: nat, j: nat)
    requires t.Held() && t.ZeroTo(k) && j <= k
    ensures t.ZeroTo(j)
  {
  }

  /** n0p is the negative of the inverse of the modulus, by the word size; the modulus has two words at least. */
  ghost predicate MontSet(modulus: Bignum, n0p: Word)
    reads modulus, modulus.num
  {
    modulus.Valid() && modulus.Trimmed() && modulus.sign == 1 && 2 <= modulus.length && (modulus.Mag() * n0p) % BASE == BASE - 1
  }

  lemma TopOf(t: Bignum)
    requires t.Held() && t.Trimmed()
    ensures t.Valid() <==> t.Mag() < Pow(t.space)
    ensures !t.Valid() ==> t.num[t.space] * Pow(t.space) <= t.Mag() < (t.num[t.space] + 1) * Pow(t.space)
  {
    hide Val, Pow;
    InRoom(t);
    if !t.Valid() {
      ValNext(t.num[..t.length], t.space);
      assert t.num[..t.length][..t.space + 1] == t.num[..t.length];
      ValBound(t.num[..t.length][..t.space]);
      MulDist(Pow(t.space), t.num[t.space], 1);
    }
  }

  /** The words of t, from the lowest, made zero by adding multiples of the modulus. */
  method ClearWords(t: Bignum, modulus: Bignum, n0p: Word) returns (ghost r: Reduction)
    requires MontSet(modulus, n0p) && t.Valid() && Apart(t, modulus)
    modifies t, t.num
    ensures t.Held() && t.Trimmed() && t.sign == old(t.sign) && (t.num == old(t.num) || fresh(t.num))
    ensures Underway(t.Mag(), t.space, t.found(old(t.space)), old(t.Mag()), old(t.space), modulus.Mag(), modulus.length, modulus.length, r)
  {
    hide Val, Pow, Reducing, Leaves, From, Underway;
    ghost var t0, s, n, k := t.Mag(), t.space, modulus.Mag(), modulus.length;
    ghost var found := t.found(s);
    ValBound(t.num[..t.length]);
    PowGrows(t.length, s);
    ValBound(modulus.num[..k]);
    r := Reduction(t0, t0, 0);
    UnderwayStart(t0, found, n, k, s, r);
    t.Trim(0);
    var i := 0;
    while i < modulus.length
      invariant i <= modulus.length && t.Held() && t.Trimmed() && t.sign == old(t.sign) && (t.num == old(t.num) || fresh(t.num))
      invariant i < t.space && t.ZeroTo(i + 1)
      invariant Underway(t.Mag(), t.space, found, t0, s, n, k, i, r)
    {
      ghost var v, space, loss, top := t.Mag(), t.space, Loss(t, k + i), t.num[t.space] as nat;
      StageFits(v, space, found, t0, s, n, k, i, r);
      TopOf(t);
      LossIs(t, k + i);
      ghost var r' := ClearWord(t, modulus, n0p, i, r);
      UnderwayStep(v, space, found, t0, s, n, n0p, k, i, r, t.Mag(), r', loss, top);
      r := r';
      i := i + 1;
    }
  }

  lemma UnderwayStart(t0: nat, found: Word, n: nat, k: nat, s: nat, r: Reduction)
    requires r == Reduction(t0, t0, 0)
    ensures Underway(t0, s, found, t0, s, n, k, 0, r)
  {
    PowZero();
  }

  lemma StageFits(t: nat, space: nat, found: Word, t0: nat, s: nat, n: nat, k: nat, i: nat, r: Reduction)
    requires Underway(t, space, found, t0, s, n, k, i, r) && t0 < Pow(s) && n < Pow(k)
    ensures Reducing(t, n, i, r) && (space < k + i + 2 || t < 2 * Pow(space))
  {
    hide Pow, Leaves, From, Reducing;
    if k + i + 2 <= space { StillBelow(t, found, t0, s, n, k, i, r); }
  }

  lemma LossIs(t: Bignum, e: nat)
    requires t.Held()
    ensures t.Valid() || e + 2 <= t.space ==> Loss(t, e) == 0
    ensures !t.Valid() && t.space < e + 2 ==> Loss(t, e) == (t.found(t.space) - t.num[t.space]) * Pow(t.space)
  {
  }

  // ----- the reduction

  /** z times R is congruent to t0 modulo n, and z is at most n. */
  ghost predicate ReducedTo(z: nat, t0: nat, n: nat, k: nat) {
    z <= n && Cong(z * Pow(k), t0, n)
  }

  /** What is above the cleared words. */
  lemma HighBelow(h: nat, t: nat, n: nat, k: nat, r: Reduction)
    requires Reducing(t, n, k, r) && h == r.high && r.from < (BASE - 1) * Pow(2 * k) && n < Pow(k)
    ensures h < Pow(k + 1) && Cong(h * Pow(k), r.from, n)
    ensures r.from <= n * n && 0 < n ==> h < 2 * n
  {
    var p := Pow(k);
    ReducingIs(t, n, k, r);
    TimesBelow(n, k, r.times, k);
    PowAdd(k, k);
    PowNext(k);
    if h >= p * BASE {
      MulLess(p * BASE, h, p);
      MulAssoc(p, BASE, p);
      MulAssoc(p, p, BASE);
    }
    if r.from <= n * n && 2 * n <= h && 0 < n {
      MulLess(2 * n, h, p);
      MulLess(n, p, n);
      MulLess(r.times + 1, p, n);
      MulDist(n, r.times, 1);
      MulAssoc(2, n, p);
    }
  }

  /** In place of t the modulus can be taken away. */
  lemma ReducedSafe(t: Bignum, modulus: Bignum)
    requires t.Valid() && modulus.Valid() && t.Trimmed() && modulus.Trimmed() && Apart(t, modulus) && t.Mag() < Pow(modulus.length + 1)
    ensures InPlaceSafe(t, modulus, t)
  {
    hide Val, Pow;
    NotLonger(t.num[..t.length], modulus.length + 1);
  }

  /** With another word than the carry behind the room, the outcome is not congruent. */
  lemma OtherWord(x: int, t0: int, found: Word, n: nat, n0p: int, s: nat)
    requires Cong(x, t0, n) && Cong(x, t0 + (found - 1) * Pow(s), n) && BASE <= n && (n * n0p) % BASE == BASE - 1
    ensures found == 1
  {
    var a :| CongBy(x, t0, n, a);
    var b :| CongBy(x, t0 + (found - 1) * Pow(s), n, b);
    var p := Pow(s);
    MulDist(n, a, -b);
    var z := OddFactor(n, n0p, a - b, found - 1, s);
    MulAssoc(n, z, p);
    EqualFactors(n * z, found - 1, p);
    if z > 0 { MulLess(1, z, n); }
    if z < 0 { MulLess(z, -1, n); }
  }

  /**
   What comes of reducing t0 in a room of s words: it is right unless a carry is lost, and then if
   and only if the memory of the larger room happens to hold the carry. Nothing is said where a
   second carry could be lost.
   */
  ghost predicate ReducedUnlessLost(z: nat, t0: nat, n: nat, k: nat, s: nat, found: Word) {
    OnceOnly(t0, found, n, k, s) ==> (ReducedTo(z, t0, n, k) <==> Leaves(t0, n, k, s) ==> found == 1)
  }

  /**
   t := t / R modulo the modulus, with R the word size to the length of the modulus, for t up to
   the square of the modulus, if no carry leaves the room of t before that grows. From then on
   there is room for every reduction by this modulus.
   */
  method Redc(t: Bignum, modulus: Bignum, n0p: Word)
    requires MontSet(modulus, n0p) && t.Valid() && t.sign == 1 && Apart(t, modulus)
    modifies t, t.num, modulus`length
    ensures MontSet(modulus, n0p) && modulus.length == old(modulus.length) && modulus.Mag() == old(modulus.Mag())
    ensures t.Valid() && t.Trimmed() && t.sign == 1 && (t.num == old(t.num) || fresh(t.num)) && 2 * modulus.length < t.space
    ensures old(t.Mag()) <= modulus.Mag() * modulus.Mag() ==>
              ReducedUnlessLost(t.Mag(), old(t.Mag()), modulus.Mag(), modulus.length, old(t.space), t.found(old(t.space)))
  {
    hide Val, Pow, Two, Cong, Leaves, From, OnceOnly, Underway, InPlaceSafe, ReducedUnlessLost;
    ghost var t0, s, n, k, found := t.Mag(), t.space, modulus.Mag(), modulus.length, t.found(t.space);
    ModulusSize(modulus);
    SizeInRoom(t);
    ghost var r := ClearWords(t, modulus, n0p);
    ghost var cleared := t.Mag();
    AllCleared(cleared, t.space, found, t0, s, n, k, r);
    TwoWords(k);
    BigRightShift(t, 32 * modulus.length, t);
    ghost var h := t.Mag();
    TakeModulus(t, modulus);
    Outcome(t.Mag(), cleared, h, found, t0, s, n, n0p, k, r);
  }

  lemma ModulusSize(modulus: Bignum)
    requires modulus.Valid() && modulus.Trimmed() && 2 <= modulus.length
    ensures BASE <= modulus.Mag() < Pow(modulus.length)
  {
    hide Val;
    NonZero(modulus);
    SizeOf(modulus);
    PowGrows(1, modulus.length - 1);
    assert Pow(1) == BASE;
  }

  lemma SizeInRoom(t: Bignum)
    requires t.Valid()
    ensures t.Mag() < Pow(t.space)
  {
    hide Val, Pow;
    ValBound(t.num[..t.length]);
    PowGrows(t.length, t.space);
  }

  lemma AllCleared(t: nat, space: nat, found: Word, t0: nat, s: nat, n: nat, k: nat, r: Reduction)
    requires Underway(t, space, found, t0, s, n, k, k, r) && 0 < k
    ensures t / Pow(k) == r.high && 2 * k < space && Reducing(t, n, k, r)
    ensures OnceOnly(t0, found, n, k, s) ==> r.from == From(t0, found, n, k, s)
  {
    hide Pow;
    Divided(t, Pow(k), r.high, 0);
  }

  /** t, less the modulus if it is larger. */
  method TakeModulus(t: Bignum, modulus: Bignum)
    requires t.Valid() && t.Trimmed() && t.sign == 1 && modulus.Valid() && modulus.Trimmed() && modulus.sign == 1 && Apart(t, modulus)
    modifies t, t.num, modulus`length
    ensures modulus.Valid() && modulus.Trimmed() && modulus.sign == 1 && modulus.length == old(modulus.length) && modulus.Mag() == old(modulus.Mag())
    ensures t.Valid() && t.Trimmed() && t.sign == 1 && (t.num == old(t.num) || fresh(t.num)) && old(t.space) <= t.space
    ensures old(t.Mag()) <= modulus.Mag() ==> t.Mag() == old(t.Mag())
    ensures modulus.Mag() < old(t.Mag()) < Pow(modulus.length + 1) ==> t.Mag() == old(t.Mag()) - modulus.Mag()
  {
    hide Val, Pow, InPlaceSafe;
    var r := BigCompare(t, modulus, 0);
    if r > 0 {
      if t.Mag() < Pow(modulus.length + 1) { ReducedSafe(t, modulus); }
      BigSubtract(t, modulus, t, 0);
    }
    t.Trim(0);
  }

  lemma Outcome(z: nat, t: nat, h: nat, found: Word, t0: nat, s: nat, n: nat, n0p: Word, k: nat, r: Reduction)
    requires Reducing(t, n, k, r) && h == r.high && (h <= n ==> z == h) && (n < h < Pow(k + 1) ==> z == h - n)
    requires OnceOnly(t0, found, n, k, s) ==> r.from == From(t0, found, n, k, s)
    requires t0 < Pow(s) && n < Pow(k) && BASE <= n && (n * n0p) % BASE == BASE - 1
    ensures t0 <= n * n ==> ReducedUnlessLost(z, t0, n, k, s, found)
  {
    hide Pow, Leaves, Cong, Reducing;
    if t0 <= n * n && OnceOnly(t0, found, n, k, s) {
      FromSmall(t0, found, n, k, s);
      HighBelow(h, t, n, k, r);
      if n < h { LessModulus(z, h, n, Pow(k), r.from); }
      if Leaves(t0, n, k, s) && ReducedTo(z, t0, n, k) { OtherWord(z * Pow(k), t0, found, n, n0p, s); }
    }
  }

  lemma FromSmall(t0: nat, found: Word, n: nat, k: nat, s: nat)
    requires t0 < Pow(s) && t0 <= n * n && n < Pow(k)
    ensures From(t0, found, n, k, s) < (BASE - 1) * Pow(2 * k)
  {
    hide Pow;
    if Leaves(t0, n, k, s) {
      FromBelow(t0, found, n, k, s);
      PowGrows(s, 2 * k);
      MulLess(Pow(s), Pow(2 * k), BASE - 1);
    } else {
      PowAdd(k, k);
      BelowProduct(n, Pow(k), n, Pow(k));
      MulLess(1, BASE - 1, Pow(2 * k));
    }
  }

  lemma LessModulus(t: int, h: int, n: int, p: int, t0: int)
    requires t == h - n && Cong(h * p, t0, n)
    ensures Cong(t * p, t0, n)
  {
    MulDist(p, h, -n);
    CongIs(t * p, h * p, n, -p);
    CongTrans(t * p, h * p, t0, n);
  }

  /**
   The square of the largest residue modulo two words of ones loses a carry in the four words
   it has after the multiplication: reducing it is right only where the memory happens to hold the carry.
   */
  lemma CarryLost()
    ensures var n, t := Pow(2) - 1, (Pow(2) - 2) * (Pow(2) - 2);
            && (n * 1) % BASE == BASE - 1 && t <= n * n && Leaves(t, n, 2, 4)
            && forall z: nat, found: Word :: ReducedUnlessLost(z, t, n, 2, 4, found) ==> (ReducedTo(z, t, n, 2) <==> found == 1)
  {
    hide Pow;
    PowAdd(2, 2);
    PowNext(1);
    PowNext(0);
    PowZero();
    var p := Pow(2);
    assert p == BASE * BASE && Pow(1) == BASE;
    var n, t := p - 1, (p - 2) * (p - 2);
    assert t + n * 4 == p * p && p * p == Pow(4);
    MulAssoc(p, BASE, BASE);
    Divided(p * p, BASE, p * BASE, 0);
    assert TakesOver(t, n, 4, 1, 4);
    Quotient(p - 1, BASE - 1, BASE - 1);
  }
}
