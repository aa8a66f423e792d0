/** Shifting numbers by words and by bits. */
module Shifts {
  import opened Words
  import opened LongMult
  import opened Bignums

  /** 2 to the n. */
  function Two(n: nat): (p: nat)
    ensures p > 0
  {
    if n == 0 then 1 else 2 * Two(n - 1)
  }

  lemma {:induction false} TwoAdd(m: nat, n: nat)
    ensures Two(m + n) == Two(m) * Two(n)
  {
    if n > 0 {
      TwoAdd(m, n - 1);
      MulAssoc(Two(m), 2, Two(n - 1));
      MulAssoc(2, Two(m), Two(n - 1));
    }
  }

  lemma TwoWord()
    ensures Two(32) == BASE
  {
    assert Two(8) == 256;
    TwoAdd(8, 8);
    TwoAdd(16, 16);
  }

  lemma {:induction false} TwoWords(k: nat)
    ensures Two(32 * k) == Pow(k)
  {
    if k > 0 {
      TwoWords(k - 1);
      TwoAdd(32 * (k - 1), 32);
      TwoWord();
    }
  }

  /** The two factors a word is split by when it is shifted by n bits. */
  lemma BitFactors(n: nat)
    requires 0 < n < 32
    ensures Two(n) * Two(32 - n) == BASE && 1 < Two(n) < BASE && 1 < Two(32 - n) < BASE
  {
    hide Two;
    TwoAdd(n, 32 - n);
    TwoWord();
    TwoEven(n);
    TwoEven(32 - n);
    Factor(Two(n), Two(32 - n));
  }

  lemma TwoEven(n: nat)
    requires 0 < n
    ensures Two(n) % 2 == 0
  {
  }

  lemma Factor(p: int, q: int)
    requires p * q == BASE && 0 < p && 0 < q && p % 2 == 0 && q % 2 == 0
    ensures 1 < p < BASE && 1 < q < BASE
  {
    MulLess(2, p, q);
    MulLess(2, q, p);
  }

  // ----- words shifted by bits

  /** x * p + c in two words, for p * q the word size. */
  lemma LeftStep(x: Word, p: int, q: int, c: int)
    requires p * q == BASE && 0 < p && 0 < q && 0 <= c < p
    ensures (x * p) % BASE + c < BASE && 0 <= x / q < p && (x * p) % BASE + c + (x / q) * BASE == x * p + c && 0 <= (x * p) % BASE
  {
    var h, l := x / q, x % q;
    assert x == h * q + l;
    MulDist(p, h * q, l);
    assert (h * q) * p == h * BASE by { MulAssoc(h, q, p); }
    MulLess(l + 1, q, p);
    MulDist(p, l, 1);
    MulLess(0, l, p);
    assert x * p == h * BASE + l * p;
    assert 0 <= l * p < BASE;
    Quotient(x * p, h, l * p);
    if h >= p { MulLess(p, h, q); }
  }

  lemma Quotient(x: int, h: int, l: int)
    requires x == h * BASE + l && 0 <= l < BASE
    ensures x % BASE == l && x / BASE == h
  {
  }

  /** b := a * p over la words, with the carry left over; b may be a. */
  method ShiftUp(b: array<Word>, a: array<Word>, la: nat, p: nat, q: nat) returns (c: Word)
    requires la <= a.Length && la <= b.Length && p * q == BASE && 1 < p && 1 < q
    modifies b
    ensures Val(b[..la]) + c * Pow(la) == old(Val(a[..la])) * p && c < p
    ensures Kept(old(b[..]), b[..], 0, la)
  {
    hide Val, Pow;
    ghost var x := a[..la];
    PowZero();
    ValEmpty();
    assert b[..0] == x[..0] == [];
    c := 0;
    var i := 0;
    while i < la
      invariant i <= la && c < p && Kept(old(b[..]), b[..], 0, i)
      invariant Val(b[..i]) + c * Pow(i) == Val(x[..i]) * p
    {
      ghost var done, c0 := b[..i], c;
      var el := a[i];
      assert el == x[i];
      LeftStep(el, p, q, c);
      b[i] := (el * p) % BASE + c;
      c := el / q;
      assert b[..i + 1] == done + [b[i]];
      ValSnoc(done, b[i]);
      ValNext(x, i);
      PowNext(i);
      ShiftSum(Val(done), c0, Pow(i), Val(x[..i]), p, el, b[i], c);
      i := i + 1;
    }
    assert x[..la] == x;
  }

  lemma ShiftSum(v: int, c: int, w: int, x: int, p: int, el: int, lo: int, hi: int)
    requires v + c * w == x * p && lo + hi * BASE == el * p + c
    ensures (v + lo * w) + hi * (w * BASE) == (x + el * w) * p
  {
    MulAssoc(hi, BASE, w);
    MulDist(w, lo, hi * BASE);
    MulDist(w, el * p, c);
    MulDist(p, x, el * w);
    MulAssoc(el, p, w);
    MulAssoc(el, w, p);
  }

  /** A word and the bits shifted out of the one above it. */
  lemma RightStep(x: Word, p: int, q: int, r: int)
    requires p * q == BASE && 0 < p && 0 < q && 0 <= r < p
    ensures x / p + r * q < BASE && 0 <= x / p && 0 <= r * q && (x * q) % BASE == (x % p) * q && 0 <= (x % p) * q < BASE
    ensures p * (x / p + r * q) + x % p == x + r * BASE
  {
    var h, l := x / p, x % p;
    assert x == h * p + l;
    MulAssoc(p, r, q);
    MulAssoc(r, p, q);
    MulDist(p, h, r * q);
    MulLess(0, r, q);
    MulLess(r + 1, p, q);
    MulDist(q, r, 1);
    if h >= q { MulLess(q, h, p); }
    MulLess(l + 1, p, q);
    MulDist(q, l, 1);
    MulLess(0, l, q);
    MulDist(q, h * p, l);
    assert (h * p) * q == h * BASE by { MulAssoc(h, p, q); }
    Quotient(x * q, h, l * q);
  }

  /** b := a / p over la words; b may be a. */
  method ShiftDown(b: array<Word>, a: array<Word>, la: nat, p: nat, q: nat)
    requires la <= a.Length && la <= b.Length && p * q == BASE && 1 < p && 1 < q
    modifies b
    ensures Val(b[..la]) == old(Val(a[..la])) / p
    ensures Kept(old(b[..]), b[..], 0, la)
  {
    hide Val, Pow;
    ghost var x := a[..la];
    ValEmpty();
    assert b[la..la] == x[la..] == [];
    var c: Word := 0;
    ghost var r := 0;
    var i: nat := la;
    while i > 0
      invariant i <= la && Kept(old(b[..]), b[..], i, la) && 0 <= r < p && c == r * q
      invariant Val(x[i..]) == p * Val(b[i..la]) + r
    {
      i := i - 1;
      ghost var done := b[i + 1..la];
      var el := a[i];
      assert el == x[i];
      RightStep(el, p, q, r);
      b[i] := el / p + c;
      c := (el * q) % BASE;
      assert b[i..la] == [b[i]] + done && x[i..] == [el] + x[i + 1..];
      ValPush(b[i], done);
      ValPush(el, x[i + 1..]);
      PushSum(Val(x[i + 1..]), Val(done), p, r, el, b[i], el % p);
      r := el % p;
    }
    assert x[0..] == x && b[0..la] == b[..la];
    Divided(Val(x), p, Val(b[..la]), r);
  }

  lemma ValPush(x: Word, s: seq<Word>)
    ensures Val([x] + s) == x + BASE * Val(s)
  {
    ValConcat([x], s);
    ValOne([x]);
    assert Pow(1) == BASE;
  }

  lemma PushSum(x: int, v: int, p: int, r: int, el: int, lo: int, r': int)
    requires x == p * v + r && p * lo + r' == el + r * BASE
    ensures el + BASE * x == p * (lo + BASE * v) + r'
  {
    MulDist(p, lo, BASE * v);
    MulAssoc(p, BASE, v);
    MulAssoc(BASE, p, v);
  }

  lemma Divided(x: int, p: int, v: int, r: int)
    requires x == p * v + r && 0 <= r < p
    ensures x / p == v && x % p == r
  {
    var q := x / p;
    assert x == p * q + x % p;
    if q < v {
      MulLess(q + 1, v, p);
      MulDist(p, q, 1);
    }
    if q > v {
      MulLess(v + 1, q, p);
      MulDist(p, v, 1);
    }
  }

  // ----- numbers

  /** b := a shifted up by words; b may be a. */
  method LeftShiftWords(a: Bignum, b: Bignum, nwords: nat)
    requires a.Valid() && b.Valid() && SameOrApart(a, b)
    modifies b, b.num
    ensures b.Valid() && b.Trimmed() && b.sign == old(b.sign) && (b.num == old(b.num) || fresh(b.num))
    ensures b.Mag() == old(a.Mag()) * Pow(nwords) && b.length <= old(a.length) + nwords <= b.space
    ensures old(b.space) <= b.space && (old(a.Mag()) != 0 && old(a.Trimmed()) ==> b.length == old(a.length) + nwords)
  {
    hide Val, Pow;
    ghost var x := a.num[..a.length];
    b.Guarantee(a.length + nwords);
    assert a.num[..a.length] == x;
    ShiftWithRoom(a, b, nwords);
  }

  method ShiftWithRoom(a: Bignum, b: Bignum, nwords: nat)
    requires a.Valid() && b.Valid() && SameOrApart(a, b) && a.length + nwords <= b.space
    modifies b`length, b.num
    ensures b.Valid() && b.Trimmed() && b.Mag() == old(a.Mag()) * Pow(nwords) && b.length <= old(a.length) + nwords
    ensures old(a.Mag()) != 0 && old(a.Trimmed()) ==> b.length == old(a.length) + nwords
  {
    hide Val, Pow;
    var la := a.length;
    ghost var x := a.num[..la];
    MoveUp(b.num, a.num, la, nwords);
    b.length := la + nwords;
    ghost var y := b.num[..la + nwords];
    MovedUp(x, y, nwords);
    b.Trim(la + nwords);
    if x[la - 1] != 0 { KeptLength(b, y, la + nwords); } else { TopZero(x); }
  }

  lemma MovedUp(x: seq<Word>, y: seq<Word>, nwords: nat)
    requires nwords <= |y| && y[nwords..] == x && forall k :: 0 <= k < nwords ==> y[k] == 0
    ensures Val(y) == Val(x) * Pow(nwords)
  {
    hide Val, Pow;
    ValSplit(y, nwords);
    ValZeros(y[..nwords]);
  }

  lemma TopZero(x: seq<Word>)
    requires x != [] && x[|x| - 1] == 0
    ensures |x| == 1 ==> Val(x) == 0
  {
    if |x| == 1 { ValOne(x); }
  }

  lemma KeptLength(b: Bignum, y: seq<Word>, n: nat)
    requires b.Valid() && 0 < n == |y| <= b.space && b.num[..n] == y && y[n - 1] != 0 && b.length <= n && b.ZeroTo(n)
    ensures b.length == n
  {
    assert b.num[n - 1] == y[n - 1];
  }

  method MoveUp(b: array<Word>, a: array<Word>, la: nat, nwords: nat)
    requires la <= a.Length && la + nwords <= b.Length
    modifies b
    ensures b[nwords..la + nwords] == old(a[..la]) && forall k :: 0 <= k < nwords ==> b[k] == 0
    ensures Kept(old(b[..]), b[..], 0, la + nwords)
  {
    var i: nat := la;
    while i > 0
      invariant i <= la && forall k :: i <= k < la ==> b[k + nwords] == old(a[k])
      invariant Kept(old(b[..]), b[..], i + nwords, la + nwords)
    {
      i := i - 1;
      b[i + nwords] := a[i];
    }
    i := nwords;
    while i > 0
      invariant i <= nwords && forall k :: 0 <= k < la ==> b[k + nwords] == old(a[k])
      invariant forall k :: i <= k < nwords ==> b[k] == 0
      invariant Kept(old(b[..]), b[..], i, la + nwords)
    {
      i := i - 1;
      b[i] := 0;
    }
  }

  /** b := a shifted up by 0 < n < 32 bits; b may be a. */
  method LeftShiftBits(a: Bignum, b: Bignum, n: nat)
    requires a.Valid() && b.Valid() && SameOrApart(a, b) && 0 < n < 32
    modifies b, b.num
    ensures b.Valid() && b.Trimmed() && b.sign == old(b.sign) && (b.num == old(b.num) || fresh(b.num))
    ensures b.Mag() == old(a.Mag()) * Two(n) && b.length <= old(a.length) + 1 <= b.space
    ensures old(b.space) <= b.space
  {
    hide Val, Pow, Two;
    ghost var x := a.num[..a.length];
    var la := a.length;
    b.Guarantee(la + 1);
    assert a.num[..la] == x;
    BitFactors(n);
    var c := ShiftUp(b.num, a.num, la, Two(n), Two(32 - n));
    ghost var y := b.num[..la];
    b.num[la] := c;
    b.length := la + 1;
    assert b.num[..la + 1] == y + [c];
    ValSnoc(y, c);
    b.Trim(0);
  }

  /** b := a shifted up by n bits; b may be a for fewer than 32. */
  method BigLeftShift(a: Bignum, n: nat, b: Bignum)
    requires a.Valid() && b.Valid() && SameOrApart(a, b)
    requires a.Trimmed()
    modifies b, b.num
    ensures b.Valid() && b.Trimmed() && (a == b || n != 0 ==> b.sign == old(b.sign)) && (b.num == old(b.num) || fresh(b.num))
    ensures b.Mag() == old(a.Mag()) * Two(n) && b.length <= old(a.length) + n / 32 + 1
    ensures old(b.space) <= b.space
  {
    hide Val, Pow, Two;
    TwoZero();
    if n == 0 {
      if a != b { BigCopy(a, b); }
      return;
    }
    var i := n / 32;
    TwoAdd(32 * i, n % 32);
    TwoWords(i);
    ghost var m := a.Mag();
    b.Guarantee(a.length + i + 1);
    assert a.Mag() == m;
    if i > 0 {
      LeftShiftWords(a, b, i);
      if n % 32 != 0 {
        LeftShiftBits(b, b, n % 32);
        MulAssoc(m, Pow(i), Two(n % 32));
      }
    } else {
      LeftShiftBits(a, b, n % 32);
    }
    b.Trim(0);
  }

  lemma TwoZero()
    ensures Two(0) == 1 && Pow(0) == 1
  {
  }

  method MoveDown(b: array<Word>, a: array<Word>, la: nat, nwords: nat)
    requires nwords <= la <= a.Length && la - nwords <= b.Length
    modifies b
    ensures b[..la - nwords] == old(a[nwords..la])
    ensures Kept(old(b[..]), b[..], 0, la - nwords)
  {
    var j := 0;
    while j < la - nwords
      invariant j <= la - nwords && forall k :: 0 <= k < j ==> b[k] == old(a[k + nwords])
      invariant Kept(old(b[..]), b[..], 0, j)
    {
      b[j] := a[j + nwords];
      j := j + 1;
    }
  }

  /** b := a shifted down by words; b may be a, which may then reach behind its room. */
  method RightShiftWords(a: Bignum, b: Bignum, nwords: nat)
    requires a.Held() && b.Held() && SameOrApart(a, b) && (a != b ==> a.Valid() && b.Valid() && nwords <= a.length)
    modifies b, b.num
    ensures b.Held() && (old(a.Valid()) || 0 < nwords ==> b.Valid()) && old(b.space) <= b.space && (b.num == old(b.num) || fresh(b.num)) && b.Mag() == old(a.Mag()) / Pow(nwords)
    ensures a == b ==> b.num == old(b.num) && b.space == old(b.space)
    ensures b.length <= old(a.length) && (nwords < old(a.length) ==> b.length == old(a.length) - nwords && b.sign == old(a.sign))
    ensures a == b && nwords >= old(a.length) ==> b.sign == 1 && b.length == 1
    ensures a == b && old(a.Trimmed()) ==> b.Trimmed()
    ensures forall z: nat :: a == b && old(a.length) <= z && old(a.ZeroTo(z)) ==> forall i :: old(a.length) <= i < z ==> b.num[i] == 0
  {
    hide Val, Pow;
    ghost var x := a.num[..a.length];
    var la := a.length;
    ValBound(x);
    if la <= nwords {
      PowGrows(la, nwords);
      Divided(Val(x), Pow(nwords), 0, Val(x));
      if a == b {
        a.Reset(0);
      } else {
        b.length := 1;
        b.num[0] := 0;
        ValOne(b.num[..1]);
      }
      return;
    }
    ValSplit(x, nwords);
    ValBound(x[..nwords]);
    Divided(Val(x), Pow(nwords), Val(x[nwords..]), Val(x[..nwords]));
    assert x[nwords..] == a.num[nwords..la];
    if a == b {
      a.length := la - nwords;
      MoveDown(a.num, a.num, la, nwords);
    } else {
      b.Guarantee(la - nwords);
      b.length := la - nwords;
      b.sign := a.sign;
      MoveDown(b.num, a.num, la, nwords);
    }
  }

  /** b := b shifted down by 0 < n < 32 bits. */
  method RightShiftBits(b: Bignum, n: nat, ghost z: nat)
    requires b.Held() && 0 < n < 32
    modifies b`length, b.num
    ensures b.Held() && (old(b.Valid()) ==> b.Valid()) && b.Trimmed() && b.Mag() == old(b.Mag()) / Two(n) && b.length <= old(b.length)
    ensures old(b.length) <= z && old(b.ZeroTo(z)) ==> b.ZeroTo(z)
  {
    hide Val, Pow, Two;
    BitFactors(n);
    ShiftDown(b.num, b.num, b.length, Two(n), Two(32 - n));
    b.Trim(z);
  }

  /** b := a shifted down by n bits; b may be a, which may then reach behind its room. */
  method BigRightShift(a: Bignum, n: nat, b: Bignum)
    requires a.Held() && b.Held() && SameOrApart(a, b) && (a != b ==> a.Valid() && b.Valid() && n / 32 <= a.length)
    modifies b, b.num
    ensures b.Held() && (old(a.Valid()) || 32 <= n ==> b.Valid()) && old(b.space) <= b.space && b.Trimmed() && (b.num == old(b.num) || fresh(b.num)) && b.Mag() == old(a.Mag()) / Two(n)
    ensures a == b ==> b.num == old(b.num) && b.space == old(b.space)
    ensures b.length <= old(a.length) && (n / 32 < old(a.length) ==> b.sign == old(a.sign))
    ensures a == b && old(a.length) <= n / 32 ==> b.sign == 1
  {
    hide Val, Pow, Two;
    TwoZero();
    ghost var m := a.Mag();
    var i := n / 32;
    TwoAdd(32 * i, n % 32);
    TwoWords(i);
    RightShiftWords(a, b, i);
    if n % 32 != 0 {
      RightShiftBits(b, n % 32, 0);
      DivTwice(m, Pow(i), Two(n % 32));
    }
    b.Trim(0);
  }

  lemma DivTwice(x: nat, p: nat, q: nat)
    requires 0 < p && 0 < q
    ensures 0 < p * q && x / p / q == x / (p * q)
  {
    var u, r := x / p, x % p;
    var v, s := u / q, u % q;
    assert x == p * u + r && u == q * v + s;
    MulDist(p, q * v, s);
    MulAssoc(p, q, v);
    MulLess(s + 1, q, p);
    MulDist(p, s, 1);
    MulLess(0, s, p);
    MulLess(1, q, p);
    Divided(x, p * q, v, p * s + r);
  }
}
