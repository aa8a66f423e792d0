/** Comparing, adding and subtracting stretches of words, with carries as the machine has them. */
module WordSums {
  import opened Words
  import opened LongMult

  /** Stretches that do not meet, or are one and the same. */
  predicate ClearOrSame(x: array<Word>, xo: nat, xn: nat, y: array<Word>, yo: nat, yn: nat) {
    Clear(x, xo, xn, y, yo, yn) || (x == y && xo == yo)
  }

  /** -1, 0 or 1, as a is less than, equal to or greater than b. */
  method CompareLongs(a: array<Word>, ao: nat, b: array<Word>, bo: nat, n: nat) returns (r: int)
    requires ao + n <= a.Length && bo + n <= b.Length
    ensures r < 0 <==> Val(a[ao..ao + n]) < Val(b[bo..bo + n])
    ensures r == 0 <==> Val(a[ao..ao + n]) == Val(b[bo..bo + n])
  {
    hide Val;
    ghost var x, y := a[ao..ao + n], b[bo..bo + n];
    var i: nat := n;
    while i > 0 && a[ao + i - 1] == b[bo + i - 1]
      invariant i <= n && x[i..] == y[i..]
    {
      assert x[i - 1..] == [x[i - 1]] + x[i..] && y[i - 1..] == [y[i - 1]] + y[i..];
      i := i - 1;
    }
    if i == 0 {
      assert x[0..] == x && y[0..] == y;
      return 0;
    }
    if a[ao + i - 1] < b[bo + i - 1] {
      ValLess(x, y, i - 1);
      return -1;
    }
    ValLess(y, x, i - 1);
    return 1;
  }

  method LessThan(a: array<Word>, ao: nat, b: array<Word>, bo: nat, n: nat) returns (less: bool)
    requires 0 < n && ao + n <= a.Length && bo + n <= b.Length
    ensures less <==> Val(a[ao..ao + n]) < Val(b[bo..bo + n])
  {
    ghost var x, y := a[ao..ao + n], b[bo..bo + n];
    if a[ao + n - 1] < b[bo + n - 1] {
      ValLess(x, y, n - 1);
      return true;
    }
    if a[ao + n - 1] > b[bo + n - 1] {
      ValLess(y, x, n - 1);
      return false;
    }
    var r := CompareLongs(a, ao, b, bo, n);
    return r < 0;
  }

  /** x - y + carry in one word, and the new carry, 0 or -1. */
  method SubStep(x: Word, y: Word, carry: int) returns (lo: Word, c: int)
    requires -1 <= carry <= 0
    ensures -1 <= c <= 0 && lo + c * BASE == x - y + carry
  {
    var suml: Word := (x - y) % BASE;
    var sumh := if suml > x then -1 else 0;
    lo := (suml + carry) % BASE;
    c := (if lo > suml then -1 else 0) + sumh;
  }

  method AddStep(x: Word, y: Word, carry: Word) returns (lo: Word, c: Word)
    requires carry <= 1
    ensures c <= 1 && lo + c * BASE == x + y + carry
  {
    var suml: Word := (x + y) % BASE;
    var sumh := if suml < x then 1 else 0;
    lo := (carry + suml) % BASE;
    c := (if lo < suml then 1 else 0) + sumh;
  }

  method Add3Step(x: Word, y: Word, z: Word, carry: Word) returns (lo: Word, c: Word)
    requires carry <= 2
    ensures c <= 2 && lo + c * BASE == x + y + z + carry
  {
    var t: Word := (x + y) % BASE;
    var sumh := if t < x then 1 else 0;
    var suml: Word := (t + carry) % BASE;
    sumh := sumh + (if suml < t then 1 else 0);
    lo := (suml + z) % BASE;
    c := sumh + (if lo < suml then 1 else 0);
  }

  lemma SumOn(v: int, c: int, p: int, s: int, d: int, lo: int, c': int)
    requires v + c * p == s && lo + c' * BASE == d + c
    ensures (v + lo * p) + c' * (p * BASE) == s + d * p
  {
    MulAssoc(c', BASE, p);
    MulDist(p, lo, c' * BASE);
    MulDist(p, d, c);
  }

  lemma SubOn(v: int, c: int, p: int, x: int, y: int, a: int, b: int, lo: int, c': int)
    requires v + c * p == x - y && lo + c' * BASE == a - b + c
    ensures (v + lo * p) + c' * (p * BASE) == (x + a * p) - (y + b * p)
  {
    SumOn(v, c, p, x - y, a - b, lo, c');
    MulDist(p, a - b, b);
  }

  lemma AddOn(v: int, c: int, p: int, x: int, y: int, a: int, b: int, lo: int, c': int)
    requires v + c * p == x + y && lo + c' * BASE == a + b + c
    ensures (v + lo * p) + c' * (p * BASE) == (x + a * p) + (y + b * p)
  {
    SumOn(v, c, p, x + y, a + b, lo, c');
    MulDist(p, a, b);
  }

  lemma Add3On(v: int, c: int, p: int, x: int, y: int, z: int, a: int, b: int, d: int, lo: int, c': int)
    requires v + c * p == x + y + z && lo + c' * BASE == a + b + d + c
    ensures (v + lo * p) + c' * (p * BASE) == (x + a * p) + (y + b * p) + (z + d * p)
  {
    SumOn(v, c, p, x + y + z, a + b + d, lo, c');
    MulDist(p, a + b, d);
    MulDist(p, a, b);
  }

  /** c := u - v, with the borrow left over. */
  method SubWords(c: array<Word>, co: nat, u: array<Word>, uo: nat, v: array<Word>, vo: nat, n: nat) returns (carry: int)
    requires co + n <= c.Length && uo + n <= u.Length && vo + n <= v.Length
    requires ClearOrSame(c, co, n, u, uo, n) && ClearOrSame(c, co, n, v, vo, n)
    modifies c
    ensures -1 <= carry <= 0
    ensures Val(c[co..co + n]) + carry * Pow(n) == old(Val(u[uo..uo + n])) - old(Val(v[vo..vo + n]))
    ensures Kept(old(c[..]), c[..], co, co + n)
  {
    hide Val, Pow;
    ghost var x, y := u[uo..uo + n], v[vo..vo + n];
    PowZero();
    ValEmpty();
    assert c[co..co] == x[..0] == y[..0] == [];
    carry := 0;
    var i := 0;
    while i < n
      invariant i <= n && -1 <= carry <= 0 && Kept(old(c[..]), c[..], co, co + i)
      invariant Val(c[co..co + i]) + carry * Pow(i) == Val(x[..i]) - Val(y[..i])
    {
      ghost var done, c0 := c[co..co + i], carry;
      var a, b := u[uo + i], v[vo + i];
      assert a == x[i] && b == y[i];
      c[co + i], carry := SubStep(a, b, carry);
      assert c[co..co + i + 1] == done + [c[co + i]];
      ValSnoc(done, c[co + i]);
      ValNext(x, i);
      ValNext(y, i);
      PowNext(i);
      SubOn(Val(done), c0, Pow(i), Val(x[..i]), Val(y[..i]), a, b, c[co + i], carry);
      i := i + 1;
    }
    assert x[..n] == x && y[..n] == y;
  }

  /** c := u + v, with the carry left over. */
  method AddWords(c: array<Word>, co: nat, u: array<Word>, uo: nat, v: array<Word>, vo: nat, n: nat) returns (carry: Word)
    requires co + n <= c.Length && uo + n <= u.Length && vo + n <= v.Length
    requires ClearOrSame(c, co, n, u, uo, n) && ClearOrSame(c, co, n, v, vo, n)
    modifies c
    ensures carry <= 1
    ensures Val(c[co..co + n]) + carry * Pow(n) == old(Val(u[uo..uo + n])) + old(Val(v[vo..vo + n]))
    ensures Kept(old(c[..]), c[..], co, co + n)
  {
    hide Val, Pow;
    ghost var x, y := u[uo..uo + n], v[vo..vo + n];
    PowZero();
    ValEmpty();
    assert c[co..co] == x[..0] == y[..0] == [];
    carry := 0;
    var i := 0;
    while i < n
      invariant i <= n && carry <= 1 && Kept(old(c[..]), c[..], co, co + i)
      invariant Val(c[co..co + i]) + carry * Pow(i) == Val(x[..i]) + Val(y[..i])
    {
      ghost var done, c0 := c[co..co + i], carry;
      var a, b := u[uo + i], v[vo + i];
      assert a == x[i] && b == y[i];
      c[co + i], carry := AddStep(a, b, carry);
      assert c[co..co + i + 1] == done + [c[co + i]];
      ValSnoc(done, c[co + i]);
      ValNext(x, i);
      ValNext(y, i);
      PowNext(i);
      AddOn(Val(done), c0, Pow(i), Val(x[..i]), Val(y[..i]), a, b, c[co + i], carry);
      i := i + 1;
    }
    assert x[..n] == x && y[..n] == y;
  }

  /** t := the sum of three stretches of c, with the carry left over. */
  method Add3Words(t: array<Word>, to: nat, c: array<Word>, c0: nat, c1: nat, c2: nat, n: nat) returns (carry: Word)
    requires to + n <= t.Length && c0 + n <= c.Length && c1 + n <= c.Length && c2 + n <= c.Length
    requires Clear(t, to, n, c, c0, n) && Clear(t, to, n, c, c1, n) && Clear(t, to, n, c, c2, n)
    modifies t
    ensures carry <= 2
    ensures Val(t[to..to + n]) + carry * Pow(n) == old(Val(c[c0..c0 + n])) + old(Val(c[c1..c1 + n])) + old(Val(c[c2..c2 + n]))
    ensures Kept(old(t[..]), t[..], to, to + n)
  {
    hide Val, Pow;
    ghost var x, y, z := c[c0..c0 + n], c[c1..c1 + n], c[c2..c2 + n];
    PowZero();
    ValEmpty();
    assert t[to..to] == x[..0] == y[..0] == z[..0] == [];
    carry := 0;
    var i := 0;
    while i < n
      invariant i <= n && carry <= 2 && Kept(old(t[..]), t[..], to, to + i)
      invariant Val(t[to..to + i]) + carry * Pow(i) == Val(x[..i]) + Val(y[..i]) + Val(z[..i])
    {
      ghost var done, k := t[to..to + i], carry;
      var a, b, d := c[c0 + i], c[c1 + i], c[c2 + i];
      assert a == x[i] && b == y[i] && d == z[i];
      t[to + i], carry := Add3Step(b, d, a, carry);
      assert t[to..to + i + 1] == done + [t[to + i]];
      ValSnoc(done, t[to + i]);
      ValNext(x, i);
      ValNext(y, i);
      ValNext(z, i);
      PowNext(i);
      Add3On(Val(done), k, Pow(i), Val(x[..i]), Val(y[..i]), Val(z[..i]), a, b, d, t[to + i], carry);
      i := i + 1;
    }
    assert x[..n] == x && y[..n] == y && z[..n] == z;
  }

  /** c := the distance of x and y; up tells whether x is at least y. */
  method AbsDiff(c: array<Word>, co: nat, x: array<Word>, xo: nat, y: array<Word>, yo: nat, n: nat) returns (up: bool)
    requires 0 < n && co + n <= c.Length && xo + n <= x.Length && yo + n <= y.Length
    requires Clear(c, co, n, x, xo, n) && Clear(c, co, n, y, yo, n)
    modifies c
    ensures var a, b := old(Val(x[xo..xo + n])), old(Val(y[yo..yo + n]));
            up == (a >= b) && Val(c[co..co + n]) == if up then a - b else b - a
    ensures Kept(old(c[..]), c[..], co, co + n)
  {
    hide Val, Pow;
    var less := LessThan(x, xo, y, yo, n);
    up := !less;
    var carry;
    if less {
      carry := SubWords(c, co, y, yo, x, xo, n);
    } else {
      carry := SubWords(c, co, x, xo, y, yo, n);
    }
    ValBound(c[co..co + n]);
    NoBorrow(carry, Pow(n), Val(c[co..co + n]));
  }

  lemma NoBorrow(carry: int, p: int, v: int)
    requires -1 <= carry <= 0 && 0 <= v < p && 0 <= v + carry * p
    ensures carry == 0
  {
  }

  /** c := u + carry over words lo to hi. */
  method CarryWords(c: array<Word>, u: array<Word>, lo: nat, hi: nat, carry: Word) returns (k: Word)
    requires lo <= hi <= c.Length && hi <= u.Length && carry <= 1
    modifies c
    ensures k <= 1 && Val(c[lo..hi]) + k * Pow(hi - lo) == old(Val(u[lo..hi])) + carry
    ensures Kept(old(c[..]), c[..], lo, hi)
  {
    hide Val, Pow;
    ghost var x := u[lo..hi];
    PowZero();
    ValEmpty();
    assert c[lo..lo] == x[..0] == [];
    k := carry;
    var i := lo;
    while i < hi
      invariant lo <= i <= hi && k <= 1 && Kept(old(c[..]), c[..], lo, i)
      invariant Val(c[lo..i]) + k * Pow(i - lo) == Val(x[..i - lo]) + carry
    {
      ghost var done, k0 := c[lo..i], k;
      var a := u[i];
      assert a == x[i - lo];
      c[i] := (k + a) % BASE;
      k := if c[i] < k then 1 else 0;
      assert c[lo..i + 1] == done + [c[i]];
      ValSnoc(done, c[i]);
      ValNext(x, i - lo);
      PowNext(i - lo);
      AddOn(Val(done), k0, Pow(i - lo), Val(x[..i - lo]), carry, a, 0, c[i], k);
      i := i + 1;
    }
    assert x[..hi - lo] == x;
  }

  /**
   c := u - borrow over words lo to hi, in another array: right. In place the comparison that
   is to find a borrow reads the word just written, and a borrow goes no further than one word.
   */
  method BorrowWords(c: array<Word>, u: array<Word>, lo: nat, hi: nat, carry: int) returns (k: int)
    requires lo <= hi <= c.Length && hi <= u.Length && -1 <= carry <= 0
    modifies c
    ensures -1 <= k <= 0
    ensures Val(c[lo..hi]) + k * Pow(hi - lo) ==
              old(Val(u[lo..hi])) + carry + (if c == u && carry == -1 && lo < hi && old(u[lo]) == 0 then BASE else 0)
    ensures c == u && lo < hi ==> k == 0
    ensures Kept(old(c[..]), c[..], lo, hi)
  {
    hide Val, Pow;
    ghost var x := u[lo..hi];
    PowZero();
    ValEmpty();
    assert c[lo..lo] == x[..0] == [];
    k := carry;
    var i := lo;
    while i < hi
      invariant lo <= i <= hi && -1 <= k <= 0 && Kept(old(c[..]), c[..], lo, i)
      invariant c != u ==> Val(c[lo..i]) + k * Pow(i - lo) == Val(x[..i - lo]) + carry
      invariant c == u ==> if i == lo then k == carry else k == 0 && c[lo] == (x[0] + carry) % BASE
      invariant c == u ==> forall j :: lo < j < hi ==> c[j] == old(c[j])
    {
      ghost var done, k0 := c[lo..i], k;
      c[i] := (u[i] + k) % BASE;
      k := if c[i] > u[i] then -1 else 0;
      if c != u {
        assert c[lo..i + 1] == done + [c[i]];
        BorrowOn(done, x, i - lo, k0, carry, c[i], k);
      }
      i := i + 1;
    }
    assert x[..hi - lo] == x;
    if c == u && lo < hi {
      assert c[lo..hi][1..] == x[1..];
      InPlace(x, c[lo..hi], carry, k);
    } else if c == u {
      assert c[lo..hi] == x;
    }
  }

  lemma BorrowOn(done: seq<Word>, x: seq<Word>, i: nat, k0: int, carry: int, lo: Word, k: int)
    requires i < |x| && |done| == i && Val(done) + k0 * Pow(i) == Val(x[..i]) + carry && lo + k * BASE == x[i] + k0
    ensures Val(done + [lo]) + k * Pow(i + 1) == Val(x[..i + 1]) + carry
  {
    hide Val, Pow;
    ValSnoc(done, lo);
    ValNext(x, i);
    PowNext(i);
    AddOn(Val(done), k0, Pow(i), Val(x[..i]), carry, x[i], 0, lo, k);
  }

  lemma InPlace(x: seq<Word>, z: seq<Word>, carry: int, k: int)
    requires |x| == |z| > 0 && z[1..] == x[1..] && -1 <= carry <= 0 && z[0] == (x[0] + carry) % BASE && k == 0
    ensures Val(z) + k * Pow(|x|) == Val(x) + carry + if carry == -1 && x[0] == 0 then BASE else 0
  {
    hide Val, Pow;
    FirstWord(x, z);
    NoCarry(k, Pow(|x|), 1);
  }

  lemma FirstWord(s: seq<Word>, t: seq<Word>)
    requires |s| == |t| > 0 && s[1..] == t[1..]
    ensures Val(t) + s[0] == Val(s) + t[0]
  {
    hide Val;
    ValSplit(s, 1);
    ValSplit(t, 1);
    ValOne(s[..1]);
    ValOne(t[..1]);
  }

  /** c := a - b; in place of a, a borrow that would have to go further than one word is lost. */
  method SubNumbers(c: array<Word>, a: array<Word>, la: nat, b: array<Word>, lb: nat)
    requires lb <= la <= a.Length && lb <= b.Length && la <= c.Length && a != b && Val(b[..lb]) <= Val(a[..la])
    modifies c
    ensures Val(c[..la]) == old(Val(a[..la])) - old(Val(b[..lb])) +
              if c == a && lb < la && old(a[lb]) == 0 && old(Val(a[..lb])) < old(Val(b[..lb])) then Pow(lb + 1) else 0
    ensures Kept(old(c[..]), c[..], 0, la)
  {
    hide Val, Pow;
    ghost var x, y := a[..la], b[..lb];
    assert a[0..lb] == x[..lb] && b[0..lb] == y && a[..lb] == x[..lb];
    var carry := SubWords(c, 0, a, 0, b, 0, lb);
    ghost var k1, low := carry, c[0..lb];
    assert a[lb..la] == x[lb..];
    carry := BorrowWords(c, a, lb, la, carry);
    ghost var z := c[..la];
    assert z[..lb] == low && z[lb..] == c[lb..la];
    Subtracted(x, y, z, k1, carry, c == a);
    assert carry == 0;
  }

  lemma Subtracted(x: seq<Word>, y: seq<Word>, z: seq<Word>, k1: int, k2: int, inPlace: bool)
    requires |z| == |x| && |y| <= |x| && Val(y) <= Val(x) && -1 <= k1 <= 0 && -1 <= k2 <= 0
    requires Val(z[..|y|]) + k1 * Pow(|y|) == Val(x[..|y|]) - Val(y)
    requires var lost := inPlace && k1 == -1 && |y| < |x| && x[|y|] == 0;
             Val(z[|y|..]) + k2 * Pow(|x| - |y|) == Val(x[|y|..]) + k1 + (if lost then BASE else 0) && (lost ==> k2 == 0)
    ensures k2 == 0
    ensures var lost := inPlace && |y| < |x| && x[|y|] == 0 && Val(x[..|y|]) < Val(y);
            Val(z) == Val(x) - Val(y) + if lost then Pow(|y| + 1) else 0
  {
    hide Val, Pow;
    var n, m := |y|, |x| - |y|;
    ValSplit(x, n);
    ValSplit(z, n);
    ValBound(x[..n]);
    ValBound(y);
    ValBound(z[..n]);
    ValBound(z);
    PowAdd(n, m);
    PowNext(n);
    BorrowIs(Val(z[..n]), k1, Pow(n), Val(x[..n]) - Val(y));
    BorrowTotal(Val(z[..n]), Val(z[n..]), Val(z), Val(x[..n]), Val(x[n..]), Val(x), Val(y), k1, k2, Pow(n), Pow(m), Pow(|x|),
                inPlace && k1 == -1 && n < |x| && x[n] == 0);
  }

  lemma BorrowTotal(zl: int, zh: int, z: int, xl: int, xh: int, x: int, y: int, k1: int, k2: int, p: int, q: int, pq: int, lost: bool)
    requires z == zl + p * zh && x == xl + p * xh && pq == p * q && 0 <= z < pq && y <= x && -1 <= k2 <= 0
    requires zl + k1 * p == xl - y && zh + k2 * q == xh + k1 + (if lost then BASE else 0) && (lost ==> k2 == 0)
    ensures k2 == 0 && z == x - y + if lost then p * BASE else 0
  {
    BorrowSum(zl, zh, xl, xh, y, k1, k2, p, q, if lost then BASE else 0);
    if lost {
      assert z + 0 * pq == x - y + p * BASE;
    } else {
      assert z + k2 * pq == x - y + p * 0;
      NoBorrow(k2, pq, z);
    }
  }

  lemma BorrowIs(v: int, k: int, p: int, d: int)
    requires v + k * p == d && -1 <= k <= 0 && 0 <= v < p
    ensures k == -1 <==> d < 0
  {
  }

  lemma BorrowSum(zl: int, zh: int, xl: int, xh: int, y: int, k1: int, k2: int, p: int, q: int, adj: int)
    requires zl + k1 * p == xl - y && zh + k2 * q == xh + k1 + adj
    ensures (zl + p * zh) + k2 * (p * q) == (xl + p * xh) - y + p * adj
  {
    MulDist(p, zh, k2 * q);
    MulDist(p, xh, k1 + adj);
    MulDist(p, k1, adj);
    MulAssoc(k2, p, q);
    MulAssoc(p, k2, q);
  }

  /** c := a + b over the words of a, with the carry left over. */
  method AddNumbers(c: array<Word>, a: array<Word>, la: nat, b: array<Word>, lb: nat) returns (carry: Word)
    requires lb <= la <= a.Length && lb <= b.Length && la <= c.Length
    modifies c
    ensures carry <= 1 && Val(c[..la]) + carry * Pow(la) == old(Val(a[..la])) + old(Val(b[..lb]))
    ensures Kept(old(c[..]), c[..], 0, la)
  {
    hide Val, Pow;
    ghost var x, y := a[..la], b[..lb];
    assert a[0..lb] == x[..lb] && b[0..lb] == y;
    carry := AddWords(c, 0, a, 0, b, 0, lb);
    ghost var k1, low := carry, c[0..lb];
    assert a[lb..la] == x[lb..];
    carry := CarryWords(c, a, lb, la, carry);
    ghost var z := c[..la];
    assert z[..lb] == low && z[lb..] == c[lb..la];
    ValSplit(x, lb);
    ValSplit(z, lb);
    PowAdd(lb, la - lb);
    CarrySum(Val(z[..lb]), Val(z[lb..]), Val(x[..lb]), Val(x[lb..]), Val(y), k1, carry, Pow(lb), Pow(la - lb));
  }

  lemma CarrySum(zl: int, zh: int, xl: int, xh: int, y: int, k1: int, k2: int, p: int, q: int)
    requires zl + k1 * p == xl + y && zh + k2 * q == xh + k1
    ensures (zl + p * zh) + k2 * (p * q) == (xl + p * xh) + y
  {
    MulDist(p, zh, k2 * q);
    MulDist(p, xh, k1);
    MulAssoc(k2, p, q);
    MulAssoc(p, k2, q);
  }
}
