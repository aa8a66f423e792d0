/** Schoolbook products and squares of numbers of n words. */
module CoreMult {
  import opened Words
  import opened LongMult

  method ZeroWords(c: array<Word>, co: nat, n: nat)
    requires co + n <= c.Length
    modifies c
    ensures Val(c[co..co + n]) == 0 && (forall k :: co <= k < co + n ==> c[k] == 0)
    ensures Kept(old(c[..]), c[..], co, co + n)
  {
    var i := 0;
    while i < n
      invariant i <= n && Kept(old(c[..]), c[..], co, co + i)
      invariant forall k :: co <= k < co + i ==> c[k] == 0
    {
      c[co + i] := 0;
      i := i + 1;
    }
    ValZeros(c[co..co + n]);
  }

  /** c += m * b, with the carry as one more word. */
  method AddRow(c: array<Word>, co: nat, m: Word, b: array<Word>, bo: nat, n: nat)
    requires co + n < c.Length && bo + n <= b.Length && Clear(c, co, n + 1, b, bo, n)
    modifies c
    ensures Val(c[co..co + n + 1]) == old(Val(c[co..co + n])) + m * old(Val(b[bo..bo + n]))
    ensures Kept(old(c[..]), c[..], co, co + n + 1)
  {
    hide Val, Pow;
    var carry := LMult(c, co, m, b, bo, n);
    ghost var sum := c[co..co + n];
    c[co + n] := carry;
    assert c[co..co + n + 1] == sum + [carry];
    ValSnoc(sum, carry);
  }

  /** With x times b in c, adds the row of the next word m of the first factor. */
  method NextProductRow(c: array<Word>, co: nat, m: Word, b: array<Word>, bo: nat, n: nat, i: nat, ghost x: seq<Word>)
    requires co + n + i < c.Length && bo + n <= b.Length && Clear(c, co, n + i + 1, b, bo, n) && |x| == i
    requires Val(c[co..co + n + i]) == Val(x) * Val(b[bo..bo + n])
    modifies c
    ensures Val(c[co..co + n + i + 1]) == Val(x + [m]) * old(Val(b[bo..bo + n]))
    ensures Kept(old(c[..]), c[..], co, co + n + i + 1)
  {
    hide Val, Pow;
    ghost var low, high, y := c[co..co + i], c[co + i..co + n + i], b[bo..bo + n];
    assert c[co..co + n + i] == low + high;
    AddRow(c, co + i, m, b, bo, n);
    ghost var high' := c[co + i..co + n + i + 1];
    assert c[co..co + n + i + 1] == low + high';
    RowAdded(low, high, high', x, m, y);
  }

  /** c := a * b, for a and b of n words. */
  method BigMultN(a: array<Word>, ao: nat, b: array<Word>, bo: nat, c: array<Word>, co: nat, n: nat)
    requires 0 < n && ao + n <= a.Length && bo + n <= b.Length && co + 2 * n <= c.Length
    requires Clear(c, co, 2 * n, a, ao, n) && Clear(c, co, 2 * n, b, bo, n)
    modifies c
    ensures Val(c[co..co + 2 * n]) == old(Val(a[ao..ao + n])) * old(Val(b[bo..bo + n]))
    ensures Kept(old(c[..]), c[..], co, co + 2 * n)
  {
    hide Val, Pow;
    ghost var x, y := a[ao..ao + n], b[bo..bo + n];
    ZeroWords(c, co, n);
    var i := 0;
    ValEmpty();
    assert x[..0] == [];
    while i < n
      invariant i <= n && Kept(old(c[..]), c[..], co, co + n + i)
      invariant Val(c[co..co + n + i]) == Val(x[..i]) * Val(y)
    {
      KeptAt(old(a[..]), a[..], old(c[..]), c[..], a == c, co, co + n + i, ao, n);
      KeptAt(old(b[..]), b[..], old(c[..]), c[..], b == c, co, co + n + i, bo, n);
      var m := a[ao + i];
      assert x[..i + 1] == x[..i] + [m];
      NextProductRow(c, co, m, b, bo, n, i, x[..i]);
      i := i + 1;
    }
    assert x[..n] == x;
  }

  lemma RowAdded(low: seq<Word>, high: seq<Word>, high': seq<Word>, x: seq<Word>, m: Word, y: seq<Word>)
    requires |low| == |x| && Val(high') == Val(high) + m * Val(y) && Val(low + high) == Val(x) * Val(y)
    ensures Val(low + high') == Val(x + [m]) * Val(y)
  {
    hide Val, Pow;
    ValConcat(low, high);
    ValConcat(low, high');
    ValSnoc(x, m);
    AddedAt(Val(low), Val(high), Val(high'), Pow(|low|), Val(x), m, Val(y), Val(low + high), Val(low + high'), Val(x + [m]));
  }

  lemma AddedAt(l: int, h: int, h': int, p: int, x: int, m: int, y: int, c: int, c': int, x': int)
    requires h' == h + m * y && c == l + p * h && c' == l + p * h' && x' == x + m * p && c == x * y
    ensures c' == x' * y
  {
    MulDist(p, h, m * y);
    MulDist(y, x, m * p);
    MulAssoc(p, m, y);
  }

  // ----- squaring

  /** The products of word r with the words above it, for the first k words. */
  ghost function Cross(s: seq<Word>, k: nat): int
    requires k <= |s|
  {
    if k == 0 then 0 else Cross(s, k - 1) + s[k - 1] * Val(s[k..]) * Pow(2 * k - 1)
  }

  /** A square is its diagonal, twice the cross products, and the square of what is left. */
  lemma {:induction false} SquareSplit(s: seq<Word>, k: nat)
    requires k <= |s|
    ensures Val(s) * Val(s) == Diag(s[..k]) + 2 * Cross(s, k) + Pow(2 * k) * (Val(s[k..]) * Val(s[k..]))
  {
    if k == 0 {
      assert s[..0] == [] && s[0..] == s;
    } else {
      SquareSplit(s, k - 1);
      DiagNext(s, k - 1);
      var x, t := s[k - 1], s[k..];
      ValCons(s[k - 1..]);
      assert s[k - 1..][1..] == t;
      PowNext(2 * k - 2);
      PowNext(2 * k - 1);
      SquareStep(x, Val(t), Pow(2 * k - 2));
    }
  }

  lemma ValCons(s: seq<Word>)
    requires s != []
    ensures Val(s) == s[0] + BASE * Val(s[1..])
  {
    ValSplit(s, 1);
    ValOne(s[..1]);
    assert Pow(1) == BASE;
  }

  lemma SquareStep(x: int, t: int, p: int)
    ensures p * ((x + BASE * t) * (x + BASE * t)) == x * x * p + 2 * (x * t * (p * BASE)) + p * BASE * BASE * (t * t)
  {
    calc {
      (x + BASE * t) * (x + BASE * t);
      { MulDist(x + BASE * t, x, BASE * t); MulDist(x, x, BASE * t); MulDist(BASE * t, x, BASE * t); }
      x * x + x * (BASE * t) + (BASE * t) * x + (BASE * t) * (BASE * t);
      { Commute(x, t); }
      x * x + 2 * (x * t) * BASE + (t * t) * (BASE * BASE);
    }
    MulDist(p, x * x + 2 * (x * t) * BASE, (t * t) * (BASE * BASE));
    MulDist(p, x * x, 2 * (x * t) * BASE);
    Scale(p, x * t, t * t);
  }

  lemma Commute(x: int, t: int)
    ensures x * (BASE * t) == (x * t) * BASE && (BASE * t) * x == (x * t) * BASE && (BASE * t) * (BASE * t) == (t * t) * (BASE * BASE)
  {
    MulAssoc(x, t, BASE);
    MulAssoc(t, x, BASE);
    MulAssoc(BASE * t, BASE, t);
    MulAssoc(t, t, BASE);
  }

  lemma Scale(p: int, u: int, v: int)
    ensures p * (2 * u * BASE) == 2 * (u * (p * BASE)) && p * (v * (BASE * BASE)) == p * BASE * BASE * v
  {
    MulAssoc(p, u, 2 * BASE);
    MulAssoc(u, p, BASE);
    MulAssoc(p, v, BASE * BASE);
    MulAssoc(v, p, BASE * BASE);
  }

  lemma {:induction false} CrossGrows(s: seq<Word>, k: nat)
    requires k <= |s|
    ensures Diag(s) + 2 * Cross(s, k) <= Val(s) * Val(s)
    decreases |s| - k
  {
    hide Val, Diag, Cross, Pow;
    if k == |s| {
      SquareSplit(s, k);
      assert s[..k] == s && s[k..] == [];
      ValEmpty();
    } else {
      CrossGrows(s, k + 1);
      NextRow(s, k);
      MulLess(0, s[k], Val(s[k + 1..]));
      MulLess(0, s[k] * Val(s[k + 1..]), Pow(2 * k + 1));
    }
  }

  /** c := a * a, for a of n words: the diagonal, then row by row twice the cross products. */
  method BigSquareN(a: array<Word>, ao: nat, c: array<Word>, co: nat, n: nat)
    requires 0 < n && ao + n <= a.Length && co + 2 * n <= c.Length && Clear(c, co, 2 * n, a, ao, n)
    modifies c
    ensures Val(c[co..co + 2 * n]) == old(Val(a[ao..ao + n])) * old(Val(a[ao..ao + n]))
    ensures Kept(old(c[..]), c[..], co, co + 2 * n)
  {
    hide Val, Pow, Diag, Cross;
    ghost var x := a[ao..ao + n];
    BuildDiag(c, co, a, ao, n);
    NoRows(x);
    if n == 1 {
      OneRow(x);
      return;
    }
    var i, j := 0, 1;
    while i < n - 1
      invariant i <= n - 1 && j == i + 1 && Kept(old(c[..]), c[..], co, co + 2 * n)
      invariant Val(c[co..co + 2 * n]) == Diag(x) + 2 * Cross(x, i)
    {
      ghost var low, high := c[co..co + j + i], c[co + j + i..co + 2 * n];
      assert c[co..co + 2 * n] == low + high;
      KeptAt(old(a[..]), a[..], old(c[..]), c[..], a == c, co, co + 2 * n, ao, n);
      var m := a[ao + i];
      assert a[ao + j..ao + n] == a[ao..ao + n][j..];
      RowFits(x, i, low, high);
      SquareInnerLoop(c, co + j + i, m, a, ao, j, n, n - i + n - j);
      assert c[co..co + 2 * n] == low + c[co + j + i..co + 2 * n];
      RowDone(x, i, low, high, c[co + j + i..co + 2 * n]);
      i, j := i + 1, j + 1;
    }
    LastRow(x);
  }

  lemma NoRows(x: seq<Word>)
    ensures Cross(x, 0) == 0
  {
  }

  lemma OneRow(x: seq<Word>)
    requires |x| == 1
    ensures Diag(x) == Val(x) * Val(x)
  {
    LastRow(x);
  }

  lemma LastRow(x: seq<Word>)
    requires x != []
    ensures Diag(x) + 2 * Cross(x, |x| - 1) == Val(x) * Val(x)
  {
    hide Val, Diag, Cross, Pow;
    var n := |x|;
    SquareSplit(x, n);
    assert x[..n] == x && x[n..] == [];
    ValEmpty();
    NoneAbove(x);
  }

  lemma NoneAbove(x: seq<Word>)
    requires x != []
    ensures Cross(x, |x|) == Cross(x, |x| - 1)
  {
    assert x[|x|..] == [];
  }

  lemma RowFits(x: seq<Word>, i: nat, low: seq<Word>, high: seq<Word>)
    requires i + 1 < |x| && |low| == 2 * i + 1 && |high| == 2 * |x| - 2 * i - 1 && Val(low + high) == Diag(x) + 2 * Cross(x, i)
    ensures Val(high) + 2 * x[i] * Val(x[i + 1..]) < Pow(|high|)
  {
    hide Val, Diag, Cross, Pow;
    var n := |x|;
    CrossGrows(x, i + 1);
    NextRow(x, i);
    ValBound(x);
    PowAdd(n, n);
    PowAdd(|low|, |high|);
    ValConcat(low, high);
    MulAssoc(2, x[i], Val(x[i + 1..]));
    RowBelow(Val(low), Val(high), Pow(|low|), x[i] * Val(x[i + 1..]), Val(x), Pow(n), Pow(|high|));
  }

  lemma NextRow(x: seq<Word>, i: nat)
    requires i < |x|
    ensures Cross(x, i + 1) == Cross(x, i) + (x[i] * Val(x[i + 1..])) * Pow(2 * i + 1)
  {
  }

  lemma RowBelow(low: nat, high: int, p: nat, u: int, x: nat, q: nat, r: int)
    requires low + p * high + 2 * (u * p) <= x * x && x < q && p * r == q * q && 0 < p
    ensures high + 2 * u < r
  {
    MulLess(x, q, x);
    MulLessStrict(x, q, q);
    MulDist(p, high, 2 * u);
    TwiceOut(p, u);
    Cancel(p, high + 2 * u, r);
  }

  lemma TwiceOut(p: int, u: int)
    ensures 2 * (u * p) == p * (2 * u)
  {
  }

  lemma MulLessStrict(x: int, y: int, z: int)
    requires x < y && 0 < z
    ensures x * z < y * z && z * x < z * y
  {
  }

  lemma RowDone(x: seq<Word>, i: nat, low: seq<Word>, high: seq<Word>, high': seq<Word>)
    requires i + 1 < |x| && |low| == 2 * i + 1 && Val(low + high) == Diag(x) + 2 * Cross(x, i)
    requires Val(high') == Val(high) + 2 * x[i] * Val(x[i + 1..])
    ensures Val(low + high') == Diag(x) + 2 * Cross(x, i + 1)
  {
    hide Val, Diag, Cross, Pow;
    NextRow(x, i);
    ValConcat(low, high);
    ValConcat(low, high');
    var p, add := Pow(|low|), x[i] * Val(x[i + 1..]);
    MulAssoc(2, x[i], Val(x[i + 1..]));
    MulDist(p, Val(high), 2 * add);
    TwiceOut(p, add);
  }
}
