/**
 The multiplication the rest of the library uses: Karatsuba on the largest power of two that
 fits, the remaining words by rows, squares by way of the diagonal.
 */
module FastMult {
  import opened Words
  import opened LongMult
  import opened CoreMult
  import opened Karatsuba
  import opened Bignums
  import opened BigMult

  const RECURSIONCUTOFF := 32
  const SQRECCUTOFF := 16

  lemma {:induction false} DoubledUp(n: nat, c: nat)
    requires Doubled(n, c) && n != c
    ensures Doubled(n, 2 * c)
    decreases n
  {
    if n / 2 == c {
      assert Doubled(2 * c, 2 * c);
    } else {
      DoubledUp(n / 2, c);
    }
  }

  /** Where the search for the power of two stands. */
  predicate Towards(len: nat, cutoff: nat) {
    if len < cutoff then Doubled(cutoff, len) else Doubled(len, cutoff)
  }

  lemma DoubleNext(len: nat, cutoff: nat)
    requires 0 < len && Towards(len, cutoff)
    ensures Towards(2 * len, cutoff) && (len < cutoff ==> 2 * len <= cutoff)
  {
    if len < cutoff {
      DoubledUp(cutoff, len);
      if 2 * len == cutoff { assert Doubled(cutoff, cutoff); }
    } else {
      assert Doubled(2 * len, cutoff);
    }
  }

  /** The power of two with len <= n < 2 * len; the cutoff doubled, if it is not below the cutoff. */
  method GetRecurseLen(n: nat, ghost cutoff: nat) returns (len: nat)
    requires 2 <= cutoff <= n && Doubled(cutoff, 2)
    ensures len <= n < 2 * len && Doubled(len, cutoff)
  {
    hide Doubled;
    len := 2;
    StartsAtTwo(cutoff);
    while !(n >= len && n < 2 * len)
      invariant 2 <= len <= n && Towards(len, cutoff)
      decreases n - len
    {
      DoubleNext(len, cutoff);
      len := len * 2;
    }
    if len < cutoff { DoubleNext(len, cutoff); }
  }

  lemma StartsAtTwo(cutoff: nat)
    requires 2 <= cutoff && Doubled(cutoff, 2)
    ensures Towards(2, cutoff)
  {
  }

  /** c := a * a. */
  method BigSquare(a: Bignum, c: Bignum)
    requires a.Valid() && c.Valid() && Apart(a, c)
    modifies c, c.num
    ensures c.Valid() && c.Trimmed() && c.sign == 1 && c.Mag() == a.Mag() * a.Mag() && (c.num == old(c.num) || fresh(c.num))
    ensures c.space == Max(old(c.space), 2 * a.length) && (c.space == 2 * a.length || c.SpareWord())
  {
    hide Val, Pow;
    c.Guarantee(2 * a.length);
    c.Reset(0);
    BigSquareN(a.num, 0, c.num, 0, a.length);
    c.length := 2 * a.length;
    assert a.num[0..a.length] == a.num[..a.length] && c.num[0..2 * a.length] == c.num[..2 * a.length];
    c.Trim(0);
    if c.space > 2 * a.length { ProductRoom(a, a, c); }
  }

  // ----- the words beyond the power of two

  /** The product of the low n words, and the words n to k of x by y. */
  ghost function CleanA(x: seq<Word>, y: seq<Word>, n: nat, k: nat): int
    requires n <= k <= |x| && n <= |y|
  {
    Val(x[..n]) * Val(y[..n]) + (Val(x[..k]) - Val(x[..n])) * Val(y)
  }

  /** All of x by y but that only words up to k of y count for the low n words of x. */
  ghost function CleanB(x: seq<Word>, y: seq<Word>, n: nat, k: nat): int
    requires n <= |x| && n <= k <= |y|
  {
    CleanA(x, y, n, |x|) + Val(x[..n]) * (Val(y[..k]) - Val(y[..n]))
  }

  lemma CleanAStep(x: seq<Word>, y: seq<Word>, n: nat, k: nat)
    requires n <= k < |x| && n <= |y|
    ensures CleanA(x, y, n, k + 1) == CleanA(x, y, n, k) + Multiple(x[k], Val(y), k)
  {
    hide Val, Pow;
    ValNext(x, k);
    MulDist(Val(y), Val(x[..k]) - Val(x[..n]), x[k] * Pow(k));
    Reorder(x[k], Pow(k), Val(y));
  }

  lemma CleanBStep(x: seq<Word>, y: seq<Word>, n: nat, k: nat)
    requires n <= |x| && n <= k < |y|
    ensures CleanB(x, y, n, k + 1) == CleanB(x, y, n, k) + Multiple(y[k], Val(x[..n]), k)
  {
    hide Val, Pow, CleanA;
    ValNext(y, k);
    MulDist(Val(x[..n]), Val(y[..k]) - Val(y[..n]), y[k] * Pow(k));
    Reorder(y[k], Pow(k), Val(x[..n]));
  }

  lemma Reorder(m: int, p: int, v: int)
    ensures (m * p) * v == m * v * p && v * (m * p) == m * v * p
  {
    MulAssoc(m, p, v);
    MulAssoc(m, v, p);
  }

  lemma CleanEnds(x: seq<Word>, y: seq<Word>, n: nat)
    requires n <= |x| && n <= |y|
    ensures CleanA(x, y, n, n) == Val(x[..n]) * Val(y[..n])
    ensures CleanB(x, y, n, n) == CleanA(x, y, n, |x|)
    ensures CleanB(x, y, n, |y|) == Val(x) * Val(y)
    ensures Val(x) * Val(y) < Pow(|x| + |y|)
  {
    hide Val, Pow;
    assert x[..|x|] == x && y[..|y|] == y;
    Telescoped(Val(x), Val(y), Val(x[..n]), Val(y[..n]));
    ValBound(x);
    ValBound(y);
    PowAdd(|x|, |y|);
    BelowProduct(Val(x), Pow(|x|), Val(y), Pow(|y|));
  }

  lemma Telescoped(x: int, y: int, x0: int, y0: int)
    ensures x0 * y0 + (x - x0) * y + x0 * (y - y0) == x * y
  {
    MulDist(y, x, -x0);
    MulDist(x0, y, -y0);
  }

  /** Every stage stays below the product. */
  lemma {:induction false} CleanBelow(x: seq<Word>, y: seq<Word>, n: nat, k: nat)
    requires n <= |x| && n <= k <= |y|
    ensures CleanB(x, y, n, k) <= Val(x) * Val(y)
    decreases |y| - k
  {
    hide CleanA, CleanB, Val;
    CleanEnds(x, y, n);
    if k < |y| {
      CleanBelow(x, y, n, k + 1);
      CleanBStep(x, y, n, k);
    }
  }

  lemma {:induction false} CleanABelow(x: seq<Word>, y: seq<Word>, n: nat, k: nat)
    requires n <= k <= |x| && n <= |y|
    ensures CleanA(x, y, n, k) <= Val(x) * Val(y)
    decreases |x| - k
  {
    hide CleanA, CleanB, Val;
    CleanEnds(x, y, n);
    if k < |x| {
      CleanABelow(x, y, n, k + 1);
      CleanAStep(x, y, n, k);
    } else {
      CleanBelow(x, y, n, n);
    }
  }

  /** Adds the rows of b for the words of a from n on. */
  method CleanUpper(a: Bignum, b: Bignum, c: Bignum, n: nat, ghost x: seq<Word>, ghost y: seq<Word>)
    requires a.Valid() && b.Valid() && c.Valid() && Apart(a, c) && Apart(b, c) && n <= a.length && n <= b.length && c.Trimmed()
    requires x == a.num[..a.length] && y == b.num[..b.length] && a.length + b.length <= c.space
    requires c.Mag() == CleanA(x, y, n, n)
    modifies c, c.num
    ensures c.Valid() && c.Trimmed() && (c.num == old(c.num) || fresh(c.num)) && old(c.space) <= c.space
    ensures c.Mag() == CleanA(x, y, n, |x|) && (n < a.length ==> a.length + b.length < c.space)
  {
    hide Val, Pow, Multiple, CleanA, Grown, SumFits;
    var k := n;
    while k < a.length
      invariant n <= k <= a.length && c.Valid() && c.Trimmed() && (c.num == old(c.num) || fresh(c.num)) && old(c.space) <= c.space
      invariant c.Mag() == CleanA(x, y, n, k) && (n < k ==> k + b.length < c.space)
    {
      var m := a.num[k];
      CleanAStep(x, y, n, k);
      CleanABelow(x, y, n, k + 1);
      CleanEnds(x, y, n);
      GrownIs(c);
      NumTypeBigMult(b, m, c, k);
      PowGrows(|x| + |y|, c.space);
      k := k + 1;
    }
  }

  /** Adds the rows of the low n words of a for the words of b from n on. */
  method CleanLower(a: Bignum, b: Bignum, c: Bignum, n: nat, blen: nat, ghost x: seq<Word>, ghost y: seq<Word>)
    requires a.Valid() && b.Valid() && c.Valid() && Apart(a, c) && Apart(b, c) && n == a.length <= |x| && n <= |y| && c.Trimmed()
    requires x[..n] == a.num[..n] && blen <= b.num.Length && y == b.num[..blen] && |x| + |y| <= c.space
    requires c.Mag() == CleanB(x, y, n, n)
    modifies c, c.num
    ensures c.Valid() && c.Trimmed() && (c.num == old(c.num) || fresh(c.num)) && old(c.space) <= c.space
    ensures c.Mag() == CleanB(x, y, n, |y|) && (n < blen ==> n + blen < c.space)
  {
    hide Val, Pow, Multiple, CleanB, Grown, SumFits;
    var k := n;
    while k < blen
      invariant n <= k <= blen && c.Valid() && c.Trimmed() && (c.num == old(c.num) || fresh(c.num)) && old(c.space) <= c.space
      invariant c.Mag() == CleanB(x, y, n, k) && (n < k ==> n + k < c.space)
    {
      var m := b.num[k];
      CleanBStep(x, y, n, k);
      CleanBelow(x, y, n, k + 1);
      CleanEnds(x, y, n);
      GrownIs(c);
      NumTypeBigMult(a, m, c, k);
      PowGrows(|x| + |y|, c.space);
      k := k + 1;
    }
  }

  /** Completes the product of the low n words to the product of a and b; a is cut to n words for a while. */
  method CleanMult(a: Bignum, b: Bignum, c: Bignum, n: nat)
    requires a.Valid() && b.Valid() && c.Valid() && SameOrApart(a, b) && Apart(a, c) && Apart(b, c) && c.Trimmed()
    requires 1 <= n <= a.length && n <= b.length && a.length + b.length <= c.space
    requires c.Mag() == Val(a.num[..n]) * Val(b.num[..n])
    modifies c, c.num, a`length
    ensures c.Valid() && c.Trimmed() && (c.num == old(c.num) || fresh(c.num)) && a.length == old(a.length)
    ensures c.Mag() == a.Mag() * b.Mag() && old(c.space) <= c.space
    ensures n < a.length || n < b.length ==> a.length + b.length < c.space
  {
    hide Val, Pow, CleanA, CleanB;
    ghost var x, y := a.num[..a.length], b.num[..b.length];
    assert x[..n] == a.num[..n] && y[..n] == b.num[..n];
    CleanEnds(x, y, n);
    var alen, blen := a.length, b.length;
    CleanUpper(a, b, c, n, x, y);
    a.length := n;
    CleanLower(a, b, c, n, blen, x, y);
    a.length := alen;
  }

  /** c := a * b on magnitudes. */
  method FastMultiply(a: Bignum, b: Bignum, c: Bignum)
    requires a.Valid() && b.Valid() && c.Valid() && Apart(a, b) && Apart(a, c) && Apart(b, c)
    modifies c, c.num, a`length
    ensures c.Valid() && c.Trimmed() && (c.num == old(c.num) || fresh(c.num)) && a.length == old(a.length)
    ensures c.Mag() == a.Mag() * b.Mag() && old(c.space) <= c.space && (c.Mag() == 0 || a.length + b.length <= c.space)
    ensures c.SpareWord() || (64 <= a.length == b.length && c.space == a.length + b.length)
  {
    hide Val, Pow;
    var alen, blen := a.length, b.length;
    if alen <= RECURSIONCUTOFF || blen <= RECURSIONCUTOFF || alen < 2 * blen / 3 || blen < 2 * alen / 3 {
      LBigMult(a, b, c);
      ValueMag(a, b, c);
      return;
    }
    c.Guarantee(alen + blen);
    if alen > blen { alen := blen; }
    CutoffDoubled();
    var n := GetRecurseLen(alen, RECURSIONCUTOFF);
    LowProduct(a, b, c, n);
    if a.length != n || b.length != n {
      CleanMult(a, b, c, n);
    }
    if c.space > a.length + b.length { ProductRoom(a, b, c); }
    PastCutoff(n);
  }

  lemma CutoffDoubled()
    ensures Doubled(RECURSIONCUTOFF, 2) && Doubled(SQRECCUTOFF, 2)
  {
    assert Doubled(4, 2) && Doubled(8, 2) && Doubled(16, 2) && Doubled(32, 2);
  }

  lemma PastCutoff(n: nat)
    requires Doubled(n, RECURSIONCUTOFF)
    ensures n > RECURSIONCUTOFF ==> 64 <= n
  {
  }

  lemma ValueMag(a: Bignum, b: Bignum, c: Bignum)
    requires a.Valid() && b.Valid() && c.Valid() && c.Value() == a.Value() * b.Value()
    ensures c.Mag() == a.Mag() * b.Mag()
  {
    hide Val;
    Magnitudes(a.sign, b.sign, c.sign, a.Mag(), b.Mag(), c.Mag());
  }

  lemma Magnitudes(s: int, t: int, u: int, x: nat, y: nat, z: nat)
    requires (s == 1 || s == -1) && (t == 1 || t == -1) && (u == 1 || u == -1)
    requires (if u == 1 then z else -(z as int)) == (if s == 1 then x else -(x as int)) * (if t == 1 then y else -(y as int))
    ensures z == x * y
  {
    MulLess(0, x, y);
  }

  /** The product of the low n words of a and b. */
  method LowProduct(a: Bignum, b: Bignum, c: Bignum, n: nat)
    requires a.Valid() && b.Valid() && c.Valid() && Apart(a, b) && Apart(a, c) && Apart(b, c)
    requires Doubled(n, RECURSIONCUTOFF) && 1 <= n <= a.length && n <= b.length && a.length + b.length <= c.space
    modifies c, c.num
    ensures c.Valid() && c.Trimmed() && c.num == old(c.num) && c.space == old(c.space)
    ensures c.Mag() == Val(a.num[..n]) * Val(b.num[..n])
  {
    hide Val, Pow;
    var tmp := new Word[2 * n];
    RecursiveMultiply(a.num, 0, b.num, 0, c.num, 0, tmp, 0, n, RECURSIONCUTOFF);
    assert a.num[0..n] == a.num[..n] && b.num[0..n] == b.num[..n] && c.num[0..2 * n] == c.num[..2 * n];
    c.length := 2 * n;
    c.Trim(0);
  }

  method LowSquare(a: Bignum, c: Bignum, n: nat)
    requires a.Valid() && c.Valid() && Apart(a, c)
    requires Doubled(n, SQRECCUTOFF) && 1 <= n <= a.length && 2 * a.length <= c.space
    modifies c, c.num
    ensures c.Valid() && c.Trimmed() && c.num == old(c.num) && c.space == old(c.space)
    ensures c.Mag() == Val(a.num[..n]) * Val(a.num[..n])
  {
    hide Val, Pow;
    var tmp := new Word[2 * n];
    RecursiveSquare(a.num, 0, c.num, 0, tmp, 0, n, SQRECCUTOFF);
    assert a.num[0..n] == a.num[..n] && c.num[0..2 * n] == c.num[..2 * n];
    c.length := 2 * n;
    c.Trim(0);
  }

  /** c := a * a on magnitudes. */
  method FastSquare(a: Bignum, c: Bignum)
    requires a.Valid() && c.Valid() && Apart(a, c)
    modifies c, c.num, a`length
    ensures c.Valid() && c.Trimmed() && (c.num == old(c.num) || fresh(c.num)) && a.length == old(a.length)
    ensures c.Mag() == a.Mag() * a.Mag() && Max(old(c.space), 2 * a.length) <= c.space
    ensures c.SpareWord() || c.space == 2 * a.length
  {
    hide Val, Pow;
    if a.length <= SQRECCUTOFF {
      BigSquare(a, c);
      return;
    }
    c.Guarantee(2 * a.length);
    CutoffDoubled();
    var n := GetRecurseLen(a.length, SQRECCUTOFF);
    LowSquare(a, c, n);
    if a.length != n {
      CleanMult(a, a, c, n);
    }
    if c.space > 2 * a.length { ProductRoom(a, a, c); }
  }

  /**
   result := a * b, exactly. A word of its room stays free unless the factors are one number, or
   of one length of at least 64 words, and the room is just that of the product.
   */
  method BigMultiply(a: Bignum, b: Bignum, result: Bignum)
    requires a.Valid() && b.Valid() && result.Valid() && SameOrApart(a, b) && Apart(a, result) && Apart(b, result)
    modifies result, result.num, a`length
    ensures result.Valid() && result.Trimmed() && (result.num == old(result.num) || fresh(result.num)) && a.length == old(a.length)
    ensures result.Value() == a.Value() * b.Value() && result.Mag() == a.Mag() * b.Mag() && result.sign == a.sign * b.sign
    ensures old(result.space) <= result.space && (result.Mag() == 0 || a.length + b.length <= result.space)
    ensures result.SpareWord() || ((a == b || 64 <= a.length == b.length) && result.space == a.length + b.length)
  {
    hide Val, Pow;
    if a == b {
      FastSquare(a, result);
      result.sign := 1;
    } else {
      FastMultiply(a, b, result);
      result.sign := a.sign * b.sign;
    }
    ProductValue(a, b, result);
  }
}
