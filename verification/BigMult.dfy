/**
 Products of whole numbers: adding a multiple at an offset, schoolbook products, Karatsuba
 products completed for operands that are not a power of two long.
 */
module BigMult {
  import opened Words
  import opened LongMult
  import opened CoreMult
  import opened WordSums
  import opened Karatsuba
  import opened Bignums

  /** m * v, offset words up. */
  function Multiple(m: Word, v: nat, offset: nat): nat {
    MulLess(0, m, v);
    MulLess(0, m * v, Pow(offset));
    m * v * Pow(offset)
  }

  /** The first w words of c += m * a, offset words up; the carry out of them is returned. */
  method AddMultiple(c: array<Word>, w: nat, offset: nat, m: Word, a: array<Word>, la: nat) returns (carry: Word)
    requires a != c && offset + la <= w <= c.Length && la <= a.Length
    modifies c
    ensures Val(c[..w]) + carry * Pow(w) == old(Val(c[..w])) + Multiple(m, Val(a[..la]), offset)
    ensures Kept(old(c[..]), c[..], offset, w)
  {
    hide Val, Pow;
    var e := offset + la;
    ghost var x := c[..w];
    assert x[..e][..offset] == c[..offset] && x[..e][offset..] == c[offset..e] && x[e..] == c[e..w];
    assert a[0..la] == a[..la];
    carry := LMult(c, offset, m, a, 0, la);
    ghost var k1, mid := carry, c[offset..e];
    assert c[e..w] == x[e..];
    carry := CarryUp(c, e, w - e, carry, w - e);
    ghost var z := c[..w];
    assert z[..e][..offset] == x[..e][..offset] && z[..e][offset..] == mid && z[e..] == c[e..w];
    ValSplit(x, e);
    ValSplit(x[..e], offset);
    ValSplit(z, e);
    ValSplit(z[..e], offset);
    PowAdd(offset, la);
    PowAdd(e, w - e);
    Spread(Val(x[..e][..offset]), Val(x[..e][offset..]), Val(x[e..]), Val(mid), Val(z[e..]), k1, carry, m * Val(a[..la]),
           Pow(offset), Pow(la), Pow(e), Pow(w - e), Pow(w), Val(x[..e]), Val(x), Val(z[..e]), Val(z));
  }

  lemma Spread(low: int, xm: int, xh: int, zm: int, zh: int, k1: int, k2: int, add: int, p: int, q: int, pq: int, r: int, pqr: int,
               xe: int, x: int, ze: int, z: int)
    requires xe == low + p * xm && x == xe + pq * xh && ze == low + p * zm && z == ze + pq * zh
    requires pq == p * q && pqr == pq * r && zm + k1 * q == xm + add && zh + k2 * r == xh + k1
    ensures z + k2 * pqr == x + add * p
  {
    MulDist(p, zm, k1 * q);
    MulDist(p, xm, add);
    MulAssoc(p, k1, q);
    MulAssoc(k1, p, q);
    MulDist(pq, zh, k2 * r);
    MulDist(pq, xh, k1);
    MulAssoc(pq, k2, r);
    MulAssoc(k2, pq, r);
  }

  /**
   What c is once it has room for e words and two more: itself, but that the word behind its
   room, if it reaches into that, is lost when the room grows, and another found there.
   */
  ghost function Grown(c: Bignum, e: nat): nat
    requires c.Held()
    reads c, c.num
  {
    if c.Valid() || e + 2 <= c.space then c.Mag() else Val(c.num[..c.space]) + c.found(c.space) * Pow(c.space)
  }

  /** The sum has room, and the word behind it. */
  ghost predicate SumFits(c: Bignum, e: nat, add: nat)
    requires c.Held()
    reads c, c.num
  {
    c.Valid() || c.space < e + 2 || c.Mag() + add < Pow(c.space + 1)
  }

  method MakeRoom(c: Bignum, e: nat, ghost add: nat)
    requires c.Held() && SumFits(c, e, add) && add < Pow(e + 1)
    modifies c`space, c`num
    ensures c.Held() && c.space == Max(old(c.space), e + 2) && (c.num == old(c.num) || fresh(c.num))
    ensures c.Mag() == old(Grown(c, e)) && c.Mag() + add < Pow(c.space + 1)
  {
    hide Val, Pow;
    ghost var low, s := c.num[..c.space], c.space;
    c.Guarantee(e + 2);
    if c.length == s + 1 {
      assert c.num[..s + 1] == low + [c.num[s]];
      ValSnoc(low, c.num[s]);
    }
    ValBound(c.num[..c.length]);
    PowNext(c.space);
    PowGrows(e + 1, c.space);
    PowGrows(c.length, if s < e + 2 || old(c.Valid()) then c.space else c.length);
    if e + 2 <= s { assert c.num[..c.length] == old(c.num[..c.length]); }
  }

  lemma MultipleBelow(m: Word, v: nat, la: nat, offset: nat)
    requires v < Pow(la)
    ensures Multiple(m, v, offset) < Pow(la + offset + 1)
  {
    hide Pow;
    MulLess(m, BASE - 1, v);
    MulLess(0, m, v);
    PowAdd(la, offset);
    PowNext(la + offset);
    MulLess(m * v, (BASE - 1) * v, Pow(offset));
    MulAssoc(BASE - 1, v, Pow(offset));
    MulLess(v, Pow(la), Pow(offset));
  }

  /**
   c += m * a, offset words up. The sum lies in its room unless it is too large for it: then its
   carry is in the word behind, and lost when the room next grows.
   */
  method NumTypeBigMult(a: Bignum, m: Word, c: Bignum, offset: nat)
    requires a.Valid() && c.Held() && Apart(a, c)
    requires SumFits(c, a.length + offset, Multiple(m, a.Mag(), offset))
    modifies c, c.num
    ensures c.Held() && c.Trimmed() && c.sign == old(c.sign) && (c.num == old(c.num) || fresh(c.num))
    ensures c.Mag() == old(Grown(c, a.length + offset)) + Multiple(m, a.Mag(), offset)
    ensures c.space == Max(old(c.space), a.length + offset + 2) && c.ZeroTo(a.length + offset)
    ensures c.Valid() <==> c.Mag() < Pow(c.space)
  {
    hide Val, Pow, Multiple, Grown, SumFits;
    var e := a.length + offset;
    ValBound(a.num[..a.length]);
    MultipleBelow(m, a.Mag(), a.length, offset);
    MakeRoom(c, e, Multiple(m, a.Mag(), offset));
    ghost var total := c.Mag() + Multiple(m, a.Mag(), offset);
    var w := c.length;
    if w < e { w := e; }
    Extend(c, e);
    var carry := AddMultiple(c.num, w, offset, m, a.num, a.length);
    StoreCarry(c, w, carry, total, e);
    InRoom(c);
  }

  /** A trimmed number lies in its room just when it is not too large for it. */
  lemma InRoom(c: Bignum)
    requires c.Held() && c.Trimmed()
    ensures c.Valid() <==> c.Mag() < Pow(c.space)
  {
    hide Val, Pow;
    ValBound(c.num[..c.length]);
    if c.Valid() {
      PowGrows(c.length, c.space);
    } else {
      ValTop(c.num[..c.length]);
    }
  }

  /** Makes the first w words of c, and a carry out of them, the number c. */
  method StoreCarry(c: Bignum, w: nat, carry: Word, ghost total: nat, ghost z: nat)
    requires c.Held() && z <= w && z <= c.space && 1 <= w <= c.num.Length && Val(c.num[..w]) + carry * Pow(w) == total < Pow(c.num.Length)
    modifies c`length, c.num
    ensures c.Held() && c.Trimmed() && c.Mag() == total && c.ZeroTo(z)
  {
    hide Val, Pow;
    Fits(c.num[..w], carry, total, c.num.Length, w);
    c.length := w;
    if carry != 0 {
      ghost var sum := c.num[..w];
      c.num[w] := carry;
      c.length := w + 1;
      assert c.num[..w + 1] == sum + [carry];
      ValSnoc(sum, carry);
    } else {
      NoCarry(carry, Pow(w), 0);
    }
    c.Trim(z);
  }

  /** Clears the words from the length to e, and the one behind, if the number is shorter than that. */
  method Extend(c: Bignum, e: nat)
    requires c.Held() && e + 2 <= c.space
    modifies c.num
    ensures Val(c.num[..Max(c.length, e)]) == old(Val(c.num[..c.length]))
  {
    if c.length < e {
      var i := c.length;
      while i <= e
        invariant c.length <= i <= e + 1 && c.num[..c.length] == old(c.num[..c.length])
        invariant forall k :: c.length <= k < i ==> c.num[k] == 0
        modifies c.num
      {
        c.num[i] := 0;
        i := i + 1;
      }
      ValTrim(c.num[..e], c.length);
      assert c.num[..e][..c.length] == c.num[..c.length];
    }
  }

  lemma Fits(s: seq<Word>, carry: nat, total: nat, room: nat, w: nat)
    requires |s| == w <= room && Val(s) + carry * Pow(w) == total < Pow(room)
    ensures carry != 0 ==> w < room
  {
    if carry != 0 && w == room { MulLess(1, carry, Pow(w)); }
  }

  // ----- schoolbook

  lemma RowRoom(a: Bignum, la: nat, m: Word, s: seq<Word>, i: nat, c: nat)
    requires a.Valid() && a.length == la && i < |s| && m == s[i] && c == a.Mag() * Val(s[..i])
    ensures c + Multiple(m, a.Mag(), i) == a.Mag() * Val(s[..i + 1]) < Pow(la + i + 1)
  {
    hide Pow;
    ValNext(s, i);
    Regrouped(m, a.Mag(), Pow(i), Val(s[..i]));
    ValBound(a.num[..la]);
    ValBound(s[..i + 1]);
    PowAdd(la, i + 1);
    BelowProduct(a.Mag(), Pow(la), Val(s[..i + 1]), Pow(i + 1));
  }

  lemma Regrouped(m: int, a: int, p: int, v: int)
    ensures a * v + m * a * p == a * (v + m * p)
  {
    MulDist(a, v, m * p);
    MulAssoc(a, m, p);
  }

  lemma BelowProduct(x: int, p: int, y: int, q: int)
    requires 0 <= x < p && 0 <= y < q
    ensures 0 <= x * y < p * q
  {
    MulLess(0, x, y);
    MulLess(x, p, y);
    MulLessStrict(y, q, p);
  }

  /** c := a * b, word by word of b. */
  method LBigMult(a: Bignum, b: Bignum, c: Bignum)
    requires a.Valid() && b.Valid() && c.Valid() && Apart(a, b) && Apart(a, c) && Apart(b, c)
    modifies c, c.num
    ensures c.Valid() && c.Trimmed() && c.Value() == a.Value() * b.Value() && (c.num == old(c.num) || fresh(c.num))
    ensures old(c.space) <= c.space && c.SpareWord() && (c.Mag() == 0 || a.length + b.length < c.space)
  {
    hide Val, Pow;
    c.Reset(0);
    var za := a.IsZero();
    var zb := b.IsZero();
    if !za && !zb {
      RowProduct(a, b, c);
    } else {
      ZeroProduct(a.Mag(), b.Mag());
    }
    c.Trim(0);
    SpareProduct(a, b, c);
    ProductValue(a, b, c);
  }

  method RowProduct(a: Bignum, b: Bignum, c: Bignum)
    requires a.Valid() && b.Valid() && c.Valid() && Apart(a, c) && Apart(b, c) && c.Trimmed() && c.Mag() == 0
    modifies c, c.num
    ensures c.Valid() && c.Mag() == a.Mag() * b.Mag() && c.sign == a.sign * b.sign && (c.num == old(c.num) || fresh(c.num))
    ensures old(c.space) <= c.space && a.length + b.length < c.space
  {
    hide Val, Pow;
    c.Guarantee(a.length + b.length);
    AddRows(a, b, c);
    c.sign := a.sign * b.sign;
    SignedProduct(a.sign, b.sign, 0, 0);
  }

  lemma SpareProduct(a: Bignum, b: Bignum, c: Bignum)
    requires a.Valid() && b.Valid() && c.Valid() && c.Mag() == a.Mag() * b.Mag() && (c.Mag() == 0 || a.length + b.length < c.space)
    ensures c.SpareWord()
  {
    hide Pow, Val;
    if c.Mag() != 0 { ProductRoom(a, b, c); }
  }

  lemma ProductValue(a: Bignum, b: Bignum, c: Bignum)
    requires a.Valid() && b.Valid() && c.Valid() && c.Mag() == a.Mag() * b.Mag() && (c.sign == a.sign * b.sign || c.Mag() == 0)
    ensures c.Value() == a.Value() * b.Value()
  {
    hide Val;
    SignedProduct(a.sign, b.sign, a.Mag(), b.Mag());
  }

  /** Adds the rows of the product of a and b to c, which is zero. */
  method AddRows(a: Bignum, b: Bignum, c: Bignum)
    requires a.Valid() && b.Valid() && c.Valid() && Apart(a, c) && Apart(b, c) && c.Trimmed()
    requires a.length + b.length <= c.space && c.Mag() == 0
    modifies c, c.num
    ensures c.Valid() && c.Trimmed() && c.sign == old(c.sign) && (c.num == old(c.num) || fresh(c.num))
    ensures c.Mag() == a.Mag() * b.Mag() && old(c.space) <= c.space && a.length + b.length < c.space
  {
    hide Val, Pow, Multiple, Grown;
    ghost var y := b.num[..b.length];
    var i := 0;
    NoneYet(a.Mag(), y);
    while i < b.length
      invariant i <= b.length && c.Valid() && c.Trimmed() && c.sign == old(c.sign) && (c.num == old(c.num) || fresh(c.num))
      invariant old(c.space) <= c.space && a.length + b.length <= c.space && a.length + i < c.space && c.Mag() == a.Mag() * Val(y[..i])
    {
      var m := b.num[i];
      RowRoom(a, a.length, m, y, i, c.Mag());
      GrownIs(c);
      NumTypeBigMult(a, m, c, i);
      PowGrows(a.length + i + 1, c.space);
      i := i + 1;
    }
    assert y[..b.length] == y;
  }

  lemma NoneYet(a: nat, y: seq<Word>)
    ensures 0 == a * Val(y[..0])
  {
  }

  lemma SignedProduct(s: int, t: int, x: int, y: int)
    requires (s == 1 || s == -1) && (t == 1 || t == -1)
    ensures (if s * t == 1 then x * y else -(x * y)) == (if s == 1 then x else -x) * (if t == 1 then y else -y)
    ensures s * t == 1 || s * t == -1
  {
  }

  lemma ZeroProduct(x: int, y: int)
    requires x == 0 || y == 0
    ensures x * y == 0
  {
  }

  /** With room for one word more than both factors have, a product leaves a word free. */
  lemma ProductRoom(a: Bignum, b: Bignum, c: Bignum)
    requires a.Valid() && b.Valid() && c.Valid() && c.Mag() == a.Mag() * b.Mag() && a.length + b.length < c.space
    ensures c.SpareWord()
  {
    hide Pow, Val;
    ValBound(a.num[..a.length]);
    ValBound(b.num[..b.length]);
    PowAdd(a.length, b.length);
    BelowProduct(a.Mag(), Pow(a.length), b.Mag(), Pow(b.length));
    PowGrows(a.length + b.length, c.space - 1);
  }

  /** Nothing is lost of a number that lies in its room. */
  lemma GrownIs(c: Bignum)
    requires c.Valid()
    ensures forall e: nat :: Grown(c, e) == c.Mag()
    ensures forall e: nat, add: nat :: SumFits(c, e, add)
  {
  }

  /** A trimmed number below Pow(n) has at most n words. */
  lemma NotLonger(s: seq<Word>, n: nat)
    requires s != [] && (|s| == 1 || s[|s| - 1] != 0) && Val(s) < Pow(n)
    ensures |s| <= Max(n, 1)
  {
    if |s| > 1 && |s| > n {
      ValTop(s);
      PowGrows(n, |s| - 1);
    }
  }
}
