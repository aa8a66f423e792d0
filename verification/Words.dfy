/**
 Multi-word numbers: 32-bit words, least significant first, and the number they stand for.
 */
module Words {

  const BASE: int := 0x1_0000_0000

  type Word = x: int | 0 <= x < 0x1_0000_0000

  /** BASE to the n. */
  function Pow(n: nat): (p: nat)
    ensures p > 0
  {
    if n == 0 then 1 else Pow(n - 1) * BASE
  }

  function Val(s: seq<Word>): (v: nat)
  {
    if s == [] then 0 else Val(s[..|s| - 1]) + s[|s| - 1] * Pow(|s| - 1)
  }

  lemma {:induction false} PowAdd(m: nat, n: nat)
    ensures Pow(m + n) == Pow(m) * Pow(n)
  {
    if n == 0 {
    } else {
      PowAdd(m, n - 1);
      MulAssoc(Pow(m), Pow(n - 1), BASE);
    }
  }

  lemma MulAssoc(x: int, y: int, z: int)
    ensures x * (y * z) == (x * y) * z
  {
  }

  lemma MulDist(x: int, y: int, z: int)
    ensures x * (y + z) == x * y + x * z && (y + z) * x == y * x + z * x
  {
  }

  lemma MulLess(x: int, y: int, z: int)
    requires x <= y && 0 <= z
    ensures x * z <= y * z && z * x <= z * y
  {
  }

  lemma Regroup(p: int, v: int, x: int, q: int)
    ensures p * (v + x * q) == p * v + x * (p * q)
  {
    MulDist(p, v, x * q);
    MulAssoc(p, x, q);
    MulAssoc(x, p, q);
  }

  lemma {:induction false} PowGrows(m: nat, n: nat)
    requires m <= n
    ensures Pow(m) <= Pow(n)
    ensures m < n ==> Pow(m) * BASE <= Pow(n)
  {
    if m < n {
      PowGrows(m, n - 1);
    }
  }

  lemma ValSnoc(s: seq<Word>, x: Word)
    ensures Val(s + [x]) == Val(s) + x * Pow(|s|)
  {
    assert (s + [x])[..|s|] == s;
  }

  /** One more word of s. */
  lemma ValNext(s: seq<Word>, i: nat)
    requires i < |s|
    ensures Val(s[..i + 1]) == Val(s[..i]) + s[i] * Pow(i)
  {
    assert s[..i + 1] == s[..i] + [s[i]];
    ValSnoc(s[..i], s[i]);
  }

  /** The first k words, and the rest. */
  lemma {:induction false} ValSplit(s: seq<Word>, k: nat)
    requires k <= |s|
    ensures Val(s) == Val(s[..k]) + Pow(k) * Val(s[k..])
  {
    hide Val, Pow;
    if k == |s| {
      ValEmpty();
      assert s[..k] == s && s[k..] == [];
    } else {
      var n := |s| - 1;
      var r, x := s[..n], s[n];
      ValSplit(r, k);
      assert r[..k] == s[..k];
      assert s[k..] == r[k..] + [x];
      ValSnoc(r[k..], x);
      assert s == r + [x];
      ValSnoc(r, x);
      PowAdd(k, n - k);
      Regroup(Pow(k), Val(r[k..]), x, Pow(n - k));
    }
  }

  lemma ValEmpty()
    ensures Val([]) == 0
  {
  }

  lemma ValConcat(s: seq<Word>, t: seq<Word>)
    ensures Val(s + t) == Val(s) + Pow(|s|) * Val(t)
  {
    ValSplit(s + t, |s|);
    assert (s + t)[..|s|] == s && (s + t)[|s|..] == t;
  }

  lemma {:induction false} ValBound(s: seq<Word>)
    ensures 0 <= Val(s) < Pow(|s|)
  {
    if s != [] {
      var n := |s| - 1;
      ValBound(s[..n]);
      MulLess(s[n], BASE - 1, Pow(n));
    }
  }

  lemma {:induction false} ValZeros(s: seq<Word>)
    requires forall i :: 0 <= i < |s| ==> s[i] == 0
    ensures Val(s) == 0
  {
    if s != [] { ValZeros(s[..|s| - 1]); }
  }

  /** A number with a nonzero top word. */
  lemma ValTop(s: seq<Word>)
    requires s != [] && s[|s| - 1] != 0
    ensures Pow(|s| - 1) <= Val(s)
  {
    MulLess(1, s[|s| - 1], Pow(|s| - 1));
  }

  /** The top word at which two numbers of one length differ decides which is smaller. */
  lemma ValLess(s: seq<Word>, t: seq<Word>, i: nat)
    requires |s| == |t| && i < |s| && s[i + 1..] == t[i + 1..] && s[i] < t[i]
    ensures Val(s) < Val(t)
  {
    ValSplit(s, i + 1);
    ValSplit(t, i + 1);
    assert s[..i + 1][..i] == s[..i] && t[..i + 1][..i] == t[..i];
    ValBound(s[..i]);
    MulLess(s[i] + 1, t[i], Pow(i));
    MulDist(Pow(i), s[i], 1);
  }

  lemma ValOne(s: seq<Word>)
    requires |s| == 1
    ensures Val(s) == s[0]
  {
    assert s[..0] == [];
  }

  /** Words that are zero do not count. */
  lemma ValTrim(s: seq<Word>, k: nat)
    requires k <= |s| && forall i :: k <= i < |s| ==> s[i] == 0
    ensures Val(s) == Val(s[..k])
  {
    ValSplit(s, k);
    ValZeros(s[k..]);
  }

  /** Of two trimmed numbers the longer is larger. */
  lemma ValLonger(s: seq<Word>, t: seq<Word>)
    requires |s| < |t| && t[|t| - 1] != 0
    ensures Val(s) < Val(t)
  {
    ValBound(s);
    ValTop(t);
    PowGrows(|s|, |t| - 1);
  }
}
