/**
 Numbers with a sign, a length and room for more words, changed in place: comparing,
 copying, adding and subtracting.
 */
module Bignums {
  import opened Words
  import opened LongMult
  import opened WordSums

  function Max(x: int, y: int): int {
    if x > y then x else y
  }

  class Bignum {
    var sign: int
    var length: nat
    var space: nat
    var num: array<Word>

    /** What the memory a larger room is made of holds, for every room of s words, in the place of the word behind that. */
    const found: nat -> Word

    /**
     Sign, length and room. Behind the words of the room there is one more, which belongs to the
     allocator: a number may reach into it, but it is lost when the room grows.
     */
    ghost predicate Held()
      reads this
    {
      (sign == 1 || sign == -1) && 1 <= space && 1 <= length <= space + 1 == num.Length
    }

    /** The number lies in its room. */
    ghost predicate Valid()
      reads this
    {
      Held() && length <= space
    }

    /** The magnitude. */
    ghost function Mag(): nat
      requires Held()
      reads this, num
    {
      Val(num[..length])
    }

    ghost function Value(): int
      requires Held()
      reads this, num
    {
      var m: int := Mag();
      if sign == 1 then m else -m
    }

    ghost predicate Trimmed()
      requires Held()
      reads this, num
    {
      length == 1 || num[length - 1] != 0
    }

    /** The top word of the room is free. */
    ghost predicate SpareWord()
      requires Held()
      reads this, num
    {
      Mag() < Pow(space - 1)
    }

    /** The words from the length up to k are zero. */
    ghost predicate ZeroTo(k: nat)
      requires Held()
      reads this, num
    {
      k <= space && forall i :: length <= i < k ==> num[i] == 0
    }

    constructor (i: Word)
      ensures Valid() && fresh(num) && Value() == Mag() == i && length == 1 && space == 1 && sign == 1
    {
      sign, length, space := 1, 1, 1;
      var a := new Word[2];
      num := a;
      new;
      num[0] := i;
      ValOne(num[..1]);
    }

    /**
     Makes room for n words. When it grows, the words of the old room are kept, and in the place of
     the one behind it, and of the new ones, is what the memory holds.
     */
    method Guarantee(n: nat)
      requires Held()
      modifies this`space, this`num
      ensures Held() && space == Max(old(space), n) && num[..old(space)] == old(num[..space])
      ensures num == old(num) || fresh(num)
      ensures if n <= old(space) then num == old(num) else num[old(space)] == found(old(space))
      ensures old(Valid()) ==> Valid() && Mag() == old(Mag())
    {
      ghost var before := num[..space];
      if space < n {
        var a := new Word[n + 1];
        forall i | 0 <= i < space { a[i] := num[i]; }
        a[space] := found(space);
        num, space := a, n;
      }
      assert num[..old(space)] == before;
      if length <= old(space) { assert num[..length] == before[..length] == old(num[..length]); }
    }

    /** Drops leading zero words. */
    method Trim(ghost z: nat)
      requires Held()
      modifies this`length
      ensures Held() && Trimmed() && Mag() == old(Mag()) && length <= old(length) && (old(Valid()) ==> Valid())
      ensures old(Trimmed()) ==> length == old(length)
      ensures z <= space && (z <= old(length) || old(ZeroTo(z))) ==> ZeroTo(z)
    {
      while num[length - 1] == 0 && length > 1
        invariant Held() && length <= old(length) && forall i :: length <= i < old(length) ==> num[i] == 0
      {
        length := length - 1;
      }
      ValTrim(num[..old(length)], length);
      assert num[..old(length)][..length] == num[..length];
    }

    method Reset(u: Word)
      requires Held()
      modifies this, num
      ensures Valid() && Value() == Mag() == u && length == 1 && num == old(num) && space == old(space) && sign == 1 && Trimmed()
      ensures Kept(old(num[..]), num[..], 0, 1)
    {
      sign, length := 1, 1;
      num[0] := u;
      ValOne(num[..1]);
    }

    method IsZero() returns (z: bool)
      requires Valid()
      ensures (z ==> Mag() == 0) && (Trimmed() && Mag() == 0 ==> z)
    {
      z := length == 1 && num[0] == 0;
      if length == 1 {
        ValOne(num[..1]);
      } else if num[length - 1] != 0 {
        ValTop(num[..length]);
      }
    }
  }

  predicate Apart(a: Bignum, b: Bignum)
    reads a, b
  {
    a != b && a.num != b.num
  }

  /** A negative, zero or positive number, as the magnitude of a is less than, equal to or greater than that of b. */
  method BigCompare(a: Bignum, b: Bignum, ghost z: nat) returns (r: int)
    requires a.Valid() && b.Valid()
    modifies a`length, b`length
    ensures a.Valid() && b.Valid() && a.Trimmed() && b.Trimmed() && a.Mag() == old(a.Mag()) && b.Mag() == old(b.Mag())
    ensures a.length <= old(a.length) && b.length <= old(b.length)
    ensures old(a.Trimmed()) ==> a.length == old(a.length)
    ensures old(b.Trimmed()) ==> b.length == old(b.length)
    ensures (old(a.ZeroTo(z)) ==> a.ZeroTo(z)) && (old(b.ZeroTo(z)) ==> b.ZeroTo(z))
    ensures r < 0 <==> a.Mag() < b.Mag()
    ensures r == 0 <==> a.Mag() == b.Mag()
    ensures r == 0 ==> a.length == b.length
    ensures r > 0 ==> b.length <= a.length
    ensures r < 0 ==> a.length <= b.length
  {
    hide Val;
    TrimBoth(a, b, z);
    r := CompareTrimmed(a, b);
  }

  method TrimBoth(a: Bignum, b: Bignum, ghost z: nat)
    requires a.Valid() && b.Valid()
    modifies a`length, b`length
    ensures a.Valid() && b.Valid() && a.Trimmed() && b.Trimmed() && a.Mag() == old(a.Mag()) && b.Mag() == old(b.Mag())
    ensures a.length <= old(a.length) && b.length <= old(b.length)
    ensures old(a.Trimmed()) ==> a.length == old(a.length)
    ensures old(b.Trimmed()) ==> b.length == old(b.length)
    ensures (old(a.ZeroTo(z)) ==> a.ZeroTo(z)) && (old(b.ZeroTo(z)) ==> b.ZeroTo(z))
  {
    hide Val;
    a.Trim(z);
    b.Trim(z);
  }

  method CompareTrimmed(a: Bignum, b: Bignum) returns (r: int)
    requires a.Valid() && b.Valid() && a.Trimmed() && b.Trimmed()
    ensures (r < 0 <==> a.Mag() < b.Mag()) && (r == 0 <==> a.Mag() == b.Mag())
    ensures (r == 0 ==> a.length == b.length) && (r > 0 ==> b.length <= a.length) && (r < 0 ==> a.length <= b.length)
  {
    hide Val;
    if a.length < b.length {
      Lengths(a.num[..a.length], b.num[..b.length]);
      return a.length - b.length;
    }
    if a.length > b.length {
      Lengths(b.num[..b.length], a.num[..a.length]);
      return a.length - b.length;
    }
    r := CompareLongs(a.num, 0, b.num, 0, a.length);
    assert a.num[0..a.length] == a.num[..a.length] && b.num[0..b.length] == b.num[..b.length];
  }

  lemma Lengths(s: seq<Word>, t: seq<Word>)
    requires t != [] && (|t| == 1 || t[|t| - 1] != 0) && 0 < |s| < |t|
    ensures Val(s) < Val(t)
  {
    ValLonger(s, t);
  }

  /** b := a. */
  method BigCopy(a: Bignum, b: Bignum)
    requires a.Valid() && b.Valid() && Apart(a, b)
    modifies b, b.num
    ensures a.Valid() && b.Valid() && b.Mag() == a.Mag() == old(a.Mag()) && b.sign == a.sign && b.length == a.length
    ensures b.num == old(b.num) || fresh(b.num)
    ensures old(b.space) <= b.space && (a.Trimmed() ==> b.Trimmed())
  {
    b.Guarantee(a.length);
    b.length := a.length;
    b.sign := a.sign;
    var i := 0;
    while i < a.length
      invariant i <= a.length && forall k :: 0 <= k < i ==> b.num[k] == a.num[k]
      modifies b.num
    {
      b.num[i] := a.num[i];
      i := i + 1;
    }
    assert b.num[..b.length] == a.num[..a.length];
  }

  // ----- subtraction and addition of magnitudes

  predicate SameOrApart(a: Bignum, b: Bignum)
    reads a, b
  {
    a == b || a.num != b.num
  }

  /** Subtracting b from a in place would lose a borrow: it would have to go further than one word. */
  ghost predicate BorrowLost(a: Bignum, b: Bignum)
    requires a.Valid() && b.Valid()
    reads a, a.num, b, b.num
  {
    b.length < a.length && a.num[b.length] == 0 && Val(a.num[..b.length]) < b.Mag()
  }

  /** Taking 1 from the square of the word size, in place. */
  lemma BorrowLostExample(a: Bignum, b: Bignum)
    requires a.Valid() && b.Valid() && a.num[..a.length] == [0, 0, 1] && b.num[..b.length] == [1]
    ensures BorrowLost(a, b)
  {
    ValOne(b.num[..1]);
    ValZeros(a.num[..1]);
    assert a.num[..1] == a.num[..3][..1] && a.num[1] == a.num[..3][1];
  }

  /**
   c := a - b on magnitudes, for b not longer and not larger than a. With c in the place of a,
   the result is right if and only if no borrow is lost.
   */
  method BigSub(a: Bignum, b: Bignum, c: Bignum, ghost z: nat)
    requires a.Valid() && b.Valid() && c.Valid() && Apart(a, b) && SameOrApart(a, c) && SameOrApart(b, c)
    requires b.Mag() <= a.Mag() && b.length <= a.length
    modifies c, c.num
    ensures c.Valid() && c.Trimmed() && c.sign == old(c.sign) && (c.num == old(c.num) || fresh(c.num))
    ensures c.Mag() == old(a.Mag()) - old(b.Mag()) + if c == a && old(BorrowLost(a, b)) then Pow(old(b.length) + 1) else 0
    ensures c.length <= old(a.length) <= c.space && old(c.space) <= c.space
    ensures old(c.length) <= old(a.length) <= z && old(c.ZeroTo(z)) ==> c.ZeroTo(z)
    ensures c != a ==> a.Valid() && a.Mag() == old(a.Mag())
    ensures c != b ==> b.Valid() && b.Mag() == old(b.Mag())
  {
    hide Val, Pow;
    ghost var x, y, lb := a.num[..a.length], b.num[..b.length], b.length;
    assert a.num[..lb] == x[..lb] && forall i :: 0 <= i < |x| ==> a.num[i] == x[i];
    c.Guarantee(a.length);
    assert a.num[..|x|] == x && b.num[..lb] == y && a.num[..lb] == x[..lb] && forall i :: 0 <= i < |x| ==> a.num[i] == x[i];
    SubWithRoom(a, b, c, z);
  }

  method SubWithRoom(a: Bignum, b: Bignum, c: Bignum, ghost z: nat)
    requires a.Valid() && b.Valid() && c.Valid() && Apart(a, b) && SameOrApart(a, c) && SameOrApart(b, c)
    requires b.Mag() <= a.Mag() && b.length <= a.length <= c.space
    modifies c`length, c.num
    ensures c.Valid() && c.Trimmed()
    ensures c.Mag() == old(a.Mag()) - old(b.Mag()) + if c == a && old(BorrowLost(a, b)) then Pow(old(b.length) + 1) else 0
    ensures c.length <= old(a.length)
    ensures old(c.length) <= old(a.length) <= z && old(c.ZeroTo(z)) ==> c.ZeroTo(z)
  {
    hide Val, Pow;
    var la, lb := a.length, b.length;
    SubNumbers(c.num, a.num, la, b.num, lb);
    c.length := la;
    c.Trim(z);
  }

  /** c := a + b on magnitudes, with the sign of the longer. */
  method BigAddition(a: Bignum, b: Bignum, c: Bignum)
    requires a.Valid() && b.Valid() && c.Valid() && Apart(a, b) && SameOrApart(a, c) && SameOrApart(b, c)
    modifies c, c.num
    ensures c.Valid() && c.Trimmed() && c.sign == old(if a.length < b.length then b.sign else a.sign)
    ensures c.num == old(c.num) || fresh(c.num)
    ensures c.Mag() == old(a.Mag()) + old(b.Mag())
    ensures c.length <= Max(old(a.length), old(b.length)) + 1 <= c.space && old(c.space) <= c.space
    ensures c != a ==> a.Valid() && a.Mag() == old(a.Mag())
    ensures c != b ==> b.Valid() && b.Mag() == old(b.Mag())
  {
    if a.length < b.length {
      SumOf(b, a, c);
    } else {
      SumOf(a, b, c);
    }
  }

  method SumOf(a: Bignum, b: Bignum, c: Bignum)
    requires a.Valid() && b.Valid() && c.Valid() && Apart(a, b) && SameOrApart(a, c) && SameOrApart(b, c) && b.length <= a.length
    modifies c, c.num
    ensures c.Valid() && c.Trimmed() && c.sign == old(a.sign)
    ensures c.num == old(c.num) || fresh(c.num)
    ensures c.Mag() == old(a.Mag()) + old(b.Mag())
    ensures c.length <= old(a.length) + 1 <= c.space && old(c.space) <= c.space
    ensures c != a ==> a.Valid() && a.Mag() == old(a.Mag())
    ensures c != b ==> b.Valid() && b.Mag() == old(b.Mag())
  {
    hide Val, Pow;
    ghost var x, y := a.num[..a.length], b.num[..b.length];
    var la, lb, sign := a.length, b.length, a.sign;
    c.Guarantee(la + 1);
    assert a.num[..la] == x && b.num[..lb] == y;
    var carry := AddNumbers(c.num, a.num, la, b.num, lb);
    ghost var sum := c.num[..la];
    if carry != 0 {
      c.num[la] := carry;
      c.length := la + 1;
      assert c.num[..la + 1] == sum + [carry];
      ValSnoc(sum, carry);
    } else {
      c.length := la;
      NoCarry(carry, Pow(la), 0);
    }
    c.sign := sign;
    c.Trim(0);
  }

  /** In place of a, or of b, the smaller can be taken from the larger without losing a borrow. */
  ghost predicate InPlaceSafe(a: Bignum, b: Bignum, c: Bignum)
    requires a.Valid() && b.Valid()
    reads a, a.num, b, b.num
  {
    && (c == a ==> a.Trimmed() && b.Trimmed() && !BorrowLost(a, b))
    && (c == b ==> a.Trimmed() && b.Trimmed() && !BorrowLost(b, a))
  }

  /** c := the distance of the magnitudes of a and b, if no borrow is lost, signed as told; strict tells what to do with equal ones. */
  method Distance(a: Bignum, b: Bignum, c: Bignum, strict: bool, above: int, below: int, ghost z: nat)
    requires a.Valid() && b.Valid() && c.Valid() && Apart(a, b) && SameOrApart(a, c) && SameOrApart(b, c)
    requires (above == 1 || above == -1) && (below == 1 || below == -1)
    modifies c, c.num, a`length, b`length
    ensures a.Valid() && b.Valid() && c.Valid() && c.Trimmed()
    ensures old(InPlaceSafe(a, b, c)) ==>
              c.Mag() == if old(a.Mag()) >= old(b.Mag()) then old(a.Mag()) - old(b.Mag()) else old(b.Mag()) - old(a.Mag())
    ensures c.sign == if old(a.Mag()) > old(b.Mag()) || (old(a.Mag()) == old(b.Mag()) && !strict) then above else below
    ensures c.num == old(c.num) || fresh(c.num)
    ensures c.length <= Max(old(a.length), old(b.length)) && old(c.space) <= c.space
    ensures (c == a || c == b) && old(a.length <= z && b.length <= z && c.ZeroTo(z)) ==> c.ZeroTo(z)
    ensures c != a ==> a.Mag() == old(a.Mag()) && a.sign == old(a.sign) && (old(a.Trimmed()) ==> a.length == old(a.length))
    ensures c != b ==> b.Mag() == old(b.Mag()) && b.sign == old(b.sign) && (old(b.Trimmed()) ==> b.length == old(b.length))
  {
    hide Val, Pow;
    var r := BigCompare(a, b, z);
    if r > 0 || (r == 0 && !strict) {
      TakeAway(a, b, c, above, z);
    } else {
      TakeAway(b, a, c, below, z);
    }
  }

  method TakeAway(a: Bignum, b: Bignum, c: Bignum, sign: int, ghost z: nat)
    requires a.Valid() && b.Valid() && c.Valid() && Apart(a, b) && SameOrApart(a, c) && SameOrApart(b, c)
    requires b.Mag() <= a.Mag() && b.length <= a.length && (sign == 1 || sign == -1)
    modifies c, c.num
    ensures c.Valid() && c.Trimmed() && c.sign == sign
    ensures old(c == a ==> !BorrowLost(a, b)) ==> c.Mag() == old(a.Mag()) - old(b.Mag())
    ensures c.num == old(c.num) || fresh(c.num)
    ensures c.length <= old(a.length) && old(c.space) <= c.space
    ensures (c == a || c == b) && old(a.length <= z && c.ZeroTo(z)) ==> c.ZeroTo(z)
    ensures c != a ==> a.Valid() && a.Mag() == old(a.Mag())
    ensures c != b ==> b.Valid() && b.Mag() == old(b.Mag())
  {
    hide Val, Pow;
    BigSub(a, b, c, z);
    c.sign := sign;
  }

  /** c := the sum of the magnitudes of a and b, signed as told. */
  method SumSigned(a: Bignum, b: Bignum, c: Bignum, sign: int)
    requires a.Valid() && b.Valid() && c.Valid() && Apart(a, b) && SameOrApart(a, c) && SameOrApart(b, c) && (sign == 1 || sign == -1)
    modifies c, c.num
    ensures c.Valid() && c.Trimmed() && c.sign == sign && c.Mag() == old(a.Mag()) + old(b.Mag())
    ensures c.num == old(c.num) || fresh(c.num)
    ensures c.length <= Max(old(a.length), old(b.length)) + 1 <= c.space && old(c.space) <= c.space
    ensures c != a ==> a.Valid() && a.Mag() == old(a.Mag())
    ensures c != b ==> b.Valid() && b.Mag() == old(b.Mag())
  {
    hide Val, Pow;
    BigAddition(a, b, c);
    c.sign := sign;
  }

  /** c := a - b, if no borrow is lost in place. */
  method BigSubtract(a: Bignum, b: Bignum, c: Bignum, ghost z: nat)
    requires a.Valid() && b.Valid() && c.Valid() && Apart(a, b) && SameOrApart(a, c) && SameOrApart(b, c)
    modifies c, c.num, a`length, b`length
    ensures a.Valid() && b.Valid() && c.Valid() && c.Trimmed()
    ensures old(a.sign == b.sign ==> InPlaceSafe(a, b, c)) ==> c.Value() == old(a.Value()) - old(b.Value())
    ensures c.num == old(c.num) || fresh(c.num)
    ensures c.length <= Max(old(a.length), old(b.length)) + 1 && old(c.space) <= c.space
    ensures old(a.sign == b.sign) ==> c.length <= Max(old(a.length), old(b.length))
    ensures (c == a || c == b) && old(a.sign == b.sign && a.length <= z && b.length <= z && c.ZeroTo(z)) ==> c.ZeroTo(z)
    ensures c != a ==> a.Value() == old(a.Value()) && (old(a.Trimmed()) ==> a.length == old(a.length))
    ensures c != b ==> b.Value() == old(b.Value()) && (old(b.Trimmed()) ==> b.length == old(b.length))
    ensures old(a.sign == b.sign == 1) ==> c.sign == if old(a.Mag()) >= old(b.Mag()) then 1 else -1
  {
    hide Val, Pow, InPlaceSafe, Bignum.ZeroTo;
    var sign1, sign2 := a.sign, b.sign;
    if sign1 == 1 && sign2 == 1 {
      Distance(a, b, c, false, 1, -1, z);
    } else if sign1 == 1 && sign2 == -1 {
      SumSigned(a, b, c, 1);
    } else if sign1 == -1 && sign2 == -1 {
      Distance(a, b, c, false, -1, 1, z);
    } else {
      SumSigned(a, b, c, -1);
    }
  }

  /** c := a + b, if no borrow is lost in place. */
  method BigAdd(a: Bignum, b: Bignum, c: Bignum, ghost z: nat)
    requires a.Valid() && b.Valid() && c.Valid() && Apart(a, b) && SameOrApart(a, c) && SameOrApart(b, c)
    modifies c, c.num, a`length, b`length
    ensures a.Valid() && b.Valid() && c.Valid() && c.Trimmed()
    ensures old(a.sign != b.sign ==> InPlaceSafe(a, b, c)) ==> c.Value() == old(a.Value()) + old(b.Value())
    ensures c.num == old(c.num) || fresh(c.num)
    ensures c.length <= Max(old(a.length), old(b.length)) + 1 && old(c.space) <= c.space
    ensures old(a.sign != b.sign) ==> c.length <= Max(old(a.length), old(b.length))
    ensures (c == a || c == b) && old(a.sign != b.sign && a.length <= z && b.length <= z && c.ZeroTo(z)) ==> c.ZeroTo(z)
    ensures c != a ==> a.Value() == old(a.Value()) && (old(a.Trimmed()) ==> a.length == old(a.length))
    ensures c != b ==> b.Value() == old(b.Value()) && (old(b.Trimmed()) ==> b.length == old(b.length))
    ensures old(a.sign == -1 && b.sign == 1) ==> c.sign == if old(b.Mag()) > old(a.Mag()) then 1 else -1
    ensures old(a.sign == b.sign) ==> c.sign == old(a.sign)
  {
    hide Val, Pow;
    if a.sign == -1 && b.sign == 1 {
      Distance(b, a, c, true, 1, -1, z);
    } else if b.sign == -1 && a.sign == 1 {
      Distance(a, b, c, true, 1, -1, z);
    } else {
      SumSigned(a, b, c, a.sign);
    }
  }
}
