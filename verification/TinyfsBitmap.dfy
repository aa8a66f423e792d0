/**
 The block usage map of tinyfs: one bit a block, eight to a byte, with the bits past the
 last block set for good.
 */
module TinyfsBitmap {
  import opened TinyfsBlock

  function Mask(j: nat): bv8
    requires j < 8
  {
    [0x01, 0x02, 0x04, 0x08, 0x10, 0x20, 0x40, 0x80][j]
  }

  predicate Bit(x: bv8, j: nat)
    requires j < 8
  {
    x & Mask(j) != 0
  }

  lemma SetBit(x: bv8, j: nat, k: nat)
    requires j < 8 && k < 8
    ensures Bit(x | Mask(j), k) <==> Bit(x, k) || k == j
  {
  }

  lemma ClearBit(x: bv8, j: nat, k: nat)
    requires j < 8 && k < 8
    ensures Bit(x & !Mask(j), k) <==> Bit(x, k) && k != j
  {
  }

  lemma SomeBitClear(x: bv8)
    ensures x == 0xff <==> forall j: nat :: j < 8 ==> Bit(x, j)
  {
    if x != 0xff {
      assert !Bit(x, 0) || !Bit(x, 1) || !Bit(x, 2) || !Bit(x, 3) ||
             !Bit(x, 4) || !Bit(x, 5) || !Bit(x, 6) || !Bit(x, 7);
    }
  }

  class Bitmap {
    const nblocks: nat
    const bytes: array<bv8>
    ghost var used: set<nat>

    predicate IsSet(b: nat)
      reads bytes
    {
      b < 8 * bytes.Length && Bit(bytes[b / 8], b % 8)
    }

    ghost predicate Faithful()
      reads this, bytes
    {
      forall b: nat {:trigger IsSet(b)} :: b in used <==> IsSet(b)
    }

    ghost predicate Valid()
      reads this, bytes
    {
      && bytes.Length == (nblocks + 7) / 8
      && Faithful()
      && (forall b: nat {:trigger IsSet(b)} :: nblocks <= b < 8 * bytes.Length ==> IsSet(b))
    }

    /** All bits zero but those past the last block. */
    constructor (n: nat)
      ensures Valid() && nblocks == n && fresh(bytes)
      ensures forall b: nat :: b < n ==> b !in used
    {
      nblocks := n;
      bytes := new bv8[(n + 7) / 8](_ => 0);
      used := {};
      new;
      for b := n to 8 * bytes.Length
        invariant Faithful()
        invariant forall c: nat :: c in used <==> n <= c < b
      {
        SetRaw(b);
      }
    }

    method SetRaw(b: nat)
      requires Faithful() && b < 8 * bytes.Length
      modifies this, bytes
      ensures Faithful() && used == old(used) + {b}
      ensures forall c: nat {:trigger IsSet(c)} :: IsSet(c) <==> c == b || old(IsSet(c))
    {
      forall k: nat | k < 8
        ensures Bit(bytes[b / 8] | Mask(b % 8), k) <==> Bit(bytes[b / 8], k) || k == b % 8
      {
        SetBit(bytes[b / 8], b % 8, k);
      }
      bytes[b / 8] := bytes[b / 8] | Mask(b % 8);
      used := used + {b};
      assert forall c: nat {:trigger IsSet(c)} :: IsSet(c) <==> c == b || old(IsSet(c));
    }

    method Set(b: nat)
      requires Valid() && b < nblocks
      modifies this, bytes
      ensures Valid() && used == old(used) + {b}
    {
      SetRaw(b);
    }

    method Clear(b: nat)
      requires Valid() && b < nblocks
      modifies this, bytes
      ensures Valid() && used == old(used) - {b}
    {
      forall k: nat | k < 8
        ensures Bit(bytes[b / 8] & !Mask(b % 8), k) <==> Bit(bytes[b / 8], k) && k != b % 8
      {
        ClearBit(bytes[b / 8], b % 8, k);
      }
      bytes[b / 8] := bytes[b / 8] & !Mask(b % 8);
      used := used - {b};
      assert forall c: nat {:trigger IsSet(c)} :: IsSet(c) <==> c != b && old(IsSet(c));
    }

    method IsAlloced(b: nat) returns (a: bool)
      requires Valid() && b < nblocks
      ensures a <==> b in used
    {
      a := Bit(bytes[b / 8], b % 8);
      assert a == IsSet(b);
    }

    /** The first free block, or NOTABNO when every block is used. */
    method Alloc() returns (b: nat)
      requires Valid() && nblocks <= NOTABNO
      modifies this, bytes
      ensures Valid()
      ensures b == NOTABNO ==> used == old(used) && forall c: nat :: c < nblocks ==> c in used
      ensures b != NOTABNO ==> b < nblocks && b !in old(used) && used == old(used) + {b}
      ensures b != NOTABNO ==> forall c: nat :: c < b ==> c in old(used)
    {
      var lim := (nblocks + 7) / 8;
      for i := 0 to lim
        invariant Valid() && used == old(used)
        invariant forall c: nat :: c < 8 * i ==> c in used
      {
        var x := bytes[i];
        SomeBitClear(x);
        if x == 0xff {
          forall c: nat | 8 * i <= c < 8 * i + 8
            ensures c in used
          {
            assert c / 8 == i && IsSet(c);
          }
          continue;
        }
        for j := 0 to 8
          invariant Valid() && used == old(used) && x == bytes[i]
          invariant forall k: nat :: k < j ==> Bit(x, k)
          invariant forall c: nat :: c < 8 * i + j ==> c in used
        {
          var c := 8 * i + j;
          assert c / 8 == i && c % 8 == j;
          assert IsSet(c) <==> Bit(x, j);
          if x & Mask(j) == 0 {
            SetRaw(c);
            return c;
          }
        }
        assert false;
      }
      return NOTABNO;
    }
  }
}
