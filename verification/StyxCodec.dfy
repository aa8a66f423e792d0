/** Styx messages to bytes and back: the record of a call, filled and sent field by field. */
module StyxCodec {
  import opened Octets
  import opened StyxMessage

  /** The head lengths the decoder goes by; the table has no entries for types 26 and 27 and so ends early. */
  const MSGLEN: seq<int> := [
    3, 3, 0, 67, 5, 3, 7, 5, 33, 13, 6, 13, 38, 13, 15, 8, 16, 7, 5, 5, 5, 5, 5, 121, 121, 5, 61, 13, 0, 0
  ]

  /**
   What the table holds is the length of the head, but for both attach messages, for which it
   holds zero: their lengths stand two places too early.
   */
  lemma TableLengths(t: int)
    requires Known(t)
    ensures 0 <= t < |MSGLEN| && 3 <= HeadLen(t) <= 121
    ensures MSGLEN[t] == if IsAttach(t) then 0 else HeadLen(t)
    ensures IsAttach(t) ==> MSGLEN[t - 2] == HeadLen(t) && HeadLen(t) <= 61
  {
    HeadLengths(t);
  }

  /** The lengths of the heads, by type. */
  function HeadOf(t: int): nat {
    match t
    case 0 => 3  // Tnop
    case 1 => 3  // Rnop
    case 3 => 67  // Rerror
    case 5 => 3  // Rflush
    case 6 => 7  // Tclone
    case 8 => 33  // Twalk
    case 9 => 13  // Rwalk
    case 10 => 6  // Topen
    case 11 => 13  // Ropen
    case 12 => 38  // Tcreate
    case 13 => 13  // Rcreate
    case 14 => 15  // Tread
    case 15 => 8  // Rread
    case 16 => 16  // Twrite
    case 17 => 7  // Rwrite
    case 23 => 121  // Rstat
    case 24 => 121  // Twstat
    case 28 => 61  // Tattach
    case 29 => 13  // Rattach
    case _ => if Known(t) then 5 else 1
  }

  lemma HeadLengths(t: int)
    ensures HeadLen(t) == HeadOf(t)
  {
    hide Widths;
    WidthsOf(Layout(t));
  }

  lemma WidthsOf(ps: seq<Part>)
    requires |ps| <= 6
    ensures Widths(ps) == W(ps, 0) + W(ps, 1) + W(ps, 2) + W(ps, 3) + W(ps, 4) + W(ps, 5)
  {
    if |ps| > 0 { WidthsOf(ps[..|ps| - 1]); }
  }

  function W(ps: seq<Part>, i: nat): nat {
    if i < |ps| then Width(ps[i]) else 0
  }

  class Fcall {
    var mtype: Byte
    var tag: Ushort
    var fid: Short
    var oldtag: Ushort
    var newfid: Short
    var path: Ulong
    var vers: Ulong
    var uname: NameText
    var aname: NameText
    var ename: ErrText
    var name: NameText
    var perm: Long
    var mode: Byte
    var offset: Long
    var count: Long
    var data: seq<Byte>
    var stat: DirText

    function Value(): Call
      reads this
    {
      Call(mtype, tag, fid, oldtag, newfid, path, vers, uname, aname, ename, name, perm, mode, offset, count, data, stat)
    }

    constructor ()
      ensures data == []
    {
      data := [];
    }

    // ----- receiving

    predicate IsText(p: Part) {
      p in {Uname, Aname, Ename, Name, Data, Stat}
    }

    /** Takes part p from ap[q..]. */
    method Get(ap: array<Byte>, q: nat, p: Part) returns (r: nat)
      requires (p == Data ==> 0 <= count) && q + Width(p) + (if p == Data then count else 0) <= ap.Length
      modifies this
      ensures r == q + Width(p) + (if p == Data then old(count) else 0)
      ensures Value() == Filled(old(Value()), p, ap[..], q)
    {
      hide Filled;
      r := q + Width(p) + if p == Data then count else 0;
      if IsText(p) {
        GetText(ap, q, p, r);
      } else {
        GetNumber(ap, q, p);
      }
    }

    method GetText(ap: array<Byte>, q: nat, p: Part, r: nat)
      requires IsText(p) && (p == Data ==> 0 <= count) && r == q + Width(p) + (if p == Data then count else 0) <= ap.Length
      modifies this
      ensures Value() == Filled(old(Value()), p, ap[..], q)
    {
      match p
      case Uname => uname := ap[..][q..r];
      case Aname => aname := ap[..][q..r];
      case Ename => ename := ap[..][q..r];
      case Name => name := ap[..][q..r];
      case Data => data := ap[..][q..r];
      case Stat => stat := ap[..][q..r];
    }

    method GetNumber(ap: array<Byte>, q: nat, p: Part)
      requires !IsText(p) && q + Width(p) <= ap.Length
      modifies this
      ensures Value() == Filled(old(Value()), p, ap[..], q)
    {
      hide Short16, Long32, Sign16, Sign32;
      match p
      case Tag => tag := Short16(ap[..], q);
      case Fid => fid := Sign16(Short16(ap[..], q));
      case Oldtag => oldtag := Short16(ap[..], q);
      case Newfid => newfid := Sign16(Short16(ap[..], q));
      case Path => path := Long32(ap[..], q);
      case Vers => vers := Long32(ap[..], q);
      case Perm => perm := Sign32(Long32(ap[..], q));
      case Mode => mode := ap[q];
      case Offset => offset := Sign32(Long32(ap[..], q));
      case Count => count := Short16(ap[..], q);
      case Pad =>
    }

    /** The first i parts are read from a up to q. */
    ghost predicate Taken(a: seq<Byte>, q: nat, i: nat)
      reads this
    {
      1 <= q <= |a| && a[0] == mtype && i <= |Layout(mtype)| && Shown(Value(), Layout(mtype)[..i], a[1..q])
    }

    /** Takes part p, number i, behind the parts before it. */
    method GetNext(ap: array<Byte>, q: nat, p: Part, ghost i: nat) returns (r: nat)
      requires i < |Layout(mtype)| && Layout(mtype)[i] == p && Taken(ap[..], q, i)
      requires (p == Data ==> 0 <= count) && q + Width(p) + (if p == Data then count else 0) <= ap.Length
      modifies this
      ensures mtype == old(mtype) && (p != Count ==> count == old(count)) && (p == Count ==> count == Short16(ap[..], q))
      ensures r == q + Width(p) + (if p == Data then count else 0) && r <= ap.Length && Taken(ap[..], r, i + 1)
    {
      hide Layout, Shown, Shows, Short16, Filled;
      ghost var was, a := Value(), ap[..];
      r := Get(ap, q, p);
      FilledShows(was, p, a, q);
      Longer(was, Value(), mtype, i, a, q, r);
    }

    // ----- sending

    /** Part p of the message goes to ap[q..]. */
    method Put(ap: array<Byte>, q: nat, p: Part, ghost pad: Byte) returns (r: nat)
      requires p == Data ==> 0 <= count <= |data|
      requires q + Width(p) + (if p == Data then count else 0) <= ap.Length && (p == Pad ==> ap[q] == pad)
      modifies ap
      ensures r == q + Width(p) + (if p == Data then count else 0)
      ensures ap[q..r] == Written(Value(), p, pad)
      ensures forall j :: 0 <= j < q || r <= j < ap.Length ==> ap[j] == old(ap[j])
    {
      hide LowBytes, Bits;
      r := q + Width(p);
      match p
      case Tag => PutShort(ap, q, tag); Bits16(tag);
      case Fid => PutShort(ap, q, fid);
      case Oldtag => PutShort(ap, q, oldtag); Bits16(oldtag);
      case Newfid => PutShort(ap, q, newfid);
      case Path => PutLong(ap, q, path); Bits32(path);
      case Vers => PutLong(ap, q, vers); Bits32(vers);
      case Uname => PutText(ap, q, uname);
      case Aname => PutText(ap, q, aname);
      case Ename => PutText(ap, q, ename);
      case Name => PutText(ap, q, name);
      case Perm => PutLong(ap, q, perm);
      case Mode => ap[q] := mode;
      case Offset => PutVlong(ap, q, offset);
      case Count => PutShort(ap, q, count);
      case Pad =>
      case Data => PutText(ap, q, data[..count]); r := q + count;
      case Stat => PutText(ap, q, stat);
    }

    /** The pad byte of a message with data, in the buffer the message is written to. */
    ghost function PadIn(before: seq<Byte>): Byte
      reads this
    {
      if HasData(mtype) && HeadLen(mtype) <= |before| then before[HeadLen(mtype) - 1] else 0
    }

    /** The bytes that are sent. */
    ghost function Sent(before: seq<Byte>): seq<Byte>
      requires HasItsData(Value())
      reads this
    {
      Wire(Value(), PadIn(before))
    }

    /** The first i parts are written up to q, and nothing behind them. */
    ghost predicate Sofar(now: seq<Byte>, before: seq<Byte>, q: nat, i: nat)
      requires HasItsData(Value())
      reads this
    {
      DataLast(mtype);
      1 <= q <= |now| && |now| == |before| && now[0] == mtype && i <= |Layout(mtype)|
      && now[1..q] == Wires(Value(), Layout(mtype)[..i], PadIn(before)) && now[q..] == before[q..]
    }

    /** Puts part p, number i, behind the parts before it. */
    method PutNext(ap: array<Byte>, q: nat, p: Part, ghost before: seq<Byte>, ghost i: nat) returns (r: nat)
      requires HasItsData(Value()) && i < |Layout(mtype)| && Layout(mtype)[i] == p
      requires 1 <= q && q + Width(p) + (if p == Data then count else 0) <= ap.Length && (p == Pad ==> HasData(mtype) && q == HeadLen(mtype) - 1)
      requires Sofar(ap[..], before, q, i)
      modifies ap
      ensures r == q + Width(p) + (if p == Data then count else 0) && Sofar(ap[..], before, r, i + 1)
    {
      hide Written, Layout, Widths, HeadLen, Sofar, Wires, Value, HasItsData;
      ghost var was := ap[..];
      PutReady(was, before, q, p, i);
      r := Put(ap, q, p, PadIn(before));
      assert ap[..][q..r] == ap[q..r];
      SofarMore(was, ap[..], before, q, r, p, i);
    }

    lemma PutReady(was: seq<Byte>, before: seq<Byte>, q: nat, p: Part, i: nat)
      requires HasItsData(Value()) && i < |Layout(mtype)| && Layout(mtype)[i] == p && Sofar(was, before, q, i)
      requires p == Pad ==> HasData(mtype) && q == HeadLen(mtype) - 1 && q < |was|
      ensures (p == Pad ==> was[q] == PadIn(before)) && (p == Data ==> 0 <= count <= |data|)
    {
      hide Layout, Widths, HeadLen, Wires;
      DataLast(mtype);
      if p == Pad { assert was[q..][0] == before[q..][0]; }
    }

    lemma SofarMore(was: seq<Byte>, now: seq<Byte>, before: seq<Byte>, q: nat, r: nat, p: Part, i: nat)
      requires HasItsData(Value()) && i < |Layout(mtype)| && Layout(mtype)[i] == p && Sofar(was, before, q, i)
      requires q <= r <= |now| && |now| == |was| && (p == Data ==> 0 <= count <= |data|) && now[q..r] == Written(Value(), p, PadIn(before))
      requires forall j :: 0 <= j < q || r <= j < |now| ==> now[j] == was[j]
      ensures Sofar(now, before, r, i + 1)
    {
      hide Written, Layout, Widths, HeadLen;
      var ps := Layout(mtype);
      DataLast(mtype);
      assert now[1..q] == was[1..q];
      assert now[1..r] == was[1..q] + now[q..r];
      assert ps[..i + 1][..i] == ps[..i] && ps[..i + 1][i] == p;
      assert now[r..] == was[q..][r - q..] == before[r..];
    }
  }

  function Short16(a: seq<Byte>, q: nat): Ushort
    requires q + 2 <= |a|
  {
    (a[q] as int) + 256 * (a[q + 1] as int)
  }

  function Long32(a: seq<Byte>, q: nat): Ulong
    requires q + 4 <= |a|
  {
    (a[q] as int) + 0x100 * (a[q + 1] as int) + 0x1_0000 * (a[q + 2] as int) + 0x100_0000 * (a[q + 3] as int)
  }

  function Sign16(u: Ushort): Short {
    if u < 0x8000 then u else u - 0x1_0000
  }

  function Sign32(u: Ulong): Long {
    if u < 0x8000_0000 then u else u - 0x1_0000_0000
  }

  lemma ShortNumber(a: seq<Byte>, q: nat)
    requires q + 2 <= |a|
    ensures Number(a[q..q + 2]) == Short16(a, q) && Signed(Short16(a, q), 2) == Sign16(Short16(a, q))
  {
    Widths24();
    var b := a[q..q + 2];
    assert Number(b[1..]) == b[1] + 256 * Number(b[1..][1..]);
  }

  lemma LongNumber(a: seq<Byte>, q: nat)
    requires q + 4 <= |a|
    ensures Number(a[q..q + 4]) == Long32(a, q) && Signed(Long32(a, q), 4) == Sign32(Long32(a, q))
  {
    Widths24();
    hide Number;
    NumberStep(a, q, q + 4);
    NumberStep(a, q + 1, q + 4);
    NumberStep(a, q + 2, q + 4);
    NumberStep(a, q + 3, q + 4);
  }

  lemma NumberStep(a: seq<Byte>, q: nat, r: nat)
    requires q < r <= |a|
    ensures Number(a[q..r]) == a[q] + 256 * Number(a[q + 1..r]) && (q + 1 == r ==> Number(a[q + 1..r]) == 0)
  {
    assert a[q..r][1..] == a[q + 1..r];
  }

  /** Nothing but part p differs; a count that differs tells another extent of the data. */
  predicate OnlyPart(c: Call, d: Call, p: Part) {
    c.mtype == d.mtype && forall o :: o != p && (o == Data ==> p != Count) ==> Same(c, d, o)
  }

  /** The record with part p taken from a[q..]. */
  function Filled(c: Call, p: Part, a: seq<Byte>, q: nat): Call
    requires (p == Data ==> 0 <= c.count) && q + Width(p) + (if p == Data then c.count else 0) <= |a|
  {
    match p
    case Tag => c.(tag := Short16(a, q))
    case Fid => c.(fid := Sign16(Short16(a, q)))
    case Oldtag => c.(oldtag := Short16(a, q))
    case Newfid => c.(newfid := Sign16(Short16(a, q)))
    case Path => c.(path := Long32(a, q))
    case Vers => c.(vers := Long32(a, q))
    case Uname => c.(uname := a[q..q + NAMELEN])
    case Aname => c.(aname := a[q..q + NAMELEN])
    case Ename => c.(ename := a[q..q + ERRLEN])
    case Name => c.(name := a[q..q + NAMELEN])
    case Perm => c.(perm := Sign32(Long32(a, q)))
    case Mode => c.(mode := a[q])
    case Offset => c.(offset := Sign32(Long32(a, q)))
    case Count => c.(count := Short16(a, q))
    case Pad => c
    case Data => c.(data := a[q..q + c.count])
    case Stat => c.(stat := a[q..q + DIRLEN])
  }

  lemma FilledShows(c: Call, p: Part, a: seq<Byte>, q: nat)
    requires (p == Data ==> 0 <= c.count) && q + Width(p) + (if p == Data then c.count else 0) <= |a|
    ensures Shows(Filled(c, p, a, q), p, a[q..q + Width(p) + if p == Data then c.count else 0])
    ensures OnlyPart(c, Filled(c, p, a, q), p) && (p != Count ==> Filled(c, p, a, q).count == c.count) && (p == Count ==> Filled(c, p, a, q).count == Short16(a, q))
  {
    hide Number, Signed, Short16, Long32, Sign16, Sign32;
    if p in {Tag, Fid, Oldtag, Newfid, Count} { ShortNumber(a, q); }
    if p in {Path, Vers, Perm, Offset} { LongNumber(a, q); }
    assert p == Offset ==> a[q..q + 8][..4] == a[q..q + 4];
  }

  /** No part comes twice, and the data last. */
  lemma NoPartTwice(t: int, i: nat, j: nat)
    requires j < i < |Layout(t)|
    ensures Layout(t)[j] != Layout(t)[i] && Layout(t)[j] != Data
  {
  }

  lemma Longer(was: Call, c: Call, t: int, i: nat, a: seq<Byte>, q: nat, r: nat)
    requires i < |Layout(t)| && 1 <= q <= r <= |a| && Shown(was, Layout(t)[..i], a[1..q])
    requires OnlyPart(was, c, Layout(t)[i]) && Shows(c, Layout(t)[i], a[q..r])
    requires r == q + Width(Layout(t)[i]) + if Layout(t)[i] == Data && c.count >= 0 then c.count else 0
    ensures Shown(c, Layout(t)[..i + 1], a[1..r])
  {
    hide Shown, Shows, Same, OnlyPart, Width;
    forall j | 0 <= j < i ensures Layout(t)[j] != Layout(t)[i] && Layout(t)[j] != Data {
      NoPartTwice(t, i, j);
    }
    LongerBy(was, c, Layout(t), i, a, q, r);
  }

  lemma LongerBy(was: Call, c: Call, ps: seq<Part>, i: nat, a: seq<Byte>, q: nat, r: nat)
    requires i < |ps| && 1 <= q <= r <= |a| && Shown(was, ps[..i], a[1..q])
    requires forall j :: 0 <= j < i ==> ps[j] != ps[i] && ps[j] != Data
    requires OnlyPart(was, c, ps[i]) && Shows(c, ps[i], a[q..r])
    requires r == q + Width(ps[i]) + if ps[i] == Data && c.count >= 0 then c.count else 0
    ensures Shown(c, ps[..i + 1], a[1..r])
  {
    hide Shows, Same;
    ShownSame(was, c, ps[..i], a[1..q]);
    var b, w := a[1..r], r - q;
    assert b[|b| - w..] == a[q..r] && b[..|b| - w] == a[1..q];
    assert ps[..i + 1][..i] == ps[..i] && ps[..i + 1][i] == ps[i];
  }

  lemma {:induction false} ShownSame(c: Call, d: Call, ps: seq<Part>, s: seq<Byte>)
    requires Shown(c, ps, s) && forall o :: o in ps ==> Same(c, d, o)
    ensures Shown(d, ps, s)
  {
    if ps == [] {
    } else {
      var p := ps[|ps| - 1];
      hide Shows, Same;
      var w := Width(p) + if p == Data && c.count >= 0 then c.count else 0;
      assert p in ps && forall o :: o in ps[..|ps| - 1] ==> o in ps;
      ShownSame(c, d, ps[..|ps| - 1], s[..|s| - w]);
      ShowsSame(c, d, p, s[|s| - w..]);
    }
  }

  lemma ShowsSame(c: Call, d: Call, p: Part, b: seq<Byte>)
    requires Shows(c, p, b) && Same(c, d, p)
    ensures Shows(d, p, b) && (p == Data ==> c.count == d.count)
  {
  }

  lemma Bits16(x: Ushort)
    ensures Bits(x, 2) == x
  {
    Widths24();
  }

  lemma Bits32(x: Ulong)
    ensures Bits(x, 4) == x
  {
    Widths24();
  }

  method PutShort(ap: array<Byte>, q: nat, x: int)
    requires q + 2 <= ap.Length
    modifies ap
    ensures ap[q..q + 2] == LowBytes(Bits(x, 2), 2)
    ensures forall j :: 0 <= j < q || q + 2 <= j < ap.Length ==> ap[j] == old(ap[j])
  {
    ap[q] := x % 256;
    ap[q + 1] := x / 256 % 256;
    ShortBytes(x);
  }

  lemma ShortBytes(x: int)
    ensures LowBytes(Bits(x, 2), 2) == [x % 256, x / 256 % 256]
  {
    Widths24();
    var b := Bits(x, 2);
    assert x == 65536 * (x / 65536) + b;
    assert LowBytes(b, 2) == [b % 256] + LowBytes(b / 256, 1);
    assert LowBytes(b / 256, 1) == [b / 256 % 256] + LowBytes(b / 256 / 256, 0);
  }

  method PutLong(ap: array<Byte>, q: nat, x: int)
    requires q + 4 <= ap.Length
    modifies ap
    ensures ap[q..q + 4] == LowBytes(Bits(x, 4), 4)
    ensures forall j :: 0 <= j < q || q + 4 <= j < ap.Length ==> ap[j] == old(ap[j])
  {
    ap[q] := x % 256;
    ap[q + 1] := x / 0x100 % 256;
    ap[q + 2] := x / 0x1_0000 % 256;
    ap[q + 3] := x / 0x100_0000 % 256;
    LongBytes(x);
  }

  method PutVlong(ap: array<Byte>, q: nat, x: int)
    requires q + 8 <= ap.Length
    modifies ap
    ensures ap[q..q + 8] == LowBytes(Bits(x, 4), 4) + [0, 0, 0, 0]
    ensures forall j :: 0 <= j < q || q + 8 <= j < ap.Length ==> ap[j] == old(ap[j])
  {
    hide LowBytes, Bits;
    PutLong(ap, q, x);
    ghost var low := ap[q..q + 4];
    ap[q + 4], ap[q + 5], ap[q + 6], ap[q + 7] := 0, 0, 0, 0;
    assert ap[q..q + 4] == low;
    assert ap[q..q + 8] == ap[q..q + 4] + [0, 0, 0, 0];
  }

  lemma LongBytes(x: int)
    ensures LowBytes(Bits(x, 4), 4) == [x % 256, x / 0x100 % 256, x / 0x1_0000 % 256, x / 0x100_0000 % 256]
  {
    hide LowBytes, Bits;
    LowByte(x, 3);
    LowByte(x / 256, 2);
    LowByte(x / 256 / 256, 1);
    LowByte(x / 256 / 256 / 256, 0);
    NoBytes();
    Quarters(x);
  }

  lemma Quarters(x: int)
    ensures x / 256 / 256 == x / 0x1_0000 && x / 256 / 256 / 256 == x / 0x100_0000
  {
    var a, b := x / 256, x % 256;
    var c, d := a / 256, a % 256;
    assert x == 0x1_0000 * c + (256 * d + b);
    var e, f := c / 256, c % 256;
    assert x == 0x100_0000 * e + (0x1_0000 * f + 256 * d + b);
  }

  lemma NoBytes()
    ensures forall x: nat :: LowBytes(x, 0) == []
  {
  }

  lemma LowByte(x: int, n: nat)
    requires n < 4
    ensures LowBytes(Bits(x, n + 1), n + 1) == [x % 256] + LowBytes(Bits(x / 256, n), n)
  {
    assert Power256(0) == 1 && Power256(1) == 256 && Power256(2) == 0x1_0000 && Power256(3) == 0x100_0000 && Power256(4) == 0x1_0000_0000;
    var y, b := x / 256, x % 256;
    match n
    case 0 =>
    case 1 => Down(x, y / 256, y % 256, b, 256);
    case 2 => Down(x, y / 0x1_0000, y % 0x1_0000, b, 0x1_0000);
    case 3 => Down(x, y / 0x100_0000, y % 0x100_0000, b, 0x100_0000);
  }

  lemma Down(x: int, h: int, l: int, b: int, p: int)
    requires p in {256, 0x1_0000, 0x100_0000} && x == 256 * (h * p + l) + b && 0 <= l < p && 0 <= b < 256
    ensures x % (256 * p) == 256 * l + b && (256 * l + b) % 256 == b && (256 * l + b) / 256 == l
  {
  }

  method PutText(ap: array<Byte>, q: nat, s: seq<Byte>)
    requires q + |s| <= ap.Length
    modifies ap
    ensures ap[q..q + |s|] == s
    ensures forall j :: 0 <= j < q || q + |s| <= j < ap.Length ==> ap[j] == old(ap[j])
  {
    for k := 0 to |s|
      invariant ap[q..q + k] == s[..k]
      invariant forall j :: 0 <= j < q || q + k <= j < ap.Length ==> ap[j] == old(ap[j])
    {
      ap[q + k] := s[k];
      assert ap[q..q + k + 1] == ap[q..q + k] + [s[k]];
    }
  }

  // ----- the length of what is there

  /**
   What the decoder answers for the n bytes at the front of a: 0 for a message that is not all
   there, -1 for a type there is none of, and else its length. Past the end of the table of
   lengths it finds whatever is stored there.
   */
  function Verdict(a: seq<Byte>, n: nat, past: int): int
    requires n <= |a| && 121 <= |a|
  {
    if n < 3 || n < (if a[0] < 30 then MSGLEN[a[0]] else past) then 0
    else if !Known(a[0]) then -1
    else if HasData(a[0]) && n < HeadLen(a[0]) + DataLen(a, a[0]) then 0
    else HeadLen(a[0]) + DataLen(a, a[0])
  }

  /** What a message of type t says in its head of the length of its data. */
  function DataLen(a: seq<Byte>, t: int): nat {
    if HasData(t) && HeadLen(t) <= |a| then
      HeadLengths(t);
      Short16(a, HeadLen(t) - 3)
    else 0
  }

  /** A message that is there whole is found, however much follows. */
  lemma WholeIsFound(c: Call, s: seq<Byte>, a: seq<Byte>, n: nat, past: int)
    requires n <= |a| && 121 <= |a| && Message(c, s) && |s| <= n && s == a[..|s|]
    ensures Verdict(a, n, past) == |s|
  {
    hide Shown, Widths, HeadLen;
    MessageLen(c, s);
    TableLengths(c.mtype);
    HeadLengths(c.mtype);
    assert a[0] == s[0];
    if HasData(c.mtype) {
      CountShown(c, s[1..HeadLen(c.mtype)]);
      SameCount(c, s, a, |s|, HeadLen(c.mtype));
    }
  }

  /**
   Of a message that is only begun, the decoder takes nothing, whatever the rest of the buffer
   holds; but for an attach message, of which it takes more than is there from the third byte on.
   */
  lemma BegunIsRefused(c: Call, s: seq<Byte>, a: seq<Byte>, n: nat, past: int)
    requires n <= |a| && 121 <= |a| && Message(c, s) && n < |s| && s[..n] == a[..n]
    ensures Verdict(a, n, past) == if IsAttach(c.mtype) && 3 <= n then |s| else 0
  {
    hide Shown, Widths, HeadLen;
    MessageLen(c, s);
    TableLengths(c.mtype);
    HeadLengths(c.mtype);
    var h := HeadLen(c.mtype);
    if n >= 3 {
      assert a[0] == s[..n][0] == s[0];
      if HasData(c.mtype) && n >= h {
        CountShown(c, s[1..h]);
        SameCount(c, s, a, n, h);
      }
    }
  }

  lemma SameCount(c: Call, s: seq<Byte>, a: seq<Byte>, n: nat, h: nat)
    requires 8 <= h <= n <= |s| && n <= |a| && s[..n] == a[..n] && Number(s[1..h][h - 4..h - 2]) == c.count
    ensures Short16(a, h - 3) == c.count
  {
    hide Number, Short16;
    ShortNumber(a, h - 3);
    var b, d := s[1..h][h - 4..h - 2], a[h - 3..h - 1];
    forall k | 0 <= k < 2 ensures b[k] == d[k] {
      assert b[k] == s[h - 3 + k] == s[..n][h - 3 + k] == a[..n][h - 3 + k] == d[k];
    }
    assert b == d;
  }

  /**
   Fills f from the n bytes at the front of ap and returns the length of the message there, 0 if
   it is not all there, or -1 for a type there is none of.
   */
  method ConvM2S(ap: array<Byte>, f: Fcall, n: nat, past: int) returns (cn: int)
    requires n <= ap.Length && 121 <= ap.Length
    modifies f
    ensures cn == Verdict(ap[..], n, past)
    ensures cn > 0 ==> cn <= ap.Length && Message(f.Value(), ap[..cn])
  {
    hide Widths, HeadLen, Shown, Layout;
    if n < 3 { return 0; }
    f.mtype := ap[0];
    f.tag := Short16(ap[..], 1);
    if Known(f.mtype) { Started(f, ap[..]); }
    if n < (if f.mtype < 30 then MSGLEN[f.mtype] else past) { return 0; }
    if !Known(f.mtype) { return -1; }
    TableLengths(f.mtype);
    HeadLengths(f.mtype);
    var p := TakeBody(f, ap, 3, n);
    if p == 0 { return 0; }
    cn := p;
    Finished(f, ap[..], cn);
    assert ap[..cn] == ap[..][..cn];
  }

  lemma Started(f: Fcall, a: seq<Byte>)
    requires 3 <= |a| && a[0] == f.mtype && f.tag == Short16(a, 1) && Known(f.mtype)
    ensures f.Taken(a, 3, 1)
  {
    ShortNumber(a, 1);
    var ps := Layout(f.mtype)[..1];
    assert ps[0] == Tag && ps[..0] == [] && a[1..3][..0] == [] && a[1..3][0..] == a[1..3];
  }

  lemma Finished(f: Fcall, a: seq<Byte>, cn: nat)
    requires f.Taken(a, cn, |Layout(f.mtype)|) && Known(f.mtype)
    ensures Message(f.Value(), a[..cn])
  {
    var ps := Layout(f.mtype);
    assert ps[..|ps|] == ps && a[..cn][1..] == a[1..cn];
  }

  /** What comes behind the tag. */
  method TakeBody(f: Fcall, ap: array<Byte>, at: nat, n: nat) returns (p: nat)
    requires Known(f.mtype) && at == 3 && n <= ap.Length && 121 <= ap.Length && f.Taken(ap[..], at, 1)
    requires IsAttach(f.mtype) || HeadLen(f.mtype) <= n
    modifies f
    ensures f.mtype == old(f.mtype)
    ensures p == if HasData(f.mtype) && n < HeadLen(f.mtype) + DataLen(ap[..], f.mtype) then 0 else HeadLen(f.mtype) + DataLen(ap[..], f.mtype)
    ensures p > 0 ==> f.Taken(ap[..], p, |Layout(f.mtype)|)
  {
    hide Widths, HeadLen, Fcall.Taken, Short16;
    HeadLengths(f.mtype);
    p := at;
    match f.mtype
    case 0 =>  // Tnop
    case 1 =>  // Rnop
    case 5 =>  // Rflush
    case 3 =>  // Rerror
      p := f.GetNext(ap, p, Ename, 1);
    case 4 =>  // Tflush
      p := f.GetNext(ap, p, Oldtag, 1);
    case _ =>
      p := f.GetNext(ap, p, Fid, 1);
      if f.mtype % 2 == 0 {
        p := TakeRequest(f, ap, p, n);
      } else {
        p := TakeReply(f, ap, p, n);
      }
  }

  method TakeWrite(f: Fcall, ap: array<Byte>, at: nat, n: nat) returns (p: nat)
    requires f.mtype == TWRITE && at == 5 && n <= ap.Length && 121 <= ap.Length && f.Taken(ap[..], at, 2)
    requires HeadLen(f.mtype) <= n
    modifies f
    ensures f.mtype == old(f.mtype)
    ensures p == if n < HeadLen(f.mtype) + DataLen(ap[..], f.mtype) then 0 else HeadLen(f.mtype) + DataLen(ap[..], f.mtype)
    ensures p > 0 ==> f.Taken(ap[..], p, |Layout(f.mtype)|)
  {
    hide Widths, HeadLen, Fcall.Taken, Short16;
    HeadLengths(f.mtype);
    TableLengths(f.mtype);
    p := at;
    p := f.GetNext(ap, p, Offset, 2);
    p := f.GetNext(ap, p, Count, 3);
    if n < MSGLEN[f.mtype] + f.count { return 0; }
    p := f.GetNext(ap, p, Pad, 4);
    p := f.GetNext(ap, p, Data, 5);
  }

  /** What comes behind the fid of a request. */
  method TakeRequest(f: Fcall, ap: array<Byte>, at: nat, n: nat) returns (p: nat)
    requires Known(f.mtype) && f.mtype % 2 == 0 && 6 <= f.mtype && at == 5 && n <= ap.Length && 121 <= ap.Length && f.Taken(ap[..], at, 2)
    requires IsAttach(f.mtype) || HeadLen(f.mtype) <= n
    modifies f
    ensures f.mtype == old(f.mtype)
    ensures p == if HasData(f.mtype) && n < HeadLen(f.mtype) + DataLen(ap[..], f.mtype) then 0 else HeadLen(f.mtype) + DataLen(ap[..], f.mtype)
    ensures p > 0 ==> f.Taken(ap[..], p, |Layout(f.mtype)|)
  {
    hide Widths, HeadLen, Fcall.Taken, Short16;
    HeadLengths(f.mtype);
    p := at;
    match f.mtype
    case 6 =>  // Tclone
      p := f.GetNext(ap, p, Newfid, 2);
    case 8 =>  // Twalk
      p := f.GetNext(ap, p, Name, 2);
    case 10 =>  // Topen
      p := f.GetNext(ap, p, Mode, 2);
    case 12 =>  // Tcreate
      p := f.GetNext(ap, p, Name, 2);
      p := f.GetNext(ap, p, Perm, 3);
      p := f.GetNext(ap, p, Mode, 4);
    case 14 =>  // Tread
      p := f.GetNext(ap, p, Offset, 2);
      p := f.GetNext(ap, p, Count, 3);
    case 16 =>  // Twrite
      p := TakeWrite(f, ap, p, n);
    case 24 =>  // Twstat
      p := f.GetNext(ap, p, Stat, 2);
    case 28 =>  // Tattach
      p := f.GetNext(ap, p, Uname, 2);
      p := f.GetNext(ap, p, Aname, 3);
    case _ =>
  }

  /** What comes behind the fid of a reply. */
  method TakeReply(f: Fcall, ap: array<Byte>, at: nat, n: nat) returns (p: nat)
    requires Known(f.mtype) && f.mtype % 2 == 1 && 7 <= f.mtype && at == 5 && n <= ap.Length && 121 <= ap.Length && f.Taken(ap[..], at, 2)
    requires IsAttach(f.mtype) || HeadLen(f.mtype) <= n
    modifies f
    ensures f.mtype == old(f.mtype)
    ensures p == if HasData(f.mtype) && n < HeadLen(f.mtype) + DataLen(ap[..], f.mtype) then 0 else HeadLen(f.mtype) + DataLen(ap[..], f.mtype)
    ensures p > 0 ==> f.Taken(ap[..], p, |Layout(f.mtype)|)
  {
    hide Widths, HeadLen, Fcall.Taken, Short16;
    HeadLengths(f.mtype);
    TableLengths(f.mtype);
    p := at;
    match f.mtype
    case 15 =>  // Rread
      p := f.GetNext(ap, p, Count, 2);
      if n < MSGLEN[f.mtype] + f.count { return 0; }
      p := f.GetNext(ap, p, Pad, 3);
      p := f.GetNext(ap, p, Data, 4);
    case 17 =>  // Rwrite
      p := f.GetNext(ap, p, Count, 2);
    case 23 =>  // Rstat
      p := f.GetNext(ap, p, Stat, 2);
    case 7 =>  // Rclone
    case 19 =>  // Rclunk
    case 21 =>  // Rremove
    case 25 =>  // Rwstat
    case _ =>
      p := f.GetNext(ap, p, Path, 2);
      p := f.GetNext(ap, p, Vers, 3);
  }

  /**
   Writes the message of f to ap and returns its length, or -1 for a type there is none of. The
   pad byte before data is left as it was.
   */
  method ConvS2M(f: Fcall, ap: array<Byte>) returns (n: int)
    requires HasItsData(f.Value())
    requires 3 <= ap.Length && HeadLen(f.mtype) + (if HasData(f.mtype) then f.count else 0) <= ap.Length
    modifies ap
    ensures n == if Known(f.mtype) then |f.Sent(old(ap[..]))| else -1
    ensures n > 0 ==> n <= ap.Length && ap[..n] == f.Sent(old(ap[..])) && ap[n..] == old(ap[n..])
    ensures n <= 0 ==> ap[0] == f.mtype && ap[1..3] == LowBytes(f.tag, 2) && ap[3..] == old(ap[3..])
  {
    hide Widths, Wires, HeadLen, LowBytes, Bits;
    ghost var before := ap[..];
    ap[0] := f.mtype;
    if !Known(f.mtype) {
      PutShort(ap, 1, f.tag);
      Bits16(f.tag);
      return -1;
    }
    Nothing(f, ap[..], before);
    HeadLengths(f.mtype);
    var p := f.PutNext(ap, 1, Tag, before, 0);
    p := SendBody(f, ap, p, before);
    n := p;
    Everything(f, ap[..], before, p);
  }

  lemma Nothing(f: Fcall, now: seq<Byte>, before: seq<Byte>)
    requires HasItsData(f.Value()) && 1 <= |now| && |now| == |before| && now[0] == f.mtype && now[1..] == before[1..]
    ensures f.Sofar(now, before, 1, 0)
  {
  }

  lemma Everything(f: Fcall, now: seq<Byte>, before: seq<Byte>, p: nat)
    requires HasItsData(f.Value()) && f.Sofar(now, before, p, |Layout(f.mtype)|)
    ensures 0 < p <= |now| && |now| == |before| && now[..p] == f.Sent(before) && now[p..] == before[p..]
  {
    hide Widths, Wires, Layout;
    var ps := Layout(f.mtype);
    assert ps[..|ps|] == ps;
    assert now[..p] == [f.mtype] + now[1..p];
  }

  /** What comes behind the tag. */
  method SendBody(f: Fcall, ap: array<Byte>, at: nat, ghost before: seq<Byte>) returns (p: nat)
    requires HasItsData(f.Value()) && Known(f.mtype) && at == 3
    requires HeadLen(f.mtype) + (if HasData(f.mtype) then f.count else 0) <= ap.Length && (HasData(f.mtype) ==> 0 <= f.count) && f.Sofar(ap[..], before, at, 1)
    modifies ap
    ensures f.Sofar(ap[..], before, p, |Layout(f.mtype)|)
  {
    hide Widths, Wires, HeadLen, Fcall.Sofar, Fcall.Value, HasItsData;
    HeadLengths(f.mtype);
    p := at;
    match f.mtype
    case 0 =>  // Tnop
    case 1 =>  // Rnop
    case 5 =>  // Rflush
    case 3 =>  // Rerror
      p := f.PutNext(ap, p, Ename, before, 1);
    case 4 =>  // Tflush
      p := f.PutNext(ap, p, Oldtag, before, 1);
    case _ =>
      p := f.PutNext(ap, p, Fid, before, 1);
      if f.mtype % 2 == 0 {
        p := SendRequest(f, ap, p, before);
      } else {
        p := SendReply(f, ap, p, before);
      }
  }

  method SendWrite(f: Fcall, ap: array<Byte>, at: nat, ghost before: seq<Byte>) returns (p: nat)
    requires HasItsData(f.Value()) && f.mtype == TWRITE && at == 5
    requires HeadLen(f.mtype) + f.count <= ap.Length && 0 <= f.count && f.Sofar(ap[..], before, at, 2)
    modifies ap
    ensures f.Sofar(ap[..], before, p, |Layout(f.mtype)|)
  {
    hide Widths, Wires, HeadLen, Fcall.Sofar, Fcall.Value, HasItsData;
    HeadLengths(f.mtype);
    p := at;
    p := f.PutNext(ap, p, Offset, before, 2);
    p := f.PutNext(ap, p, Count, before, 3);
    p := f.PutNext(ap, p, Pad, before, 4);
    p := f.PutNext(ap, p, Data, before, 5);
  }

  /** What comes behind the fid of a request. */
  method SendRequest(f: Fcall, ap: array<Byte>, at: nat, ghost before: seq<Byte>) returns (p: nat)
    requires HasItsData(f.Value()) && Known(f.mtype) && f.mtype % 2 == 0 && 6 <= f.mtype && at == 5
    requires HeadLen(f.mtype) + (if HasData(f.mtype) then f.count else 0) <= ap.Length && (HasData(f.mtype) ==> 0 <= f.count) && f.Sofar(ap[..], before, at, 2)
    modifies ap
    ensures f.Sofar(ap[..], before, p, |Layout(f.mtype)|)
  {
    hide Widths, Wires, HeadLen, Fcall.Sofar, Fcall.Value, HasItsData;
    HeadLengths(f.mtype);
    p := at;
    match f.mtype
    case 6 =>  // Tclone
      p := f.PutNext(ap, p, Newfid, before, 2);
    case 8 =>  // Twalk
      p := f.PutNext(ap, p, Name, before, 2);
    case 10 =>  // Topen
      p := f.PutNext(ap, p, Mode, before, 2);
    case 12 =>  // Tcreate
      p := f.PutNext(ap, p, Name, before, 2);
      p := f.PutNext(ap, p, Perm, before, 3);
      p := f.PutNext(ap, p, Mode, before, 4);
    case 14 =>  // Tread
      p := f.PutNext(ap, p, Offset, before, 2);
      p := f.PutNext(ap, p, Count, before, 3);
    case 16 =>  // Twrite
      p := SendWrite(f, ap, p, before);
    case 24 =>  // Twstat
      p := f.PutNext(ap, p, Stat, before, 2);
    case 28 =>  // Tattach
      p := f.PutNext(ap, p, Uname, before, 2);
      p := f.PutNext(ap, p, Aname, before, 3);
    case _ =>
  }

  /** What comes behind the fid of a reply. */
  method SendReply(f: Fcall, ap: array<Byte>, at: nat, ghost before: seq<Byte>) returns (p: nat)
    requires HasItsData(f.Value()) && Known(f.mtype) && f.mtype % 2 == 1 && 7 <= f.mtype && at == 5
    requires HeadLen(f.mtype) + (if HasData(f.mtype) then f.count else 0) <= ap.Length && (HasData(f.mtype) ==> 0 <= f.count) && f.Sofar(ap[..], before, at, 2)
    modifies ap
    ensures f.Sofar(ap[..], before, p, |Layout(f.mtype)|)
  {
    hide Widths, Wires, HeadLen, Fcall.Sofar, Fcall.Value, HasItsData;
    HeadLengths(f.mtype);
    p := at;
    match f.mtype
    case 15 =>  // Rread
      p := f.PutNext(ap, p, Count, before, 2);
      p := f.PutNext(ap, p, Pad, before, 3);
      p := f.PutNext(ap, p, Data, before, 4);
    case 17 =>  // Rwrite
      p := f.PutNext(ap, p, Count, before, 2);
    case 23 =>  // Rstat
      p := f.PutNext(ap, p, Stat, before, 2);
    case 7 =>  // Rclone
    case 19 =>  // Rclunk
    case 21 =>  // Rremove
    case 25 =>  // Rwstat
    case _ =>
      p := f.PutNext(ap, p, Path, before, 2);
      p := f.PutNext(ap, p, Vers, before, 3);
  }
}
