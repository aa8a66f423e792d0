/**
 Styx messages: what each type carries and in which order, how many bytes that takes, and why
 no message is the beginning of another.
 */
module StyxMessage {
  import opened Octets

  const NAMELEN := 28
  const ERRLEN := 64
  const DIRLEN := 116

  const TREAD := 14
  const RREAD := 15
  const TWRITE := 16
  const RWRITE := 17
  const TATTACH := 28
  const RATTACH := 29

  type Short = x: int | -0x8000 <= x < 0x8000
  type Ushort = x: int | 0 <= x < 0x1_0000
  type Long = x: int | -0x8000_0000 <= x < 0x8000_0000
  type Ulong = x: int | 0 <= x < 0x1_0000_0000
  type NameText = s: seq<Byte> | |s| == NAMELEN witness seq(NAMELEN, _ => 0)
  type ErrText = s: seq<Byte> | |s| == ERRLEN witness seq(ERRLEN, _ => 0)
  type DirText = s: seq<Byte> | |s| == DIRLEN witness seq(DIRLEN, _ => 0)

  datatype Call = Call(mtype: Byte, tag: Ushort, fid: Short, oldtag: Ushort, newfid: Short, path: Ulong, vers: Ulong,
                       uname: NameText, aname: NameText, ename: ErrText, name: NameText, perm: Long, mode: Byte,
                       offset: Long, count: Long, data: seq<Byte>, stat: DirText)

  datatype Part = Tag | Fid | Oldtag | Newfid | Path | Vers | Uname | Aname | Ename | Name | Perm | Mode | Offset | Count | Pad | Data | Stat

  /** What follows the type byte, as the protocol's manual lists it. */
  function Layout(t: int): seq<Part> {
    match t
    case 0 => [Tag]  // Tnop
    case 1 => [Tag]  // Rnop
    case 3 => [Tag, Ename]  // Rerror
    case 4 => [Tag, Oldtag]  // Tflush
    case 5 => [Tag]  // Rflush
    case 6 => [Tag, Fid, Newfid]  // Tclone
    case 7 => [Tag, Fid]  // Rclone
    case 8 => [Tag, Fid, Name]  // Twalk
    case 9 => [Tag, Fid, Path, Vers]  // Rwalk
    case 10 => [Tag, Fid, Mode]  // Topen
    case 11 => [Tag, Fid, Path, Vers]  // Ropen
    case 12 => [Tag, Fid, Name, Perm, Mode]  // Tcreate
    case 13 => [Tag, Fid, Path, Vers]  // Rcreate
    case 14 => [Tag, Fid, Offset, Count]  // Tread
    case 15 => [Tag, Fid, Count, Pad, Data]  // Rread
    case 16 => [Tag, Fid, Offset, Count, Pad, Data]  // Twrite
    case 17 => [Tag, Fid, Count]  // Rwrite
    case 18 => [Tag, Fid]  // Tclunk
    case 19 => [Tag, Fid]  // Rclunk
    case 20 => [Tag, Fid]  // Tremove
    case 21 => [Tag, Fid]  // Rremove
    case 22 => [Tag, Fid]  // Tstat
    case 23 => [Tag, Fid, Stat]  // Rstat
    case 24 => [Tag, Fid, Stat]  // Twstat
    case 25 => [Tag, Fid]  // Rwstat
    case 28 => [Tag, Fid, Uname, Aname]  // Tattach
    case 29 => [Tag, Fid, Path, Vers]  // Rattach
    case _ => []
  }

  predicate Known(t: int) {
    Layout(t) != []
  }

  /** The messages that carry data, whose count precedes it. */
  predicate HasData(t: int) {
    t == RREAD || t == TWRITE
  }

  predicate IsAttach(t: int) {
    t == TATTACH || t == RATTACH
  }

  function Width(p: Part): nat {
    match p
    case Tag => 2
    case Fid => 2
    case Oldtag => 2
    case Newfid => 2
    case Path => 4
    case Vers => 4
    case Uname => NAMELEN
    case Aname => NAMELEN
    case Ename => ERRLEN
    case Name => NAMELEN
    case Perm => 4
    case Mode => 1
    case Offset => 8
    case Count => 2
    case Pad => 1
    case Data => 0
    case Stat => DIRLEN
  }

  function Widths(ps: seq<Part>): nat {
    if ps == [] then 0 else Widths(ps[..|ps| - 1]) + Width(ps[|ps| - 1])
  }

  /** The bytes of a message without its data. */
  function HeadLen(t: int): nat {
    1 + Widths(Layout(t))
  }

  /** The low bits of a signed number. */
  function Bits(x: int, n: nat): nat {
    x % Power256(n)
  }

  /** The number of n bytes whose top bit is the sign. */
  function Signed(u: nat, n: nat): int {
    if 2 * u < Power256(n) then u else u - Power256(n)
  }

  /** The bytes p is written as; the pad byte is not written and stays what it was. */
  function Written(c: Call, p: Part, pad: Byte): (s: seq<Byte>)
    requires p == Data ==> 0 <= c.count <= |c.data|
    ensures |s| == Width(p) + if p == Data then c.count else 0
  {
    match p
    case Tag => LowBytes(c.tag, 2)
    case Fid => LowBytes(Bits(c.fid, 2), 2)
    case Oldtag => LowBytes(c.oldtag, 2)
    case Newfid => LowBytes(Bits(c.newfid, 2), 2)
    case Path => LowBytes(c.path, 4)
    case Vers => LowBytes(c.vers, 4)
    case Uname => c.uname
    case Aname => c.aname
    case Ename => c.ename
    case Name => c.name
    case Perm => LowBytes(Bits(c.perm, 4), 4)
    case Mode => [c.mode]
    case Offset => LowBytes(Bits(c.offset, 4), 4) + [0, 0, 0, 0]
    case Count => LowBytes(Bits(c.count, 2), 2)
    case Pad => [pad]
    case Data => c.data[..c.count]
    case Stat => c.stat
  }

  /** The data of a message to send is there. */
  predicate HasItsData(c: Call) {
    HasData(c.mtype) ==> 0 <= c.count <= |c.data|
  }

  ghost function Wires(c: Call, ps: seq<Part>, pad: Byte): seq<Byte>
    requires Data in ps ==> 0 <= c.count <= |c.data|
  {
    if ps == [] then [] else Wires(c, ps[..|ps| - 1], pad) + Written(c, ps[|ps| - 1], pad)
  }

  /** The message as it is sent. */
  ghost function Wire(c: Call, pad: Byte): seq<Byte>
    requires HasItsData(c)
  {
    DataLast(c.mtype);
    [c.mtype] + Wires(c, Layout(c.mtype), pad)
  }

  lemma DataLast(t: int)
    ensures Data in Layout(t) <==> HasData(t)
    ensures Count in Layout(t) <==> HasData(t) || t == TREAD || t == RWRITE
  {
  }

  /** b can be read as part p of c: the pad and the high half of an offset may be anything. */
  predicate Shows(c: Call, p: Part, b: seq<Byte>) {
    match p
    case Tag => |b| == 2 && Number(b) == c.tag
    case Fid => |b| == 2 && Signed(Number(b), 2) == c.fid
    case Oldtag => |b| == 2 && Number(b) == c.oldtag
    case Newfid => |b| == 2 && Signed(Number(b), 2) == c.newfid
    case Path => |b| == 4 && Number(b) == c.path
    case Vers => |b| == 4 && Number(b) == c.vers
    case Uname => b == c.uname
    case Aname => b == c.aname
    case Ename => b == c.ename
    case Name => b == c.name
    case Perm => |b| == 4 && Signed(Number(b), 4) == c.perm
    case Mode => b == [c.mode]
    case Offset => |b| == 8 && Signed(Number(b[..4]), 4) == c.offset
    case Count => |b| == 2 && Number(b) == c.count
    case Pad => |b| == 1
    case Data => |b| == c.count && b == c.data
    case Stat => b == c.stat
  }

  /** s is the parts of c one after the other. */
  predicate Shown(c: Call, ps: seq<Part>, s: seq<Byte>) {
    if ps == [] then s == []
    else
      var p := ps[|ps| - 1];
      var w := Width(p) + if p == Data && c.count >= 0 then c.count else 0;
      w <= |s| && Shows(c, p, s[|s| - w..]) && Shown(c, ps[..|ps| - 1], s[..|s| - w])
  }

  /** s is a whole message that says c. */
  predicate Message(c: Call, s: seq<Byte>) {
    Known(c.mtype) && 1 <= |s| && s[0] == c.mtype && Shown(c, Layout(c.mtype), s[1..])
  }

  /** Both have the same in part p. */
  predicate Same(c: Call, d: Call, p: Part) {
    match p
    case Tag => c.tag == d.tag
    case Fid => c.fid == d.fid
    case Oldtag => c.oldtag == d.oldtag
    case Newfid => c.newfid == d.newfid
    case Path => c.path == d.path
    case Vers => c.vers == d.vers
    case Uname => c.uname == d.uname
    case Aname => c.aname == d.aname
    case Ename => c.ename == d.ename
    case Name => c.name == d.name
    case Perm => c.perm == d.perm
    case Mode => c.mode == d.mode
    case Offset => c.offset == d.offset
    case Count => c.count == d.count
    case Pad => true
    case Data => c.count == d.count && c.data == d.data
    case Stat => c.stat == d.stat
  }

  /** Both say the same: they are of one type and agree in every part of it. */
  predicate Agree(c: Call, d: Call) {
    c.mtype == d.mtype && forall p :: p in Layout(c.mtype) ==> Same(c, d, p)
  }

  // ----- what is written can be read

  lemma Widths24()
    ensures Power256(2) == 0x1_0000 && Power256(4) == 0x1_0000_0000
  {
    assert Power256(1) == 256 && Power256(3) == 256 * Power256(2);
  }

  lemma Unsigned16(x: Ushort)
    ensures Number(LowBytes(x, 2)) == x
  {
    Widths24();
    LowBytesNumber(x, 2);
  }

  lemma Unsigned32(x: Ulong)
    ensures Number(LowBytes(x, 4)) == x
  {
    Widths24();
    LowBytesNumber(x, 4);
  }

  lemma Signed16(x: Short)
    ensures Signed(Number(LowBytes(Bits(x, 2), 2)), 2) == x
  {
    Widths24();
    LowBytesNumber(Bits(x, 2), 2);
  }

  lemma Signed32(x: Long)
    ensures Signed(Number(LowBytes(Bits(x, 4), 4)), 4) == x
  {
    Widths24();
    LowBytesNumber(Bits(x, 4), 4);
  }

  lemma Counted(x: Long)
    ensures Number(LowBytes(Bits(x, 2), 2)) == x <==> 0 <= x < 0x1_0000
  {
    Widths24();
    LowBytesNumber(Bits(x, 2), 2);
  }

  lemma WrittenShows(c: Call, p: Part, pad: Byte)
    requires p == Data ==> c.count == |c.data|
    ensures Shows(c, p, Written(c, p, pad)) <==> (p == Count ==> 0 <= c.count < 0x1_0000)
  {
    hide Number, LowBytes, Power256, Bits, Signed;
    match p
    case Tag => Unsigned16(c.tag);
    case Fid => Signed16(c.fid);
    case Oldtag => Unsigned16(c.oldtag);
    case Newfid => Signed16(c.newfid);
    case Path => Unsigned32(c.path);
    case Vers => Unsigned32(c.vers);
    case Perm => Signed32(c.perm);
    case Offset =>
      Signed32(c.offset);
      assert Written(c, p, pad)[..4] == LowBytes(Bits(c.offset, 4), 4);
    case Count => Counted(c.count);
    case _ =>
  }

  lemma {:induction false} WiresShown(c: Call, ps: seq<Part>, pad: Byte)
    requires Data in ps ==> c.count == |c.data|
    ensures Shown(c, ps, Wires(c, ps, pad)) <==> (Count in ps ==> 0 <= c.count < 0x1_0000)
  {
    if ps == [] {
    } else {
      hide Written, Shows;
      var p, front := ps[|ps| - 1], ps[..|ps| - 1];
      var s := Wires(c, ps, pad);
      var w := |Written(c, p, pad)|;
      WiresShown(c, front, pad);
      WrittenShows(c, p, pad);
      assert s[|s| - w..] == Written(c, p, pad) && s[..|s| - w] == Wires(c, front, pad);
    }
  }

  /** The count fits the two bytes it is sent in. */
  predicate CountFits(c: Call) {
    Count in Layout(c.mtype) ==> 0 <= c.count < 0x1_0000
  }

  /** What is sent says what was to be said, exactly when the count fits. */
  lemma WireIsMessage(c: Call, pad: Byte)
    requires Known(c.mtype) && (HasData(c.mtype) ==> c.count == |c.data|)
    ensures Message(c, Wire(c, pad)) <==> CountFits(c)
  {
    hide Shown, Wires;
    DataLast(c.mtype);
    WiresShown(c, Layout(c.mtype), pad);
    assert Wire(c, pad)[1..] == Wires(c, Layout(c.mtype), pad);
  }

  // ----- no message begins another

  lemma ShowsOnce(c: Call, d: Call, p: Part, b: seq<Byte>)
    requires Shows(c, p, b) && Shows(d, p, b)
    ensures Same(c, d, p)
  {
  }

  lemma {:induction false} ShownLen(c: Call, ps: seq<Part>, s: seq<Byte>)
    requires Shown(c, ps, s) && Data !in ps
    ensures |s| == Widths(ps)
  {
    if ps == [] {
    } else {
      hide Shows;
      ShownLen(c, ps[..|ps| - 1], s[..|s| - Width(ps[|ps| - 1])]);
    }
  }

  /** The parts without data are read in one way only. */
  lemma {:induction false} ShownOnce(c: Call, d: Call, ps: seq<Part>, s: seq<Byte>)
    requires Shown(c, ps, s) && Shown(d, ps, s) && Data !in ps
    ensures forall p :: p in ps ==> Same(c, d, p)
  {
    if ps == [] {
    } else {
      hide Shows, Same;
      var p, front := ps[|ps| - 1], ps[..|ps| - 1];
      ShownOnce(c, d, front, s[..|s| - Width(p)]);
      ShowsOnce(c, d, p, s[|s| - Width(p)..]);
      forall q | q in ps ensures Same(c, d, q) {
        assert q == p || q in front;
      }
    }
  }

  /** The bytes of a whole message: its head and, where there is data, as much as its count says. */
  lemma MessageLen(c: Call, s: seq<Byte>)
    requires Message(c, s)
    ensures |s| == HeadLen(c.mtype) + if HasData(c.mtype) then c.count else 0
    ensures HasData(c.mtype) ==> 0 <= c.count && Shown(c, Head(c.mtype), s[1..HeadLen(c.mtype)]) && c.data == s[HeadLen(c.mtype)..]
  {
    hide Shows;
    var ps, b := Layout(c.mtype), s[1..];
    DataLast(c.mtype);
    if HasData(c.mtype) {
      assert Data !in Head(c.mtype) && ps[..|ps| - 1] == Head(c.mtype) && ps[|ps| - 1] == Data;
      CountShown(c, b[..|b| - if c.count >= 0 then c.count else 0]);
      ShownLen(c, Head(c.mtype), b[..|b| - c.count]);
      assert b[..|b| - c.count] == s[1..HeadLen(c.mtype)];
      DataShown(c, b[|b| - c.count..]);
      assert b[|b| - c.count..] == s[HeadLen(c.mtype)..];
    } else {
      ShownLen(c, ps, b);
    }
  }

  /** The parts before the data. */
  function Head(t: int): seq<Part> {
    var ps := Layout(t);
    if HasData(t) then ps[..|ps| - 1] else ps
  }

  lemma DataShown(c: Call, b: seq<Byte>)
    requires Shows(c, Data, b)
    ensures b == c.data
  {
  }

  lemma CountShown(c: Call, s: seq<Byte>)
    requires HasData(c.mtype) && Shown(c, Head(c.mtype), s)
    ensures |s| >= 3 && Number(s[|s| - 3..|s| - 1]) == c.count
  {
    hide Number, Shown;
    CountBeforePad(c, Head(c.mtype), s);
  }

  lemma CountBeforePad(c: Call, ps: seq<Part>, s: seq<Byte>)
    requires |ps| >= 2 && ps[|ps| - 2] == Count && ps[|ps| - 1] == Pad && Shown(c, ps, s)
    ensures |s| >= 3 && Number(s[|s| - 3..|s| - 1]) == c.count
  {
    hide Number;
    var d := s[..|s| - 1];
    assert Shown(c, ps[..|ps| - 1], d);
    assert ps[..|ps| - 1][|ps| - 2] == Count && d[|d| - 2..] == s[|s| - 3..|s| - 1];
  }

  /**
   Where two messages begin the same bytes, they are the same bytes, and both say the same: no
   message is the beginning of another.
   */
  lemma MessageOnce(c: Call, d: Call, s: seq<Byte>, t: seq<Byte>, u: seq<Byte>)
    requires Message(c, s) && Message(d, t) && s <= u && t <= u
    ensures s == t && Agree(c, d)
  {
    hide Shown, Same, Widths;
    assert s[0] == u[0] == t[0];
    MessageLen(c, s);
    MessageLen(d, t);
    var h := HeadLen(c.mtype);
    if HasData(c.mtype) {
      assert s[1..h] == u[1..h] == t[1..h];
      ShownOnce(c, d, Head(c.mtype), s[1..h]);
      DataAgree(c, d, s, t, u);
    } else {
      assert s == u[..h] == t;
      ShownOnce(c, d, Layout(c.mtype), s[1..]);
    }
  }

  lemma DataAgree(c: Call, d: Call, s: seq<Byte>, t: seq<Byte>, u: seq<Byte>)
    requires HasData(c.mtype) && c.mtype == d.mtype && 0 <= c.count && 0 <= d.count && s <= u && t <= u
    requires |s| == HeadLen(c.mtype) + c.count && |t| == HeadLen(c.mtype) + d.count
    requires c.data == s[HeadLen(c.mtype)..] && d.data == t[HeadLen(c.mtype)..]
    requires forall p :: p in Head(c.mtype) ==> Same(c, d, p)
    ensures s == t && Agree(c, d)
  {
    hide Widths;
    var ps := Layout(c.mtype);
    assert Head(c.mtype)[|ps| - 3] == Count;
    assert Count in Head(c.mtype) && Same(c, d, Count);
    assert s == u[..|s|] == t;
    forall p | p in ps ensures Same(c, d, p) {
      assert p == Data || p in Head(c.mtype);
    }
  }
}
