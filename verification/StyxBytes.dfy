/**
 The bytes of every Styx message, field by field: which field stands where is told here by type
 and place alone, and shown to be what the layouts, and so the encoder and the decoder, come to.
 */
module StyxBytes {
  import opened Octets
  import opened StyxMessage
  import opened StyxCodec

  /** The two low bytes of x stand at q, the lower first. */
  predicate ShortAt(s: seq<Byte>, q: nat, x: int) {
    q + 2 <= |s| && s[q] == x % 0x100 && s[q + 1] == x / 0x100 % 0x100
  }

  /** The four low bytes of x stand at q, the lowest first. */
  predicate LongAt(s: seq<Byte>, q: nat, x: int) {
    q + 4 <= |s| && s[q] == x % 0x100 && s[q + 1] == x / 0x100 % 0x100
    && s[q + 2] == x / 0x1_0000 % 0x100 && s[q + 3] == x / 0x100_0000 % 0x100
  }

  predicate TextAt(s: seq<Byte>, q: nat, t: seq<Byte>) {
    q + |t| <= |s| && s[q..q + |t|] == t
  }

  /** The fields of c stand where the protocol has them: requests. */
  predicate RequestStands(c: Call, s: seq<Byte>) {
    match c.mtype
    case 0 => |s| == 3
    case 4 => |s| == 5 && ShortAt(s, 3, c.oldtag)
    case 6 => |s| == 7 && ShortAt(s, 3, c.fid) && ShortAt(s, 5, c.newfid)
    case 8 => |s| == 33 && ShortAt(s, 3, c.fid) && TextAt(s, 5, c.name)
    case 10 => |s| == 6 && ShortAt(s, 3, c.fid) && s[5] == c.mode
    case 12 => |s| == 38 && ShortAt(s, 3, c.fid) && TextAt(s, 5, c.name) && LongAt(s, 33, c.perm) && s[37] == c.mode
    case 14 => |s| == 15 && ShortAt(s, 3, c.fid) && LongAt(s, 5, c.offset) && ShortAt(s, 13, c.count)
    case 16 => 0 <= c.count && |s| == 16 + c.count && ShortAt(s, 3, c.fid) && LongAt(s, 5, c.offset) && ShortAt(s, 13, c.count) && s[16..] <= c.data
    case 18 => |s| == 5 && ShortAt(s, 3, c.fid)
    case 20 => |s| == 5 && ShortAt(s, 3, c.fid)
    case 22 => |s| == 5 && ShortAt(s, 3, c.fid)
    case 24 => |s| == 121 && ShortAt(s, 3, c.fid) && TextAt(s, 5, c.stat)
    case 28 => |s| == 61 && ShortAt(s, 3, c.fid) && TextAt(s, 5, c.uname) && TextAt(s, 33, c.aname)
    case _ => false
  }

  /** The fields of c stand where the protocol has them: replies. */
  predicate ReplyStands(c: Call, s: seq<Byte>) {
    match c.mtype
    case 1 => |s| == 3
    case 3 => |s| == 67 && TextAt(s, 3, c.ename)
    case 5 => |s| == 3
    case 7 => |s| == 5 && ShortAt(s, 3, c.fid)
    case 9 => |s| == 13 && ShortAt(s, 3, c.fid) && LongAt(s, 5, c.path) && LongAt(s, 9, c.vers)
    case 11 => |s| == 13 && ShortAt(s, 3, c.fid) && LongAt(s, 5, c.path) && LongAt(s, 9, c.vers)
    case 13 => |s| == 13 && ShortAt(s, 3, c.fid) && LongAt(s, 5, c.path) && LongAt(s, 9, c.vers)
    case 15 => 0 <= c.count && |s| == 8 + c.count && ShortAt(s, 3, c.fid) && ShortAt(s, 5, c.count) && s[8..] <= c.data
    case 17 => |s| == 7 && ShortAt(s, 3, c.fid) && ShortAt(s, 5, c.count)
    case 19 => |s| == 5 && ShortAt(s, 3, c.fid)
    case 21 => |s| == 5 && ShortAt(s, 3, c.fid)
    case 23 => |s| == 121 && ShortAt(s, 3, c.fid) && TextAt(s, 5, c.stat)
    case 25 => |s| == 5 && ShortAt(s, 3, c.fid)
    case 29 => |s| == 13 && ShortAt(s, 3, c.fid) && LongAt(s, 5, c.path) && LongAt(s, 9, c.vers)
    case _ => false
  }

  predicate Stands(c: Call, s: seq<Byte>) {
    1 <= |s| && s[0] == c.mtype && ShortAt(s, 1, c.tag) && (RequestStands(c, s) || ReplyStands(c, s))
  }

  /** Where a part has its bytes. */
  predicate PartAt(c: Call, p: Part, s: seq<Byte>, q: nat) {
    match p
    case Tag => ShortAt(s, q, c.tag)
    case Fid => ShortAt(s, q, c.fid)
    case Oldtag => ShortAt(s, q, c.oldtag)
    case Newfid => ShortAt(s, q, c.newfid)
    case Path => LongAt(s, q, c.path)
    case Vers => LongAt(s, q, c.vers)
    case Uname => TextAt(s, q, c.uname)
    case Aname => TextAt(s, q, c.aname)
    case Ename => TextAt(s, q, c.ename)
    case Name => TextAt(s, q, c.name)
    case Perm => LongAt(s, q, c.perm)
    case Mode => q < |s| && s[q] == c.mode
    case Offset => q + 8 <= |s| && LongAt(s, q, c.offset)
    case Count => ShortAt(s, q, c.count) && 0 <= c.count < 0x1_0000
    case Pad => q < |s|
    case Data => |c.data| == c.count && TextAt(s, q, c.data)
    case Stat => TextAt(s, q, c.stat)
  }

  function Len(c: Call, p: Part): nat {
    Width(p) + if p == Data && c.count >= 0 then c.count else 0
  }

  lemma Short16Is(s: seq<Byte>, q: nat, x: int)
    requires q + 2 <= |s|
    ensures -0x8000 <= x < 0x8000 ==> (Sign16(Short16(s, q)) == x <==> ShortAt(s, q, x))
    ensures 0 <= x < 0x1_0000 ==> (Short16(s, q) == x <==> ShortAt(s, q, x))
  {
  }

  /** The last digit of x and the others, to the base 256. */
  lemma Digit(a: Byte, r: nat, x: int, m: nat)
    requires r < m
    ensures a + 0x100 * r == x % (0x100 * m) <==> a == x % 0x100 && r == x / 0x100 % m
  {
    ModStep(x, m);
  }

  lemma FourDigits(a: Byte, b: Byte, c: Byte, d: Byte, x: int)
    ensures a == x % 0x100 && b == x / 0x100 % 0x100 && c == x / 0x1_0000 % 0x100 && d == x / 0x100_0000 % 0x100
       <==> (a as int) + 0x100 * (b as int) + 0x1_0000 * (c as int) + 0x100_0000 * (d as int) == x % 0x1_0000_0000
  {
    var y := x / 0x100;
    var z := y / 0x100;
    assert z == x / 0x1_0000 && z / 0x100 == x / 0x100_0000;
    Digit(a, b + 0x100 * (c + 0x100 * d), x, 0x100_0000);
    Digit(b, c + 0x100 * d, y, 0x1_0000);
    Digit(c, d, z, 0x100);
  }

  lemma Long32Is(s: seq<Byte>, q: nat, x: int)
    requires q + 4 <= |s|
    ensures -0x8000_0000 <= x < 0x8000_0000 ==> (Sign32(Long32(s, q)) == x <==> LongAt(s, q, x))
    ensures 0 <= x < 0x1_0000_0000 ==> (Long32(s, q) == x <==> LongAt(s, q, x))
  {
    FourDigits(s[q], s[q + 1], s[q + 2], s[q + 3], x);
  }

  lemma ShowsAt(c: Call, p: Part, s: seq<Byte>, q: nat)
    requires q + Len(c, p) <= |s|
    ensures Shows(c, p, s[q..q + Len(c, p)]) <==> PartAt(c, p, s, q)
  {
    hide Number, Signed, Short16, Long32, Sign16, Sign32, ShortAt, LongAt;
    match p
    case Tag => ShortNumber(s, q); Short16Is(s, q, c.tag);
    case Fid => ShortNumber(s, q); Short16Is(s, q, c.fid);
    case Oldtag => ShortNumber(s, q); Short16Is(s, q, c.oldtag);
    case Newfid => ShortNumber(s, q); Short16Is(s, q, c.newfid);
    case Path => LongNumber(s, q); Long32Is(s, q, c.path);
    case Vers => LongNumber(s, q); Long32Is(s, q, c.vers);
    case Perm => LongNumber(s, q); Long32Is(s, q, c.perm);
    case Offset =>
      assert s[q..q + 8][..4] == s[q..q + 4];
      LongNumber(s, q); Long32Is(s, q, c.offset);
    case Count => ShortNumber(s, q); Short16Is(s, q, c.count);
    case _ =>
  }

  /** Where part i begins in a message. */
  function From(ps: seq<Part>, i: nat): nat
    requires i <= |ps|
  {
    1 + Widths(ps[..i])
  }

  /** The parts of c stand one behind the other. */
  ghost predicate AllAt(c: Call, ps: seq<Part>, s: seq<Byte>) {
    forall i :: 0 <= i < |ps| ==> PartAt(c, ps[i], s, From(ps, i))
  }

  function DataCount(c: Call, ps: seq<Part>): nat {
    if Data in ps && c.count >= 0 then c.count else 0
  }

  lemma {:induction false} ShownAt(c: Call, ps: seq<Part>, s: seq<Byte>)
    requires 1 <= |s| && forall i :: 0 <= i < |ps| - 1 ==> ps[i] != Data
    ensures Shown(c, ps, s[1..]) <==> |s| == From(ps, |ps|) + DataCount(c, ps) && AllAt(c, ps, s)
  {
    hide Shows, PartAt, Width;
    if ps == [] {
    } else {
      hide AllAt, From;
      var k := |ps| - 1;
      var p, front := ps[k], ps[..k];
      var w := Len(c, p);
      assert Data !in front;
      FromNext(ps, k);
      FromFront(ps, k);
      assert DataCount(c, ps) == w - Width(p);
      if w < |s| {
        var q := |s| - w;
        assert s[1..][|s[1..]| - w..] == s[q..q + w] && s[1..][..|s[1..]| - w] == s[..q][1..];
        ShownAt(c, front, s[..q]);
        ShowsAt(c, p, s, q);
        if q == From(ps, k) { AllAtFront(c, ps, s); }
      } else {
        FromPositive(ps, k);
      }
    }
  }

  lemma FromNext(ps: seq<Part>, i: nat)
    requires i < |ps|
    ensures From(ps, i + 1) == From(ps, i) + Width(ps[i])
  {
    hide Width;
    assert ps[..i + 1][..i] == ps[..i];
  }

  lemma FromPositive(ps: seq<Part>, i: nat)
    requires i <= |ps|
    ensures From(ps, i) >= 1
  {
  }

  lemma FromFront(ps: seq<Part>, i: nat)
    requires i < |ps|
    ensures From(ps[..|ps| - 1], i) == From(ps, i)
  {
    assert ps[..|ps| - 1][..i] == ps[..i];
  }

  /** All parts stand in s when all but the last do, in what is before the last, and the last does. */
  lemma AllAtFront(c: Call, ps: seq<Part>, s: seq<Byte>)
    requires |ps| > 0 && From(ps, |ps| - 1) <= |s| && forall i :: 0 <= i < |ps| - 1 ==> ps[i] != Data
    ensures AllAt(c, ps, s) <==> AllAt(c, ps[..|ps| - 1], s[..From(ps, |ps| - 1)]) && PartAt(c, ps[|ps| - 1], s, From(ps, |ps| - 1))
  {
    hide PartAt, From;
    var k := |ps| - 1;
    var front, q := ps[..k], From(ps, k);
    FromFront(ps, k);
    forall i | 0 <= i < k ensures PartAt(c, front[i], s[..q], From(front, i)) <==> PartAt(c, ps[i], s, From(ps, i)) {
      FromEnds(front, i);
      FromFront(ps, i);
      ShorterAt(c, ps[i], s, q, From(ps, i));
    }
  }

  lemma {:induction false} FromEnds(ps: seq<Part>, i: nat)
    requires i < |ps|
    ensures From(ps, i) + Width(ps[i]) <= From(ps, |ps|)
  {
    hide Width;
    assert ps[..i + 1][..i] == ps[..i];
    if i + 1 == |ps| {
      assert ps[..i + 1] == ps;
    } else {
      var front := ps[..|ps| - 1];
      FromEnds(front, i);
      assert front[..i] == ps[..i] && front[..|front|] == front && ps[..|ps|] == ps;
    }
  }

  lemma ShorterAt(c: Call, p: Part, s: seq<Byte>, q: nat, at: nat)
    requires p != Data && at + Width(p) <= q <= |s|
    ensures PartAt(c, p, s[..q], at) <==> PartAt(c, p, s, at)
  {
  }

  /** Where the parts begin, six at most. */
  lemma FromSix(ps: seq<Part>)
    requires |ps| <= 6
    ensures From(ps, 0) == 1 && (|ps| > 0 ==> From(ps, 1) == 1 + Width(ps[0])) && (|ps| > 1 ==> From(ps, 2) == From(ps, 1) + Width(ps[1]))
    ensures (|ps| > 2 ==> From(ps, 3) == From(ps, 2) + Width(ps[2])) && (|ps| > 3 ==> From(ps, 4) == From(ps, 3) + Width(ps[3]))
    ensures (|ps| > 4 ==> From(ps, 5) == From(ps, 4) + Width(ps[4])) && (|ps| > 5 ==> From(ps, 6) == From(ps, 5) + Width(ps[5]))
  {
    forall i | 0 <= i < |ps| ensures From(ps, i + 1) == From(ps, i) + Width(ps[i]) {
      FromNext(ps, i);
    }
  }

  lemma AllAtSix(c: Call, ps: seq<Part>, s: seq<Byte>)
    requires |ps| <= 6
    ensures AllAt(c, ps, s) <==>
      (|ps| > 0 ==> PartAt(c, ps[0], s, From(ps, 0))) && (|ps| > 1 ==> PartAt(c, ps[1], s, From(ps, 1)))
      && (|ps| > 2 ==> PartAt(c, ps[2], s, From(ps, 2))) && (|ps| > 3 ==> PartAt(c, ps[3], s, From(ps, 3)))
      && (|ps| > 4 ==> PartAt(c, ps[4], s, From(ps, 4))) && (|ps| > 5 ==> PartAt(c, ps[5], s, From(ps, 5)))
  {
    hide PartAt, From;
  }

  /** Which types there are: those the decoder's table has a length for, and both attach messages. */
  lemma KnownTypes(t: int)
    ensures 0 <= t < 26 ==> (Known(t) <==> MSGLEN[t] != 0)
    ensures !(0 <= t < 26) ==> (Known(t) <==> t == 28 || t == 29)
  {
  }

  /** The parts of c stand, each in its place, in s. */
  ghost predicate PartsStand(c: Call, s: seq<Byte>) {
    var ps := Layout(c.mtype);
    1 <= |s| && s[0] == c.mtype && |s| == From(ps, |ps|) + DataCount(c, ps) && AllAt(c, ps, s)
  }

  predicate CountRight(c: Call) {
    (c.mtype in {14, 15, 16, 17} ==> 0 <= c.count < 0x1_0000) && (c.mtype in {15, 16} ==> c.count == |c.data|)
  }

  lemma ShortParts(c: Call, s: seq<Byte>)
    requires c.mtype in {0, 1, 4, 5, 7, 18, 19, 20, 21, 22, 25}
    ensures PartsStand(c, s) <==> Stands(c, s) && CountRight(c)
  {
    hide ShortAt, LongAt, From, AllAt, Widths;
    var ps := Layout(c.mtype);
    FromSix(ps);
    AllAtSix(c, ps, s);
  }

  lemma RequestParts(c: Call, s: seq<Byte>)
    requires c.mtype in {6, 8, 10, 12, 24, 28}
    ensures PartsStand(c, s) <==> Stands(c, s) && CountRight(c)
  {
    hide ShortAt, LongAt, From, AllAt, Widths;
    var ps := Layout(c.mtype);
    FromSix(ps);
    AllAtSix(c, ps, s);
  }

  lemma ReplyParts(c: Call, s: seq<Byte>)
    requires c.mtype in {3, 9, 11, 13, 17, 23, 29}
    ensures PartsStand(c, s) <==> Stands(c, s) && CountRight(c)
  {
    hide ShortAt, LongAt, From, AllAt, Widths;
    var ps := Layout(c.mtype);
    FromSix(ps);
    AllAtSix(c, ps, s);
  }

  lemma DataParts(c: Call, s: seq<Byte>)
    requires c.mtype in {14, 15, 16}
    ensures PartsStand(c, s) <==> Stands(c, s) && CountRight(c)
  {
    hide ShortAt, LongAt, From, AllAt, Widths;
    var ps := Layout(c.mtype);
    FromSix(ps);
    AllAtSix(c, ps, s);
  }

  /**
   s is a whole message that says c exactly when every field stands where the protocol has it,
   whatever the pad and the high half of an offset are, and the count fits and is that of the data.
   */
  lemma MessageStands(c: Call, s: seq<Byte>)
    ensures Message(c, s) <==>
      Stands(c, s) && (c.mtype in {14, 15, 16, 17} ==> 0 <= c.count < 0x1_0000) && (c.mtype in {15, 16} ==> c.count == |c.data|)
  {
    hide Shown, PartAt, From, AllAt, ShortAt, LongAt, TextAt;
    if Known(c.mtype) && 1 <= |s| {
      ShownAt(c, Layout(c.mtype), s);
      hide Stands;
      if c.mtype in {14, 15, 16} {
        DataParts(c, s);
      } else if c.mtype in {6, 8, 10, 12, 24, 28} {
        RequestParts(c, s);
      } else if c.mtype in {3, 9, 11, 13, 17, 23, 29} {
        ReplyParts(c, s);
      } else {
        ShortParts(c, s);
      }
    }
  }

  lemma SameSix(c: Call, d: Call, ps: seq<Part>)
    requires |ps| <= 6
    ensures (forall p :: p in ps ==> Same(c, d, p)) <==>
      (|ps| > 0 ==> Same(c, d, ps[0])) && (|ps| > 1 ==> Same(c, d, ps[1])) && (|ps| > 2 ==> Same(c, d, ps[2]))
      && (|ps| > 3 ==> Same(c, d, ps[3])) && (|ps| > 4 ==> Same(c, d, ps[4])) && (|ps| > 5 ==> Same(c, d, ps[5]))
  {
    hide Same;
    assert forall i :: 0 <= i < |ps| ==> ps[i] in ps;
  }

  /** Field by field, c and d say the same. */
  predicate FieldsAgree(c: Call, d: Call) {
    c.mtype == d.mtype && c.tag == d.tag
    && (c.mtype !in {0, 1, 3, 4, 5} ==> c.fid == d.fid)
    && (c.mtype == 3 ==> c.ename == d.ename)
    && (c.mtype == 4 ==> c.oldtag == d.oldtag)
    && (c.mtype == 6 ==> c.newfid == d.newfid)
    && (c.mtype in {8, 12} ==> c.name == d.name)
    && (c.mtype in {9, 11, 13, 29} ==> c.path == d.path && c.vers == d.vers)
    && (c.mtype in {10, 12} ==> c.mode == d.mode)
    && (c.mtype == 12 ==> c.perm == d.perm)
    && (c.mtype in {14, 16} ==> c.offset == d.offset)
    && (c.mtype in {14, 15, 16, 17} ==> c.count == d.count)
    && (c.mtype in {15, 16} ==> c.data == d.data)
    && (c.mtype in {23, 24} ==> c.stat == d.stat)
    && (c.mtype == 28 ==> c.uname == d.uname && c.aname == d.aname)
  }

  lemma AgreeFirst(c: Call, d: Call)
    requires Known(c.mtype) && c.mtype <= 12
    ensures Agree(c, d) <==> FieldsAgree(c, d)
  {
    SameSix(c, d, Layout(c.mtype));
  }

  /** What it means that two records of a type the protocol has say the same. */
  lemma AgreeFields(c: Call, d: Call)
    requires Known(c.mtype)
    ensures Agree(c, d) <==> FieldsAgree(c, d)
  {
    if c.mtype <= 12 {
      AgreeFirst(c, d);
    } else {
      SameSix(c, d, Layout(c.mtype));
    }
  }

  // ----- what is sent

  /** Where a part is sent, the pad byte as it was. */
  predicate SentAt(c: Call, p: Part, pad: Byte, s: seq<Byte>, q: nat) {
    match p
    case Offset => q + 8 <= |s| && LongAt(s, q, c.offset) && s[q + 4..q + 8] == [0, 0, 0, 0]
    case Count => ShortAt(s, q, c.count)
    case Pad => q < |s| && s[q] == pad
    case Data => 0 <= c.count <= |c.data| && TextAt(s, q, c.data[..c.count])
    case _ => PartAt(c, p, s, q)
  }

  lemma ShortWritten(s: seq<Byte>, q: nat, x: int)
    requires q + 2 <= |s| && s[q..q + 2] == LowBytes(Bits(x, 2), 2)
    ensures ShortAt(s, q, x)
  {
    Widths24();
    LowBytesNumber(Bits(x, 2), 2);
    ShortNumber(s, q);
    Digit(s[q], s[q + 1], x, 0x100);
  }

  lemma LongWritten(s: seq<Byte>, q: nat, x: int)
    requires q + 4 <= |s| && s[q..q + 4] == LowBytes(Bits(x, 4), 4)
    ensures LongAt(s, q, x)
  {
    hide LowBytes, Number;
    Widths24();
    LowBytesNumber(Bits(x, 4), 4);
    LongNumber(s, q);
    FourDigits(s[q], s[q + 1], s[q + 2], s[q + 3], x);
  }

  lemma WrittenAt(c: Call, p: Part, pad: Byte, s: seq<Byte>, q: nat)
    requires p == Data ==> 0 <= c.count <= |c.data|
    requires q + |Written(c, p, pad)| <= |s| && s[q..q + |Written(c, p, pad)|] == Written(c, p, pad)
    ensures SentAt(c, p, pad, s, q)
  {
    hide LowBytes, Bits, ShortAt, LongAt;
    match p
    case Tag => Bits16(c.tag); ShortWritten(s, q, c.tag);
    case Fid => ShortWritten(s, q, c.fid);
    case Oldtag => Bits16(c.oldtag); ShortWritten(s, q, c.oldtag);
    case Newfid => ShortWritten(s, q, c.newfid);
    case Path => Bits32(c.path); LongWritten(s, q, c.path);
    case Vers => Bits32(c.vers); LongWritten(s, q, c.vers);
    case Perm => LongWritten(s, q, c.perm);
    case Offset =>
      var b := s[q..q + 8];
      assert b[..4] == s[q..q + 4] && b[4..] == s[q + 4..q + 8];
      LongWritten(s, q, c.offset);
    case Count => ShortWritten(s, q, c.count);
    case Pad => assert s[q..q + 1][0] == pad;
    case Mode => assert s[q..q + 1][0] == c.mode;
    case _ =>
  }

  lemma {:induction false} WiresLen(c: Call, ps: seq<Part>, pad: Byte)
    requires (Data in ps ==> 0 <= c.count <= |c.data|) && forall j :: 0 <= j < |ps| - 1 ==> ps[j] != Data
    ensures 1 + |Wires(c, ps, pad)| == From(ps, |ps|) + if Data in ps then c.count else 0
  {
    hide Written, Width;
    assert ps[..|ps|] == ps;
    if ps == [] {
    } else {
      var k := |ps| - 1;
      WiresLen(c, ps[..k], pad);
      assert Data !in ps[..k] && (Data in ps <==> ps[k] == Data);
      assert ps[..k][..k] == ps[..k];
    }
  }

  lemma {:induction false} WiresAt(c: Call, ps: seq<Part>, pad: Byte, i: nat)
    requires i < |ps| && (Data in ps ==> 0 <= c.count <= |c.data|) && forall j :: 0 <= j < |ps| - 1 ==> ps[j] != Data
    ensures ps[i] == Data ==> 0 <= c.count <= |c.data|
    ensures var s, w := [c.mtype] + Wires(c, ps, pad), Written(c, ps[i], pad);
            From(ps, i) + |w| <= |s| && s[From(ps, i)..From(ps, i) + |w|] == w
  {
    hide Written, Widths;
    var k := |ps| - 1;
    var front := ps[..k];
    assert Data !in front;
    var s, t := [c.mtype] + Wires(c, ps, pad), [c.mtype] + Wires(c, front, pad);
    assert s == t + Written(c, ps[k], pad);
    WiresLen(c, front, pad);
    assert front[..k] == front;
    if i < k {
      WiresAt(c, front, pad, i);
      assert front[..i] == ps[..i];
      assert s[..|t|] == t;
    }
  }

  ghost predicate AllSent(c: Call, ps: seq<Part>, pad: Byte, s: seq<Byte>) {
    forall i :: 0 <= i < |ps| ==> SentAt(c, ps[i], pad, s, From(ps, i))
  }

  lemma AllSentSix(c: Call, ps: seq<Part>, pad: Byte, s: seq<Byte>)
    requires |ps| <= 6 && AllSent(c, ps, pad, s)
    ensures (|ps| > 0 ==> SentAt(c, ps[0], pad, s, From(ps, 0))) && (|ps| > 1 ==> SentAt(c, ps[1], pad, s, From(ps, 1)))
    ensures (|ps| > 2 ==> SentAt(c, ps[2], pad, s, From(ps, 2))) && (|ps| > 3 ==> SentAt(c, ps[3], pad, s, From(ps, 3)))
    ensures (|ps| > 4 ==> SentAt(c, ps[4], pad, s, From(ps, 4))) && (|ps| > 5 ==> SentAt(c, ps[5], pad, s, From(ps, 5)))
  {
    hide SentAt, From;
  }

  lemma WireSent(c: Call, pad: Byte)
    requires Known(c.mtype) && HasItsData(c)
    ensures var s, ps := Wire(c, pad), Layout(c.mtype);
            |s| == From(ps, |ps|) + (if HasData(c.mtype) then c.count else 0) && s[0] == c.mtype && AllSent(c, ps, pad, s)
  {
    hide Written, Width, Wires, SentAt, Layout, From;
    var s, ps := Wire(c, pad), Layout(c.mtype);
    DataLast(c.mtype);
    forall j | 0 <= j < |ps| - 1 ensures ps[j] != Data { NoPartTwice(c.mtype, |ps| - 1, j); }
    WiresLen(c, ps, pad);
    forall i | 0 <= i < |ps| ensures SentAt(c, ps[i], pad, s, From(ps, i)) {
      WiresAt(c, ps, pad, i);
      WrittenAt(c, ps[i], pad, s, From(ps, i));
    }
  }

  lemma ShortSent(c: Call, pad: Byte, s: seq<Byte>)
    requires c.mtype in {0, 1, 4, 5, 7, 18, 19, 20, 21, 22, 25} && 1 <= |s| && s[0] == c.mtype
    requires |s| == From(Layout(c.mtype), |Layout(c.mtype)|) && AllSent(c, Layout(c.mtype), pad, s)
    ensures Stands(c, s)
  {
    hide ShortAt, LongAt, From, AllSent, Widths;
    FromSix(Layout(c.mtype));
    AllSentSix(c, Layout(c.mtype), pad, s);
  }

  lemma RequestSent(c: Call, pad: Byte, s: seq<Byte>)
    requires c.mtype in {6, 8, 10, 12, 14, 24, 28} && 1 <= |s| && s[0] == c.mtype
    requires |s| == From(Layout(c.mtype), |Layout(c.mtype)|) && AllSent(c, Layout(c.mtype), pad, s)
    ensures Stands(c, s) && (c.mtype == 14 ==> s[9..13] == [0, 0, 0, 0])
  {
    hide ShortAt, LongAt, From, AllSent, Widths;
    FromSix(Layout(c.mtype));
    AllSentSix(c, Layout(c.mtype), pad, s);
  }

  lemma ReplySent(c: Call, pad: Byte, s: seq<Byte>)
    requires c.mtype in {3, 9, 11, 13, 17, 23, 29} && 1 <= |s| && s[0] == c.mtype
    requires |s| == From(Layout(c.mtype), |Layout(c.mtype)|) && AllSent(c, Layout(c.mtype), pad, s)
    ensures Stands(c, s)
  {
    hide ShortAt, LongAt, From, AllSent, Widths;
    FromSix(Layout(c.mtype));
    AllSentSix(c, Layout(c.mtype), pad, s);
  }

  lemma DataSent(c: Call, pad: Byte, s: seq<Byte>)
    requires HasData(c.mtype) && HasItsData(c) && 1 <= |s| && s[0] == c.mtype
    requires |s| == From(Layout(c.mtype), |Layout(c.mtype)|) + c.count && AllSent(c, Layout(c.mtype), pad, s)
    ensures Stands(c, s) && s[if c.mtype == 15 then 7 else 15] == pad && (c.mtype == 16 ==> s[9..13] == [0, 0, 0, 0])
  {
    hide ShortAt, LongAt, From, AllSent, Widths;
    FromSix(Layout(c.mtype));
    AllSentSix(c, Layout(c.mtype), pad, s);
    var h := if c.mtype == 15 then 8 else 16;
    assert s[h..] == s[h..h + c.count] == c.data[..c.count];
  }

  /**
   What is sent has every field where the protocol has it, numbers lowest byte first; the high
   half of an offset is 0, and the pad before data is left as it was.
   */
  lemma WireStands(c: Call, pad: Byte)
    requires Known(c.mtype) && HasItsData(c)
    ensures Stands(c, Wire(c, pad))
    ensures c.mtype in {14, 16} ==> Wire(c, pad)[9..13] == [0, 0, 0, 0]
    ensures c.mtype == 15 ==> Wire(c, pad)[7] == pad
    ensures c.mtype == 16 ==> Wire(c, pad)[15] == pad
  {
    var s := Wire(c, pad);
    WireSent(c, pad);
    hide ShortAt, LongAt, From, AllSent, Widths, Wires, Wire;
    if HasData(c.mtype) {
      DataSent(c, pad, s);
    } else if c.mtype in {6, 8, 10, 12, 14, 24, 28} {
      RequestSent(c, pad, s);
    } else if c.mtype in {3, 9, 11, 13, 17, 23, 29} {
      ReplySent(c, pad, s);
    } else {
      ShortSent(c, pad, s);
    }
  }
}
