/**
 Messages out of a stream of bytes that arrives in pieces: a buffer is read until the message at
 its front is whole, and what lies behind it is kept for the next call.
 */
module StyxStream {
  import opened Octets
  import opened StyxMessage
  import opened StyxCodec

  const MAXFDATA := 8192
  const MAXMSG := 128
  const MAXRPC := MAXFDATA + MAXMSG

  ghost function Flat(ps: seq<seq<Byte>>): seq<Byte> {
    if ps == [] then [] else ps[0] + Flat(ps[1..])
  }

  /** What the other side sends, in the pieces it arrives in. A read takes from the first piece only. */
  class Device {
    var packets: seq<seq<Byte>>

    ghost predicate Valid()
      reads this
    {
      forall i :: 0 <= i < |packets| ==> packets[i] != []
    }

    ghost function Rest(): seq<Byte>
      reads this
    {
      Flat(packets)
    }

    /** The bytes of the first piece that fit; none at the end of the stream. */
    method Read(buf: array<Byte>, at: nat, len: nat) returns (n: nat)
      requires Valid() && at + len <= buf.Length
      modifies this, buf
      ensures Valid() && n <= len && (n == 0 <==> len == 0 || old(packets) == [])
      ensures n > 0 ==> old(packets) != [] && n <= |old(packets)[0]| && (n == |old(packets)[0]| || n == len)
      ensures n > 0 ==> packets == (if n == |old(packets)[0]| then [] else [old(packets)[0][n..]]) + old(packets)[1..]
      ensures buf[..at + n] + Rest() == old(buf[..at] + Rest())
      ensures n == 0 ==> packets == old(packets) && buf[..] == old(buf[..])
    {
      if packets == [] || len == 0 { return 0; }
      var p := packets[0];
      n := if |p| <= len then |p| else len;
      ghost var front, rest := buf[..at], Flat(packets);
      forall i | 0 <= i < n { buf[at + i] := p[i]; }
      packets := (if n == |p| then [] else [p[n..]]) + packets[1..];
      assert buf[..at + n] == front + p[..n];
      assert rest == p + Flat(old(packets)[1..]);
      FlatFront(p, n, old(packets)[1..]);
      assert front + p[..n] + Rest() == front + (p[..n] + Rest());
    }
  }

  lemma FlatFront(p: seq<Byte>, n: nat, ps: seq<seq<Byte>>)
    requires n <= |p|
    ensures p[..n] + Flat((if n == |p| then [] else [p[n..]]) + ps) == p + Flat(ps)
  {
    if n == |p| {
      assert [] + ps == ps && p[..n] == p;
    } else {
      assert ([p[n..]] + ps)[1..] == ps;
      assert p[..n] + (p[n..] + Flat(ps)) == p + Flat(ps);
    }
  }

  datatype Outcome = Got(cn: nat) | Hungup | BadType | Negative

  /** Some reading of have bytes and then the packets stops inside the h bytes, with three or more there. */
  predicate Splits(have: nat, packets: seq<seq<Byte>>, h: nat)
    decreases |packets|
  {
    if have >= 3 then have < h
    else packets != [] && Splits(have + |packets[0]|, packets[1..], h)
  }

  /** Where the reading stands: how many bytes are there, and the pieces still to come. */
  datatype Position = Position(have: nat, packets: seq<seq<Byte>>)

  /** Reading goes on, piece by piece, until enough is there. */
  ghost function ReadTo(at: Position, need: nat): Position
    decreases MAXRPC - at.have
  {
    if need <= at.have || MAXRPC <= at.have || at.packets == [] || at.packets[0] == [] then at
    else
      var p := at.packets[0];
      var n := if |p| <= MAXRPC - at.have then |p| else MAXRPC - at.have;
      ReadTo(Position(at.have + n, (if n == |p| then [] else [p[n..]]) + at.packets[1..]), need)
  }

  /** How many bytes have to be there before something is taken: the whole message, or three of an attach message. */
  function Need(t: int, k: nat): nat {
    if IsAttach(t) then 3 else k
  }

  /** The bytes kept from one message to the next. */
  class Link {
    const part: array<Byte>
    var npart: nat

    constructor ()
      ensures npart == 0 && part.Length == MAXRPC && fresh(part)
    {
      part := new Byte[MAXRPC];
      npart := 0;
    }

    ghost predicate Valid()
      reads this
    {
      part.Length == MAXRPC && npart <= MAXRPC
    }

    /** All that is still to be delivered. */
    ghost function Stream(dev: Device): seq<Byte>
      requires Valid()
      reads this, part, dev
    {
      part[..npart] + dev.Rest()
    }
  }

  /**
   What comes of a stream s: the message at its front, which leaves the rest; or the end, when
   there is no such message; or the rejection of a type there is none of; or, for an attach
   message only, and exactly when its head is split, a failure.
   */
  ghost predicate Delivers(o: Outcome, c: Call, s: seq<Byte>, rest: seq<Byte>, split: bool) {
    match o
    case Got(cn) => 0 < cn <= |s| && Message(c, s[..cn]) && rest == s[cn..] && !(IsAttach(s[0]) && split)
    case Hungup => NoMessage(s)
    case BadType => |s| >= 3 && !Known(s[0])
    case Negative => |s| >= 3 && IsAttach(s[0]) && split
  }

  /** No message that fits the buffer is at the front of s. */
  ghost predicate NoMessage(s: seq<Byte>) {
    forall c: Call, k: nat :: k <= |s| && k <= MAXRPC ==> !Message(c, s[..k])
  }

  /** A message at the front of the stream is what is delivered, unless it is an attach message that is split. */
  lemma FrontIsDelivered(o: Outcome, c: Call, s: seq<Byte>, rest: seq<Byte>, split: bool, d: Call, k: nat)
    requires Delivers(o, c, s, rest, split) && k <= |s| && k <= MAXRPC && Message(d, s[..k])
    ensures if IsAttach(d.mtype) && split then o == Negative else o == Got(k) && Agree(c, d) && rest == s[k..]
  {
    hide Shown, Agree;
    assert s[..k][0] == s[0] == d.mtype;
    if o.Got? {
      MessageOnce(c, d, s[..o.cn], s[..k], s);
      assert |s[..o.cn]| == |s[..k]|;
    }
  }

  // ----- how far the reading has come

  /** A message of k bytes is at the front of s. */
  ghost predicate FrontIs(s: seq<Byte>, k: nat) {
    k <= |s| && k <= MAXRPC && exists d :: Message(d, s[..k])
  }

  /** If a message is at the front of s, reading towards it from one position is reading towards it from the other. */
  ghost predicate OnTheWay(s: seq<Byte>, from: Position, at: Position) {
    forall k: nat :: FrontIs(s, k) && |s| > 0 ==> ReadTo(at, Need(s[0], k)) == ReadTo(from, Need(s[0], k))
  }

  lemma Arrived(s: seq<Byte>, from: Position, at: Position, k: nat)
    requires OnTheWay(s, from, at) && FrontIs(s, k) && |s| > 0 && Need(s[0], k) <= at.have
    ensures ReadTo(from, Need(s[0], k)) == at
  {
    hide FrontIs, Need;
  }

  /** Where nothing was taken, more has to be read before anything can be. */
  lemma NotYet(a: seq<Byte>, n: nat, past: int, s: seq<Byte>, k: nat)
    requires n <= |a| && 121 <= |a| && n <= |s| && s[..n] == a[..n] && (n == 0 || Verdict(a, n, past) == 0) && FrontIs(s, k) && |s| > 0
    ensures n < Need(s[0], k)
  {
    hide Verdict, Message, IsAttach;
    var d :| Message(d, s[..k]);
    NotEmpty(d, s[..k]);
    FirstByte(a, n, past);
    if n > 0 { assert s[0] == s[..n][0] == a[..n][0] == a[0]; }
    if k <= n {
      assert s[..k] == s[..n][..k] == a[..n][..k] == a[..k];
      WholeIsFound(d, s[..k], a, n, past);
    }
  }

  lemma ReadOn(s: seq<Byte>, from: Position, at: Position, n: nat, a: seq<Byte>, past: int)
    requires OnTheWay(s, from, at) && at.have <= |a| && 121 <= |a| && at.have <= |s| && s[..at.have] == a[..at.have]
    requires at.have == 0 || Verdict(a, at.have, past) == 0
    requires at.packets != [] && 0 < n <= |at.packets[0]| && at.have + n <= MAXRPC && (n == |at.packets[0]| || n == MAXRPC - at.have)
    ensures OnTheWay(s, from, Position(at.have + n, (if n == |at.packets[0]| then [] else [at.packets[0][n..]]) + at.packets[1..]))
  {
    hide Verdict, FrontIs, Need;
    forall k: nat | FrontIs(s, k) && |s| > 0
      ensures ReadTo(Position(at.have + n, (if n == |at.packets[0]| then [] else [at.packets[0][n..]]) + at.packets[1..]), Need(s[0], k)) == ReadTo(from, Need(s[0], k))
    {
      NotYet(a, at.have, past, s, k);
    }
  }

  // ----- one look at the buffer

  /** Nothing is taken of a buffer in which no message is whole. */
  lemma NothingWhole(a: seq<Byte>, n: nat, past: int, s: seq<Byte>)
    requires n <= |a| && 121 <= |a| && n <= |s| && s[..n] == a[..n] && (n == |s| || n == MAXRPC) && (n == 0 || Verdict(a, n, past) == 0)
    ensures NoMessage(s)
  {
    hide Verdict, Message;
    forall c: Call, k: nat | k <= |s| && k <= MAXRPC ensures !Message(c, s[..k]) {
      if Message(c, s[..k]) {
        assert s[..k] == s[..n][..k] == a[..n][..k] == a[..k];
        NotEmpty(c, s[..k]);
        WholeIsFound(c, s[..k], a, n, past);
      }
    }
  }

  lemma NotEmpty(c: Call, s: seq<Byte>)
    requires Message(c, s)
    ensures |s| > 0 && s[0] == c.mtype && Known(c.mtype)
  {
  }

  /** What the answer says of the first byte. */
  lemma FirstByte(a: seq<Byte>, n: nat, past: int)
    requires n <= |a| && 121 <= |a|
    ensures Verdict(a, n, past) != 0 ==> n >= 3
    ensures n >= 3 && IsAttach(a[0]) ==> 3 < HeadLen(a[0]) <= 61 && Verdict(a, n, past) == HeadLen(a[0])
    ensures Verdict(a, n, past) < 0 ==> !Known(a[0])
    ensures Verdict(a, n, past) > n ==> IsAttach(a[0])
  {
    hide Widths, HeadLen;
    if Known(a[0]) { TableLengths(a[0]); HeadLengths(a[0]); }
  }

  /** Looks for a message among the first got bytes of buf; what is behind it is kept. */
  method Check(link: Link, buf: array<Byte>, f: Fcall, dev: Device, got: nat, past: int, ghost s: seq<Byte>) returns (done: bool, o: Outcome)
    requires link.Valid() && buf.Length == MAXRPC && buf != link.part && got <= MAXRPC && s == buf[..got] + dev.Rest()
    modifies link`npart, link.part, f
    ensures link.Valid() && (!done ==> Verdict(buf[..], got, past) == 0) && (!done || !o.Got? ==> link.npart == old(link.npart))
    ensures done && o.Got? ==> link.npart + o.cn == got
    ensures done ==> got >= 3 && o != Hungup && Delivers(o, f.Value(), s, link.Stream(dev), got < HeadLen(s[0]))
  {
    hide Verdict, Message, HeadLen, Known;
    o := Hungup;
    var cn := ConvM2S(buf, f, got, past);
    FirstByte(buf[..], got, past);
    if cn == 0 { return false, o; }
    assert s[0] == buf[0];
    if cn < 0 { return true, BadType; }
    var n := got - cn;
    if n < 0 { return true, Negative; }
    assert buf[..cn] == s[..cn] && s[cn..] == buf[..got][cn..] + dev.Rest();
    ghost var c, kept := f.Value(), buf[..got][cn..];
    link.npart := n;
    forall i | 0 <= i < n { link.part[i] := buf[cn + i]; }
    assert link.part[..n] == kept && f.Value() == c;
    done, o := true, Got(cn);
  }

  /** Reading on towards the head of the message or past it makes no difference. */
  lemma SplitsStep(have: nat, p: seq<Byte>, n: nat, ps: seq<seq<Byte>>, h: nat)
    requires have < 3 && n <= |p| && (n == |p| || have + n >= h) && 3 < h
    ensures Splits(have, [p] + ps, h) == Splits(have + n, (if n == |p| then [] else [p[n..]]) + ps, h)
  {
    assert ([p] + ps)[1..] == ps && [] + ps == ps;
  }

  // ----- the client and the server

  /** A remote procedure call: the buffer, and the record its reply is put in. */
  class Mntrpc {
    const rpc: array<Byte>
    const reply: Fcall

    constructor ()
      ensures rpc.Length == MAXRPC && fresh(rpc) && fresh(reply)
    {
      rpc := new Byte[MAXRPC];
      reply := new Fcall();
    }
  }

  /** How far the reading has come: buf[..got] holds no whole message yet. */
  ghost predicate Reading(buf: seq<Byte>, got: nat, dev: Device, s: seq<Byte>, split: bool, past: int, from: Position)
    reads dev
  {
    dev.Valid() && |buf| == MAXRPC && got <= MAXRPC && buf[..got] + dev.Rest() == s
    && (got == 0 || Verdict(buf, got, past) == 0)
    && (|s| > 0 && IsAttach(s[0]) ==> split == Splits(got, dev.packets, HeadLen(s[0])))
    && OnTheWay(s, from, Position(got, dev.packets))
  }

  /** Reads once more, to buf[got..]; nothing comes at the end of the stream or where the buffer is full. */
  method ReadMore(buf: array<Byte>, got: nat, dev: Device, ghost s: seq<Byte>, ghost split: bool, past: int, ghost from: Position) returns (n: nat)
    requires Reading(buf[..], got, dev, s, split, past, from)
    modifies dev, buf
    ensures n == 0 ==> NoMessage(s) && Reading(buf[..], got, dev, s, split, past, from)
    ensures got + n <= MAXRPC && got + n <= |s| && dev.Valid() && buf[..got + n] + dev.Rest() == s
    ensures n > 0 && IsAttach(s[0]) ==> split == Splits(got + n, dev.packets, HeadLen(s[0]))
    ensures n > 0 ==> OnTheWay(s, from, Position(got + n, dev.packets))
  {
    hide Verdict, HeadLen, Message, NoMessage, Splits, OnTheWay;
    ghost var a, ps := buf[..], dev.packets;
    FirstByte(a, got, past);
    n := dev.Read(buf, got, MAXRPC - got);
    if n == 0 {
      NothingWhole(a, got, past, s);
    } else {
      ReadOn(s, from, Position(got, ps), n, a, past);
    }
    if n > 0 && IsAttach(s[0]) {
      assert got > 0 ==> a[0] == a[..got][0] == s[0];
      HeadIs(s[0]);
      assert [ps[0]] + ps[1..] == ps;
      SplitsStep(got, ps[0], n, ps[1..], HeadLen(s[0]));
    }
  }

  lemma HeadIs(t: int)
    requires IsAttach(t)
    ensures 3 < HeadLen(t) <= 61
  {
    TableLengths(t);
    HeadLengths(t);
  }

  /** Where the buffer is looked at, the head of an attach message is split if it is not all there. */
  lemma SplitsNow(got: nat, packets: seq<seq<Byte>>, h: nat)
    requires got >= 3
    ensures Splits(got, packets, h) == (got < h)
  {
  }

  /**
   The next message off the stream, into the buffer and the reply of r. The end of the stream
   counts when it is seen twice running.
   */
  method MntRpcRead(m: Link, r: Mntrpc, dev: Device, past: int) returns (o: Outcome)
    requires m.Valid() && dev.Valid() && r.rpc.Length == MAXRPC && r.rpc != m.part
    modifies m, m.part, r.rpc, r.reply, dev
    ensures m.Valid() && dev.Valid()
    ensures Delivers(o, r.reply.Value(), old(m.Stream(dev)), m.Stream(dev), Attached(old(m.Stream(dev)), old(m.npart), old(dev.packets)))
    ensures o.Got? ==> LeftAt(old(m.Stream(dev)), old(Position(m.npart, dev.packets)), o.cn, m.npart, dev.packets)
    ensures !o.Got? ==> m.npart == 0
  {
    hide Verdict, HeadLen, Message, NoMessage, Splits, Delivers, Attached, Fcall.Value, Reading, Flat, OnTheWay, LeftAt;
    ghost var s, from := m.Stream(dev), Position(m.npart, dev.packets);
    ghost var split := Attached(s, m.npart, dev.packets);
    var got, done, eof;
    got, done, o := TakeKept(m, r, dev, past, s, split, from);
    if done { return; }
    eof := false;
    while true
      invariant m.Valid() && Reading(r.rpc[..], got, dev, s, split, past, from) && got <= |s| && m.npart == 0
      invariant eof ==> NoMessage(s)
      decreases |s| - got, !eof
    {
      ReadingIs(r.rpc[..], got, dev, s, split, past, from);
      var n := ReadMore(r.rpc, got, dev, s, split, past, from);
      if n == 0 {
        if eof { HungupDelivers(r.reply.Value(), s, m.Stream(dev), split); return Hungup; }
        eof := true;
        continue;
      }
      eof := false;
      got := got + n;
      done, o := Look(m, r, dev, got, past, s, split, from);
      if done { return; }
    }
  }

  lemma ReadingIs(buf: seq<Byte>, got: nat, dev: Device, s: seq<Byte>, split: bool, past: int, from: Position)
    requires Reading(buf, got, dev, s, split, past, from)
    ensures dev.Valid()
  {
  }

  /** Starts with what was kept. */
  method TakeKept(m: Link, r: Mntrpc, dev: Device, past: int, ghost s: seq<Byte>, ghost split: bool, ghost from: Position) returns (got: nat, done: bool, o: Outcome)
    requires m.Valid() && dev.Valid() && r.rpc.Length == MAXRPC && r.rpc != m.part
    requires s == m.Stream(dev) && split == Attached(s, m.npart, dev.packets) && from == Position(m.npart, dev.packets)
    modifies m, m.part, r.rpc, r.reply
    ensures m.Valid() && (done ==> Delivers(o, r.reply.Value(), s, m.Stream(dev), split))
    ensures !done ==> Reading(r.rpc[..], got, dev, s, split, past, from) && got <= |s|
    ensures done && o.Got? ==> LeftAt(s, from, o.cn, m.npart, dev.packets)
    ensures !done || !o.Got? ==> m.npart == 0
  {
    hide Verdict, HeadLen, Message, NoMessage, Splits, Delivers, Attached, Fcall.Value, Flat, LeftAt, OnTheWay;
    StartsThere(s, from);
    AttachedIs(s, m.npart, dev.packets);
    got, done, o := 0, false, Hungup;
    if m.npart > 0 {
      got := m.npart;
      forall i | 0 <= i < got { r.rpc[i] := m.part[i]; }
      assert r.rpc[..got] == m.part[..got];
      m.npart := 0;
      done, o := Look(m, r, dev, got, past, s, split, from);
    }
  }

  /** Whether the head of an attach message at the front of the stream is split. */
  ghost predicate Attached(s: seq<Byte>, npart: nat, packets: seq<seq<Byte>>) {
    |s| > 0 && IsAttach(s[0]) && Splits(npart, packets, HeadLen(s[0]))
  }

  lemma AttachedIs(s: seq<Byte>, npart: nat, packets: seq<seq<Byte>>)
    ensures |s| > 0 && IsAttach(s[0]) ==> Attached(s, npart, packets) == Splits(npart, packets, HeadLen(s[0]))
  {
  }

  lemma HungupDelivers(c: Call, s: seq<Byte>, rest: seq<Byte>, split: bool)
    requires NoMessage(s)
    ensures Delivers(Hungup, c, s, rest, split)
  {
  }

  lemma StartsThere(s: seq<Byte>, from: Position)
    ensures OnTheWay(s, from, from)
  {
  }

  /** After a message of cn bytes the reading stands where it had to come to for it, less the message. */
  ghost predicate LeftAt(s: seq<Byte>, from: Position, cn: nat, npart: nat, packets: seq<seq<Byte>>) {
    |s| > 0 && Position(npart + cn, packets) == ReadTo(from, Need(s[0], cn))
  }

  lemma TakenAt(o: Outcome, c: Call, s: seq<Byte>, rest: seq<Byte>, split: bool, from: Position, npart: nat, packets: seq<seq<Byte>>)
    requires o.Got? && Delivers(o, c, s, rest, split) && npart + o.cn >= 3 && o.cn <= MAXRPC && OnTheWay(s, from, Position(npart + o.cn, packets))
    ensures LeftAt(s, from, o.cn, npart, packets)
  {
    hide Message, OnTheWay;
    assert FrontIs(s, o.cn);
    Arrived(s, from, Position(npart + o.cn, packets), o.cn);
  }

  /** Looks at what is there now; while nothing is whole the reading goes on. */
  method Look(m: Link, r: Mntrpc, dev: Device, got: nat, past: int, ghost s: seq<Byte>, ghost split: bool, ghost from: Position) returns (done: bool, o: Outcome)
    requires m.Valid() && dev.Valid() && r.rpc.Length == MAXRPC && r.rpc != m.part && 0 < got <= MAXRPC
    requires s == r.rpc[..got] + dev.Rest() && (IsAttach(s[0]) ==> split == Splits(got, dev.packets, HeadLen(s[0])))
    requires OnTheWay(s, from, Position(got, dev.packets))
    modifies m`npart, m.part, r.reply
    ensures m.Valid()
    ensures !done ==> Reading(r.rpc[..], got, dev, s, split, past, from)
    ensures !done || !o.Got? ==> m.npart == old(m.npart)
    ensures done ==> Delivers(o, r.reply.Value(), s, m.Stream(dev), split)
    ensures done && o.Got? ==> LeftAt(s, from, o.cn, m.npart, dev.packets)
  {
    hide Verdict, HeadLen, Message, NoMessage, Splits, Delivers, Fcall.Value, OnTheWay, LeftAt;
    done, o := Check(m, r.rpc, r.reply, dev, got, past, s);
    if done {
      if o.Got? { TakenAt(o, r.reply.Value(), s, m.Stream(dev), got < HeadLen(s[0]), from, m.npart, dev.packets); }
      SplitsNow(got, dev.packets, HeadLen(s[0]));
      OtherSplit(o, r.reply.Value(), s, m.Stream(dev), got < HeadLen(s[0]), split);
    } else {
      assert r.rpc[..][..got] == r.rpc[..got];
    }
  }

  lemma OtherSplit(o: Outcome, c: Call, s: seq<Byte>, rest: seq<Byte>, split: bool, other: bool)
    requires |s| > 0 && Delivers(o, c, s, rest, split) && (IsAttach(s[0]) ==> split == other)
    ensures Delivers(o, c, s, rest, other)
  {
  }

  /**
   The server's reading of the next request: as the client's, but what was kept is counted as
   kept until a message is whole, and the end of the stream counts at once.
   */
  method ExportRead(fs: Link, q: Mntrpc, dev: Device, past: int) returns (o: Outcome)
    requires fs.Valid() && dev.Valid() && q.rpc.Length == MAXRPC && q.rpc != fs.part
    modifies fs, fs.part, q.rpc, q.reply, dev
    ensures fs.Valid() && dev.Valid()
    ensures Delivers(o, q.reply.Value(), old(fs.Stream(dev)), fs.Stream(dev), Attached(old(fs.Stream(dev)), old(fs.npart), old(dev.packets)))
    ensures o.Got? ==> LeftAt(old(fs.Stream(dev)), old(Position(fs.npart, dev.packets)), o.cn, fs.npart, dev.packets)
    ensures !o.Got? ==> fs.npart == old(fs.npart)
  {
    hide Verdict, HeadLen, Message, NoMessage, Splits, Delivers, Attached, Fcall.Value, Reading, Flat, OnTheWay, LeftAt;
    ghost var s, from := fs.Stream(dev), Position(fs.npart, dev.packets);
    ghost var split := Attached(s, fs.npart, dev.packets);
    var got, done;
    got, done, o := CopyKept(fs, q, dev, past, s, split, from);
    while !done
      invariant fs.Valid() && dev.Valid() && got <= |s|
      invariant if done then Delivers(o, q.reply.Value(), s, fs.Stream(dev), split) else Reading(q.rpc[..], got, dev, s, split, past, from)
      invariant done && o.Got? ==> LeftAt(s, from, o.cn, fs.npart, dev.packets)
      invariant !done || !o.Got? ==> fs.npart == old(fs.npart)
      decreases !done, |s| - got
    {
      var n := ReadMore(q.rpc, got, dev, s, split, past, from);
      if n == 0 {
        HungupDelivers(q.reply.Value(), s, fs.Stream(dev), split);
        return Hungup;
      }
      got := got + n;
      done, o := Look(fs, q, dev, got, past, s, split, from);
    }
  }

  /** Starts with what was kept, which stays counted. */
  method CopyKept(fs: Link, q: Mntrpc, dev: Device, past: int, ghost s: seq<Byte>, ghost split: bool, ghost from: Position) returns (got: nat, done: bool, o: Outcome)
    requires fs.Valid() && dev.Valid() && q.rpc.Length == MAXRPC && q.rpc != fs.part
    requires s == fs.Stream(dev) && split == Attached(s, fs.npart, dev.packets) && from == Position(fs.npart, dev.packets)
    modifies fs, fs.part, q.rpc, q.reply
    ensures fs.Valid() && dev.Valid() && (done ==> Delivers(o, q.reply.Value(), s, fs.Stream(dev), split))
    ensures got <= |s| && (!done ==> Reading(q.rpc[..], got, dev, s, split, past, from))
    ensures done && o.Got? ==> LeftAt(s, from, o.cn, fs.npart, dev.packets)
    ensures !done || !o.Got? ==> fs.npart == old(fs.npart)
  {
    hide Verdict, HeadLen, Message, NoMessage, Splits, Delivers, Attached, Fcall.Value, Flat, LeftAt, OnTheWay;
    StartsThere(s, from);
    AttachedIs(s, fs.npart, dev.packets);
    got, done, o := 0, false, Hungup;
    if fs.npart > 0 {
      got := fs.npart;
      forall i | 0 <= i < got { q.rpc[i] := fs.part[i]; }
      assert q.rpc[..got] == fs.part[..got];
      done, o := Look(fs, q, dev, got, past, s, split, from);
    }
  }

  // ----- whole runs

  /** The bytes of wires are the messages sent, one after the other, and each fits. */
  ghost predicate Sends(sent: seq<Call>, wires: seq<seq<Byte>>) {
    |sent| == |wires| && forall i :: 0 <= i < |sent| ==> |wires[i]| <= MAXRPC && Message(sent[i], wires[i])
  }

  /** How many of the messages are delivered: those before the first attach message whose head is split when its turn comes. */
  ghost function Delivered(sent: seq<Call>, wires: seq<seq<Byte>>, at: Position): (n: nat)
    requires |sent| == |wires|
    ensures n <= |sent|
  {
    if sent == [] || (IsAttach(sent[0].mtype) && Splits(at.have, at.packets, HeadLen(sent[0].mtype))) then 0
    else
      var k, r := |wires[0]|, ReadTo(at, Need(sent[0].mtype, |wires[0]|));
      if r.have < k then 0 else 1 + Delivered(sent[1..], wires[1..], Position(r.have - k, r.packets))
  }

  /**
   However the bytes of the messages sent are cut in pieces, reading as often as there are
   messages delivers just these, in order, and leaves what came behind them; but it stops at
   the first attach message that is split.
   */
  method Receive(m: Link, r: Mntrpc, dev: Device, count: nat, past: int, ghost sent: seq<Call>, ghost wires: seq<seq<Byte>>, ghost tail: seq<Byte>)
    returns (got: seq<Call>)
    requires m.Valid() && dev.Valid() && r.rpc.Length == MAXRPC && r.rpc != m.part
    requires Sends(sent, wires) && count == |sent| && m.Stream(dev) == Flat(wires) + tail
    modifies m, m.part, r.rpc, r.reply, dev
    ensures m.Valid() && dev.Valid()
    ensures |got| == Delivered(sent, wires, old(Position(m.npart, dev.packets))) && forall i :: 0 <= i < |got| ==> Agree(sent[i], got[i])
    ensures if |got| == |sent| then m.Stream(dev) == tail else IsAttach(sent[|got|].mtype)
  {
    hide Message, Agree, Fcall.Value, Delivers, IsAttach, Delivered, LeftAt, Attached;
    got := [];
    ghost var from := Position(m.npart, dev.packets);
    assert [] + tail == tail && sent[0..] == sent && wires[0..] == wires;
    for k := 0 to count
      invariant m.Valid() && dev.Valid() && m.Stream(dev) == Flat(wires[k..]) + tail
      invariant |got| == k && forall i :: 0 <= i < k ==> Agree(sent[i], got[i])
      invariant k + Delivered(sent[k..], wires[k..], Position(m.npart, dev.packets)) == Delivered(sent, wires, from)
    {
      ghost var s, at := m.Stream(dev), Position(m.npart, dev.packets);
      ghost var split := Attached(s, m.npart, dev.packets);
      var o := MntRpcRead(m, r, dev, past);
      var c := r.reply.Value();
      NextIs(o, c, s, m.Stream(dev), sent[k..], wires[k..], tail, at, m.npart, dev.packets);
      if !o.Got? { return; }
      assert sent[k..][1..] == sent[k + 1..] && wires[k..][1..] == wires[k + 1..];
      got := got + [c];
    }
    assert wires[count..] == [] && [] + tail == tail;
    NoneLeft(sent[count..], wires[count..], Position(m.npart, dev.packets));
  }

  lemma NoneLeft(sent: seq<Call>, wires: seq<seq<Byte>>, at: Position)
    requires sent == [] && wires == []
    ensures Delivered(sent, wires, at) == 0
  {
  }

  /** The next message is delivered, and the reading stands where the count of messages has it, unless it is a split attach message. */
  lemma NextIs(o: Outcome, c: Call, s: seq<Byte>, rest: seq<Byte>, sent: seq<Call>, wires: seq<seq<Byte>>, tail: seq<Byte>,
               at: Position, npart: nat, packets: seq<seq<Byte>>)
    requires Delivers(o, c, s, rest, Attached(s, at.have, at.packets)) && |wires| == |sent| > 0 && s == Flat(wires) + tail
    requires |wires[0]| <= MAXRPC && Message(sent[0], wires[0]) && (o.Got? ==> LeftAt(s, at, o.cn, npart, packets))
    ensures o.Got? ==> Agree(sent[0], c) && rest == Flat(wires[1..]) + tail
    ensures o.Got? ==> Delivered(sent, wires, at) == 1 + Delivered(sent[1..], wires[1..], Position(npart, packets))
    ensures !o.Got? ==> Delivered(sent, wires, at) == 0 && IsAttach(sent[0].mtype)
  {
    hide Message, Agree, Delivers, IsAttach, Splits;
    var k, d := |wires[0]|, sent[0];
    assert s == wires[0] + (Flat(wires[1..]) + tail);
    assert s[..k] == wires[0] && s[k..] == Flat(wires[1..]) + tail;
    NotEmpty(d, wires[0]);
    assert s[0] == wires[0][0] == d.mtype;
    FrontIsDelivered(o, c, s, rest, Attached(s, at.have, at.packets), d, k);
    if o.Got? { AgreeSym(c, d); }
  }

  lemma AgreeSym(c: Call, d: Call)
    requires Agree(c, d)
    ensures Agree(d, c)
  {
    forall p | p in Layout(d.mtype) ensures Same(d, c, p) {
      assert Same(c, d, p);
    }
  }

  /**
   What one side makes of a record the other side gets back, all of it, when the count fits and
   no attach message is split: the whole way through the encoder, the stream and the decoder.
   */
  lemma SentIsReceived(c: Call, pad: Byte, o: Outcome, d: Call, s: seq<Byte>, rest: seq<Byte>, split: bool)
    requires Known(c.mtype) && (HasData(c.mtype) ==> c.count == |c.data|) && CountFits(c)
    requires |Wire(c, pad)| <= MAXRPC && Wire(c, pad) <= s && Delivers(o, d, s, rest, split)
    ensures if IsAttach(c.mtype) && split then o == Negative else o == Got(|Wire(c, pad)|) && Agree(d, c) && rest == s[|Wire(c, pad)|..]
  {
    hide Message, Agree, Delivers, Wire;
    WireIsMessage(c, pad);
    var k := |Wire(c, pad)|;
    assert s[..k] == Wire(c, pad);
    FrontIsDelivered(o, d, s, rest, split, c, k);
  }
}
