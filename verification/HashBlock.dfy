/**
 The block functions of MD5 and SHA: what one block of 64 bytes makes of the state, against the
 forms RFC 1321 (section 3.4) and FIPS 180-1 (sections 5 to 7) give.
 */
module HashBlock {
  import opened Octets

  function RotateLeft(x: bv32, n: nat): bv32
    requires 0 < n < 32
  {
    (x << n) | (x >> (32 - n))
  }

  /** The sum of 32-bit words. */
  function Add(x: bv32, y: bv32): bv32 {
    x + y
  }

  // ----- MD5

  /** What a step adds, which word of the block it takes, and how far it rotates. */
  datatype Row = Row(sin: bv32, x: nat, rot: nat)

  function RoundOne(i: nat): Row {
    match i
    case 0 => Row(0xd76aa478, 0, 7)
    case 1 => Row(0xe8c7b756, 1, 12)
    case 2 => Row(0x242070db, 2, 17)
    case 3 => Row(0xc1bdceee, 3, 22)
    case 4 => Row(0xf57c0faf, 4, 7)
    case 5 => Row(0x4787c62a, 5, 12)
    case 6 => Row(0xa8304613, 6, 17)
    case 7 => Row(0xfd469501, 7, 22)
    case 8 => Row(0x698098d8, 8, 7)
    case 9 => Row(0x8b44f7af, 9, 12)
    case 10 => Row(0xffff5bb1, 10, 17)
    case 11 => Row(0x895cd7be, 11, 22)
    case 12 => Row(0x6b901122, 12, 7)
    case 13 => Row(0xfd987193, 13, 12)
    case 14 => Row(0xa679438e, 14, 17)
    case _ => Row(0x49b40821, 15, 22)
  }

  function RoundTwo(i: nat): Row {
    match i
    case 0 => Row(0xf61e2562, 1, 5)
    case 1 => Row(0xc040b340, 6, 9)
    case 2 => Row(0x265e5a51, 11, 14)
    case 3 => Row(0xe9b6c7aa, 0, 20)
    case 4 => Row(0xd62f105d, 5, 5)
    case 5 => Row(0x02441453, 10, 9)
    case 6 => Row(0xd8a1e681, 15, 14)
    case 7 => Row(0xe7d3fbc8, 4, 20)
    case 8 => Row(0x21e1cde6, 9, 5)
    case 9 => Row(0xc33707d6, 14, 9)
    case 10 => Row(0xf4d50d87, 3, 14)
    case 11 => Row(0x455a14ed, 8, 20)
    case 12 => Row(0xa9e3e905, 13, 5)
    case 13 => Row(0xfcefa3f8, 2, 9)
    case 14 => Row(0x676f02d9, 7, 14)
    case _ => Row(0x8d2a4c8a, 12, 20)
  }

  function RoundThree(i: nat): Row {
    match i
    case 0 => Row(0xfffa3942, 5, 4)
    case 1 => Row(0x8771f681, 8, 11)
    case 2 => Row(0x6d9d6122, 11, 16)
    case 3 => Row(0xfde5380c, 14, 23)
    case 4 => Row(0xa4beea44, 1, 4)
    case 5 => Row(0x4bdecfa9, 4, 11)
    case 6 => Row(0xf6bb4b60, 7, 16)
    case 7 => Row(0xbebfbc70, 10, 23)
    case 8 => Row(0x289b7ec6, 13, 4)
    case 9 => Row(0xeaa127fa, 0, 11)
    case 10 => Row(0xd4ef3085, 3, 16)
    case 11 => Row(0x04881d05, 6, 23)
    case 12 => Row(0xd9d4d039, 9, 4)
    case 13 => Row(0xe6db99e5, 12, 11)
    case 14 => Row(0x1fa27cf8, 15, 16)
    case _ => Row(0xc4ac5665, 2, 23)
  }

  function RoundFour(i: nat): Row {
    match i
    case 0 => Row(0xf4292244, 0, 6)
    case 1 => Row(0x432aff97, 7, 10)
    case 2 => Row(0xab9423a7, 14, 15)
    case 3 => Row(0xfc93a039, 5, 21)
    case 4 => Row(0x655b59c3, 12, 6)
    case 5 => Row(0x8f0ccc92, 3, 10)
    case 6 => Row(0xffeff47d, 10, 15)
    case 7 => Row(0x85845dd1, 1, 21)
    case 8 => Row(0x6fa87e4f, 8, 6)
    case 9 => Row(0xfe2ce6e0, 15, 10)
    case 10 => Row(0xa3014314, 6, 15)
    case 11 => Row(0x4e0811a1, 13, 21)
    case 12 => Row(0xf7537e82, 4, 6)
    case 13 => Row(0xbd3af235, 11, 10)
    case 14 => Row(0x2ad7d2bb, 2, 15)
    case _ => Row(0xeb86d391, 9, 21)
  }

  /** The table of the 64 steps, by rounds. */
  function Tab(i: nat): (t: Row)
    ensures t.x < 16 && 0 < t.rot < 32
  {
    if i < 16 then RoundOne(i) else if i < 32 then RoundTwo(i - 16) else if i < 48 then RoundThree(i - 32) else RoundFour(i - 48)
  }

  function OfFour(i: nat, a: nat, b: nat, c: nat, d: nat): nat {
    if i % 4 == 0 then a else if i % 4 == 1 then b else if i % 4 == 2 then c else d
  }

  lemma RoundOneOrder(i: nat)
    requires i < 16
    ensures RoundOne(i).x == i && RoundOne(i).rot == OfFour(i, 7, 12, 17, 22)
  {
  }

  lemma RoundTwoOrder(i: nat)
    requires 16 <= i < 32
    ensures RoundTwo(i - 16).x == (5 * i + 1) % 16 && RoundTwo(i - 16).rot == OfFour(i, 5, 9, 14, 20)
  {
  }

  lemma RoundThreeOrder(i: nat)
    requires 32 <= i < 48
    ensures RoundThree(i - 32).x == (3 * i + 5) % 16 && RoundThree(i - 32).rot == OfFour(i, 4, 11, 16, 23)
  {
  }

  lemma RoundFourOrder(i: nat)
    requires 48 <= i < 64
    ensures RoundFour(i - 48).x == 7 * i % 16 && RoundFour(i - 48).rot == OfFour(i, 6, 10, 15, 21)
  {
  }

  /**
   The words are taken in the order of the four rounds: every one, every fifth, every third, every
   seventh. The rotations come in fours.
   */
  lemma TableOrder(i: nat)
    requires i < 64
    ensures Tab(i).x == if i < 16 then i else if i < 32 then (5 * i + 1) % 16 else if i < 48 then (3 * i + 5) % 16 else 7 * i % 16
    ensures Tab(i).rot ==
      if i < 16 then OfFour(i, 7, 12, 17, 22) else if i < 32 then OfFour(i, 5, 9, 14, 20)
      else if i < 48 then OfFour(i, 4, 11, 16, 23) else OfFour(i, 6, 10, 15, 21)
  {
    hide RoundOne, RoundTwo, RoundThree, RoundFour, OfFour;
    if i < 16 {
      RoundOneOrder(i);
    } else if i < 32 {
      RoundTwoOrder(i);
    } else if i < 48 {
      RoundThreeOrder(i);
    } else {
      RoundFourOrder(i);
    }
  }

  function Mix(i: nat, b: bv32, c: bv32, d: bv32): bv32 {
    if i < 16 then (b & c) | (!b & d)
    else if i < 32 then (b & d) | (c & !d)
    else if i < 48 then b ^ c ^ d
    else c ^ (b | !d)
  }

  /** A word of the block, least significant byte first. */
  function LittleWord(s: seq<Byte>, k: nat): bv32
    requires 4 * k + 4 <= |s|
  {
    Pack(s[4 * k], s[4 * k + 1], s[4 * k + 2], s[4 * k + 3])
  }

  function Pack(a: Byte, b: Byte, c: Byte, d: Byte): bv32 {
    (a as bv32) | ((b as bv32) << 8) | ((c as bv32) << 16) | ((d as bv32) << 24)
  }

  /** What a step makes of the register whose turn it is, with the word w of the block. */
  function Mixed(i: nat, a: bv32, b: bv32, c: bv32, d: bv32, w: bv32): bv32 {
    Add(RotateLeft(Add(Add(a, Mix(i, b, c, d)), Add(w, Tab(i).sin)), Tab(i).rot), b)
  }

  /** One step on the four registers, which take turns: the one whose turn it is becomes a mixture of all. */
  function Turn(i: nat, r: seq<bv32>, s: seq<Byte>): seq<bv32>
    requires |r| == 4 && |s| == 64
  {
    var k := (4 - i % 4) % 4;
    r[k := Mixed(i, r[k], r[(k + 1) % 4], r[(k + 2) % 4], r[(k + 3) % 4], LittleWord(s, Tab(i).x))]
  }

  function Turns(n: nat, r: seq<bv32>, s: seq<Byte>): (t: seq<bv32>)
    requires |r| == 4 && |s| == 64
    ensures |t| == 4
  {
    if n == 0 then r else Turn(n - 1, Turns(n - 1, r, s), s)
  }

  function Sums(r: seq<bv32>, t: seq<bv32>): (u: seq<bv32>)
    requires |r| == |t|
    ensures |u| == |r|
  {
    seq(|r|, i requires 0 <= i < |r| => Add(r[i], t[i]))
  }

  function Md5Block(r: seq<bv32>, s: seq<Byte>): (t: seq<bv32>)
    requires |r| == 4 && |s| == 64
    ensures |t| == 4
  {
    Sums(r, Turns(64, r, s))
  }

  /** The registers keep their places in the reference and move on one place at each step here. */
  method Md5Mix(p: array<Byte>, at: nat, state: seq<bv32>) returns (next: seq<bv32>)
    requires at + 64 <= p.Length && |state| == 4
    ensures next == Md5Block(state, p[at..at + 64])
  {
    hide Add, Tab, Mix, RotateLeft, LittleWord, Turn, Turns;
    ghost var s := p[at..at + 64];
    var x := new bv32[16];
    for k := 0 to 16
      invariant forall j :: 0 <= j < k ==> x[j] == LittleWord(s, j)
    {
      x[k] := PackLittle(p, at, k);
    }
    var a, b, c, d := state[0], state[1], state[2], state[3];
    NoTurns(state, s);
    for i := 0 to 64
      invariant forall j :: 0 <= j < 16 ==> x[j] == LittleWord(s, j)
      invariant InTurn(i, Turns(i, state, s), a, b, c, d)
    {
      TurnOn(i, state, s, a, b, c, d);
      var t := Tab(i);
      a := Add(a, Mix(i, b, c, d));
      a := Add(a, Add(x[t.x], t.sin));
      a := RotateLeft(a, t.rot);
      a := Add(a, b);
      a, b, c, d := d, a, b, c;
    }
    next := [Add(state[0], a), Add(state[1], b), Add(state[2], c), Add(state[3], d)];
    AllTurned(state, s, a, b, c, d);
  }

  method PackLittle(p: array<Byte>, at: nat, k: nat) returns (w: bv32)
    requires k < 16 && at + 64 <= p.Length
    ensures w == LittleWord(p[at..at + 64], k)
  {
    hide Pack;
    var q := at + 4 * k;
    w := Pack(p[q], p[q + 1], p[q + 2], p[q + 3]);
  }

  /** a, b, c, d are the registers, counted from the one whose turn is next. */
  predicate InTurn(i: nat, r: seq<bv32>, a: bv32, b: bv32, c: bv32, d: bv32) {
    |r| == 4 &&
    var k := (4 - i % 4) % 4;
    a == r[k] && b == r[(k + 1) % 4] && c == r[(k + 2) % 4] && d == r[(k + 3) % 4]
  }

  lemma NoTurns(state: seq<bv32>, s: seq<Byte>)
    requires |state| == 4 && |s| == 64
    ensures InTurn(0, Turns(0, state, s), state[0], state[1], state[2], state[3])
  {
  }

  lemma TurnOn(i: nat, state: seq<bv32>, s: seq<Byte>, a: bv32, b: bv32, c: bv32, d: bv32)
    requires |state| == 4 && |s| == 64 && InTurn(i, Turns(i, state, s), a, b, c, d)
    ensures InTurn(i + 1, Turns(i + 1, state, s), d, Mixed(i, a, b, c, d, LittleWord(s, Tab(i).x)), b, c)
  {
    hide Mixed, Tab, LittleWord, Turns;
    TurnsNext(i, state, s);
  }

  lemma TurnsNext(i: nat, state: seq<bv32>, s: seq<Byte>)
    requires |state| == 4 && |s| == 64
    ensures Turns(i + 1, state, s) == Turn(i, Turns(i, state, s), s)
  {
    hide Turn;
  }

  lemma AllTurned(state: seq<bv32>, s: seq<Byte>, a: bv32, b: bv32, c: bv32, d: bv32)
    requires |state| == 4 && |s| == 64 && InTurn(64, Turns(64, state, s), a, b, c, d)
    ensures Md5Block(state, s) == [Add(state[0], a), Add(state[1], b), Add(state[2], c), Add(state[3], d)]
  {
    hide Turns, Add;
  }

  // ----- SHA

  /** A word of the block, most significant byte first. */
  function BigWord(s: seq<Byte>, k: nat): bv32
    requires 4 * k + 4 <= |s|
  {
    Pack(s[4 * k + 3], s[4 * k + 2], s[4 * k + 1], s[4 * k])
  }

  function Xor4(a: bv32, b: bv32, c: bv32, d: bv32): bv32 {
    a ^ b ^ c ^ d
  }

  /** The schedule of words: those of the block, and then each from four before it. */
  function Schedule(s: seq<Byte>, t: nat): bv32
    requires |s| == 64
  {
    if t < 16 then BigWord(s, t)
    else RotateLeft(Xor4(Schedule(s, t - 3), Schedule(s, t - 8), Schedule(s, t - 14), Schedule(s, t - 16)), 1)
  }

  function Choice(t: nat, b: bv32, c: bv32, d: bv32): bv32 {
    if t < 20 then (b & c) | (!b & d)
    else if t < 40 then b ^ c ^ d
    else if t < 60 then (b & c) | (b & d) | (c & d)
    else b ^ c ^ d
  }

  function Constant(t: nat): bv32 {
    if t < 20 then 0x5a827999 else if t < 40 then 0x6ed9eba1 else if t < 60 then 0x8f1bbcdc else 0xca62c1d6
  }

  function Round(t: nat, r: seq<bv32>, w: bv32): (u: seq<bv32>)
    requires |r| == 5
    ensures |u| == 5
  {
    [Add(Add(Add(RotateLeft(r[0], 5), r[4]), w), Add(Constant(t), Choice(t, r[1], r[2], r[3]))), r[0], RotateLeft(r[1], 30), r[2], r[3]]
  }

  function Rounds(t: nat, r: seq<bv32>, s: seq<Byte>): (u: seq<bv32>)
    requires |r| == 5 && |s| == 64
    ensures |u| == 5
  {
    if t == 0 then r else Round(t - 1, Rounds(t - 1, r, s), Schedule(s, t - 1))
  }

  function ShaBlock(r: seq<bv32>, s: seq<Byte>): (t: seq<bv32>)
    requires |r| == 5 && |s| == 64
    ensures |t| == 5
  {
    Sums(r, Rounds(80, r, s))
  }

  ghost predicate Filled(w: seq<bv32>, n: nat, s: seq<Byte>) {
    |s| == 64 && n <= |w| && forall j :: 0 <= j < n ==> w[j] == Schedule(s, j)
  }

  /** Packs the block and expands it to the 80 words. */
  method Expand(p: array<Byte>, at: nat) returns (w: array<bv32>)
    requires at + 64 <= p.Length
    ensures fresh(w) && w.Length == 80 && Filled(w[..], 80, p[at..at + 64])
  {
    hide BigWord, RotateLeft, Xor4;
    ghost var s := p[at..at + 64];
    w := new bv32[80];
    for k := 0 to 16
      invariant Filled(w[..], k, s)
    {
      w[k] := PackBig(p, at, k);
    }
    for t := 16 to 80
      invariant Filled(w[..], t, s)
    {
      var a := Xor4(w[t - 3], w[t - 8], w[t - 14], w[t - 16]);
      w[t] := RotateLeft(a, 1);
    }
  }

  method PackBig(p: array<Byte>, at: nat, k: nat) returns (w: bv32)
    requires k < 16 && at + 64 <= p.Length
    ensures w == BigWord(p[at..at + 64], k)
  {
    hide Pack;
    var q := at + 4 * k;
    w := Pack(p[q + 3], p[q + 2], p[q + 1], p[q]);
  }

  /** One stretch of twenty steps, with its function and constant. */
  method Twenty(w: array<bv32>, from: nat, r: seq<bv32>, ghost start: seq<bv32>, ghost s: seq<Byte>) returns (q: seq<bv32>)
    requires from in {0, 20, 40, 60} && w.Length == 80 && |start| == 5 && Filled(w[..], 80, s) && r == Rounds(from, start, s)
    ensures q == Rounds(from + 20, start, s)
  {
    hide Add, Schedule, RotateLeft, Choice, Constant, Round, Rounds;
    var a, b, c, d, e := r[0], r[1], r[2], r[3], r[4];
    for t := from to from + 20
      invariant [a, b, c, d, e] == Rounds(t, start, s)
    {
      var tmp := Add(Add(RotateLeft(a, 5), e), w[t]);
      tmp := Add(tmp, Add(Constant(t), Choice(t, b, c, d)));
      RoundOn(t, start, s, a, b, c, d, e);
      assert w[..][t] == w[t];
      a, b, c, d, e := tmp, a, RotateLeft(b, 30), c, d;
    }
    q := [a, b, c, d, e];
  }

  lemma RoundOn(t: nat, start: seq<bv32>, s: seq<Byte>, a: bv32, b: bv32, c: bv32, d: bv32, e: bv32)
    requires |start| == 5 && |s| == 64 && [a, b, c, d, e] == Rounds(t, start, s)
    ensures Rounds(t + 1, start, s) == [Add(Add(Add(RotateLeft(a, 5), e), Schedule(s, t)), Add(Constant(t), Choice(t, b, c, d))), a, RotateLeft(b, 30), c, d]
  {
    hide Add, RotateLeft, Choice, Constant, Schedule, Round;
    var r := Rounds(t, start, s);
    assert r[0] == a && r[1] == b && r[2] == c && r[3] == d && r[4] == e;
    RoundIs(t, r, Schedule(s, t));
  }

  lemma RoundIs(t: nat, r: seq<bv32>, w: bv32)
    requires |r| == 5
    ensures Round(t, r, w) == [Add(Add(Add(RotateLeft(r[0], 5), r[4]), w), Add(Constant(t), Choice(t, r[1], r[2], r[3]))), r[0], RotateLeft(r[1], 30), r[2], r[3]]
  {
    hide Add, RotateLeft, Choice, Constant;
  }

  method ShaMix(p: array<Byte>, at: nat, state: seq<bv32>) returns (next: seq<bv32>)
    requires at + 64 <= p.Length && |state| == 5
    ensures next == ShaBlock(state, p[at..at + 64])
  {
    hide Add, Schedule, RotateLeft, Choice, Constant, Round, Rounds, Filled;
    ghost var s := p[at..at + 64];
    var w := Expand(p, at);
    NoRounds(state, s);
    var r := Twenty(w, 0, state, state, s);
    r := Twenty(w, 20, r, state, s);
    r := Twenty(w, 40, r, state, s);
    r := Twenty(w, 60, r, state, s);
    next := AddAll(state, r);
  }

  lemma SumsAre(r: seq<bv32>, t: seq<bv32>, u: seq<bv32>)
    requires |r| == |t| == |u| && forall i :: 0 <= i < |r| ==> u[i] == Add(r[i], t[i])
    ensures u == Sums(r, t)
  {
    hide Add;
  }

  /** Adds the registers to the state. */
  method AddAll(state: seq<bv32>, r: seq<bv32>) returns (next: seq<bv32>)
    requires |state| == |r| == 5
    ensures next == Sums(state, r)
  {
    hide Add, Sums;
    next := [Add(state[0], r[0]), Add(state[1], r[1]), Add(state[2], r[2]), Add(state[3], r[3]), Add(state[4], r[4])];
    SumsAre(state, r, next);
  }

  lemma NoRounds(state: seq<bv32>, s: seq<Byte>)
    requires |state| == 5 && |s| == 64
    ensures Rounds(0, state, s) == state
  {
  }
}
