/**
 The digests of "abc" that the standards print: RFC 1321 (appendix A.5) for MD5, FIPS 180-1
 (appendix A) for SHA. They tie the tables, the mixtures, the rotations, the seeds and the orders
 of bytes to values from outside. The registers are followed step by step.
 */
module HashVectors {
  import opened Octets
  import opened HashBlock
  import opened Digest

  const ABC: seq<Byte> := [0x61, 0x62, 0x63]

  /** The bytes of the padded message but for the order of the count. */
  lemma AbcPadded(a: Algorithm)
    ensures var s := Padded(a, ABC, 3);
            |s| == 64 && s[0] == 0x61 && s[1] == 0x62 && s[2] == 0x63 && s[3] == 0x80
            && (forall j :: 4 <= j < 56 || 57 <= j < 63 ==> s[j] == 0)
            && s[56] == (if a.Md5? then 24 else 0) && s[63] == if a.Md5? then 0 else 24
  {
    hide Padded;
    PaddedBytes(a, ABC, 3);
  }

  // ----- MD5

  /** The words of the padded message, lowest byte first. */
  ghost predicate AbcLittle(s: seq<Byte>) {
    |s| == 64 && forall k :: 0 <= k < 16 ==> LittleWord(s, k) == if k == 0 then 0x80636261 else if k == 14 then 24 else 0
  }

  lemma LittleWords()
    ensures AbcLittle(Padded(Md5, ABC, 3))
  {
    hide Padded;
    AbcPadded(Md5);
    assert Pack(0x61, 0x62, 0x63, 0x80) == 0x80636261 && Pack(24, 0, 0, 0) == 24 && Pack(0, 0, 0, 0) == 0;
  }

  lemma Step(i: nat, state: seq<bv32>, s: seq<Byte>, a: bv32, b: bv32, c: bv32, d: bv32, w: bv32, e: bv32)
    requires |state| == 4 && |s| == 64 && InTurn(i, Turns(i, state, s), a, b, c, d) && LittleWord(s, Tab(i).x) == w && Mixed(i, a, b, c, d, w) == e
    ensures InTurn(i + 1, Turns(i + 1, state, s), d, e, b, c)
  {
    TurnOn(i, state, s, a, b, c, d);
  }

  lemma RowsOne()
    ensures Tab(0) == Row(0xd76aa478, 0, 7) && Tab(1) == Row(0xe8c7b756, 1, 12) && Tab(2) == Row(0x242070db, 2, 17) && Tab(3) == Row(0xc1bdceee, 3, 22)
    ensures Tab(4) == Row(0xf57c0faf, 4, 7) && Tab(5) == Row(0x4787c62a, 5, 12) && Tab(6) == Row(0xa8304613, 6, 17) && Tab(7) == Row(0xfd469501, 7, 22)
    ensures Tab(8) == Row(0x698098d8, 8, 7) && Tab(9) == Row(0x8b44f7af, 9, 12) && Tab(10) == Row(0xffff5bb1, 10, 17) && Tab(11) == Row(0x895cd7be, 11, 22)
    ensures Tab(12) == Row(0x6b901122, 12, 7) && Tab(13) == Row(0xfd987193, 13, 12) && Tab(14) == Row(0xa679438e, 14, 17) && Tab(15) == Row(0x49b40821, 15, 22)
  {
  }

  lemma Md5RoundOne(state: seq<bv32>, s: seq<Byte>)
    requires |state| == 4 && AbcLittle(s) && InTurn(0, Turns(0, state, s), 0x67452301, 0xefcdab89, 0x98badcfe, 0x10325476)
    ensures InTurn(16, Turns(16, state, s), 0xdda9b9a6, 0x72aff2e0, 0xe396856b, 0xa1051895)
  {
    hide LittleWord, Turns, InTurn, Tab;
    RowsOne();
    Step(0, state, s, 0x67452301, 0xefcdab89, 0x98badcfe, 0x10325476, 0x80636261, 0xd6d117b4);
    Step(1, state, s, 0x10325476, 0xd6d117b4, 0xefcdab89, 0x98badcfe, 0x00000000, 0x344a8432);
    Step(2, state, s, 0x98badcfe, 0x344a8432, 0xd6d117b4, 0xefcdab89, 0x00000000, 0x2f6fbd72);
    Step(3, state, s, 0xefcdab89, 0x2f6fbd72, 0x344a8432, 0xd6d117b4, 0x00000000, 0x7ad956f2);
    Step(4, state, s, 0xd6d117b4, 0x7ad956f2, 0x2f6fbd72, 0x344a8432, 0x00000000, 0xc73741ef);
    Step(5, state, s, 0x344a8432, 0xc73741ef, 0x7ad956f2, 0x2f6fbd72, 0x00000000, 0x8bac3051);
    Step(6, state, s, 0x2f6fbd72, 0x8bac3051, 0xc73741ef, 0x7ad956f2, 0x00000000, 0x207dc67b);
    Step(7, state, s, 0x7ad956f2, 0x207dc67b, 0x8bac3051, 0xc73741ef, 0x00000000, 0x928d99f6);
    Step(8, state, s, 0xc73741ef, 0x928d99f6, 0x207dc67b, 0x8bac3051, 0x00000000, 0x854b3712);
    Step(9, state, s, 0x8bac3051, 0x854b3712, 0x928d99f6, 0x207dc67b, 0x00000000, 0x74e2f284);
    Step(10, state, s, 0x207dc67b, 0x74e2f284, 0x854b3712, 0x928d99f6, 0x00000000, 0x3020401c);
    Step(11, state, s, 0x928d99f6, 0x3020401c, 0x74e2f284, 0x854b3712, 0x00000000, 0x5ed49596);
    Step(12, state, s, 0x854b3712, 0x5ed49596, 0x3020401c, 0x74e2f284, 0x00000000, 0xdda9b9a6);
    Step(13, state, s, 0x74e2f284, 0xdda9b9a6, 0x5ed49596, 0x3020401c, 0x00000000, 0xa1051895);
    Step(14, state, s, 0x3020401c, 0xa1051895, 0xdda9b9a6, 0x5ed49596, 0x00000018, 0xe396856b);
    Step(15, state, s, 0x5ed49596, 0xe396856b, 0xa1051895, 0xdda9b9a6, 0x00000000, 0x72aff2e0);
  }

  lemma RowsTwo()
    ensures Tab(16) == Row(0xf61e2562, 1, 5) && Tab(17) == Row(0xc040b340, 6, 9) && Tab(18) == Row(0x265e5a51, 11, 14) && Tab(19) == Row(0xe9b6c7aa, 0, 20)
    ensures Tab(20) == Row(0xd62f105d, 5, 5) && Tab(21) == Row(0x02441453, 10, 9) && Tab(22) == Row(0xd8a1e681, 15, 14) && Tab(23) == Row(0xe7d3fbc8, 4, 20)
    ensures Tab(24) == Row(0x21e1cde6, 9, 5) && Tab(25) == Row(0xc33707d6, 14, 9) && Tab(26) == Row(0xf4d50d87, 3, 14) && Tab(27) == Row(0x455a14ed, 8, 20)
    ensures Tab(28) == Row(0xa9e3e905, 13, 5) && Tab(29) == Row(0xfcefa3f8, 2, 9) && Tab(30) == Row(0x676f02d9, 7, 14) && Tab(31) == Row(0x8d2a4c8a, 12, 20)
  {
  }

  lemma Md5RoundTwo(state: seq<bv32>, s: seq<Byte>)
    requires |state| == 4 && AbcLittle(s) && InTurn(16, Turns(16, state, s), 0xdda9b9a6, 0x72aff2e0, 0xe396856b, 0xa1051895)
    ensures InTurn(32, Turns(32, state, s), 0x790a77fb, 0x726342d3, 0xa62884aa, 0x9f47e4f8)
  {
    hide LittleWord, Turns, InTurn, Tab;
    RowsTwo();
    Step(16, state, s, 0xdda9b9a6, 0x72aff2e0, 0xe396856b, 0xa1051895, 0x00000000, 0x3e9e9126);
    Step(17, state, s, 0xa1051895, 0x3e9e9126, 0x72aff2e0, 0xe396856b, 0x00000000, 0x4a1d804e);
    Step(18, state, s, 0xe396856b, 0x4a1d804e, 0x3e9e9126, 0x72aff2e0, 0x00000000, 0xe25e1652);
    Step(19, state, s, 0x72aff2e0, 0xe25e1652, 0x4a1d804e, 0x3e9e9126, 0x80636261, 0xb5b204e4);
    Step(20, state, s, 0x3e9e9126, 0xb5b204e4, 0xe25e1652, 0x4a1d804e, 0x00000000, 0x59a8ffda);
    Step(21, state, s, 0x4a1d804e, 0x59a8ffda, 0xb5b204e4, 0xe25e1652, 0x00000000, 0x6d002f1e);
    Step(22, state, s, 0xe25e1652, 0x6d002f1e, 0x59a8ffda, 0xb5b204e4, 0x00000000, 0xabfc7920);
    Step(23, state, s, 0xb5b204e4, 0xabfc7920, 0x6d002f1e, 0x59a8ffda, 0x00000000, 0x47092c07);
    Step(24, state, s, 0x59a8ffda, 0x47092c07, 0xabfc7920, 0x6d002f1e, 0x00000000, 0xb7f268cf);
    Step(25, state, s, 0x6d002f1e, 0xb7f268cf, 0x47092c07, 0xabfc7920, 0x00000018, 0x09388eff);
    Step(26, state, s, 0xabfc7920, 0x09388eff, 0xb7f268cf, 0x47092c07, 0x00000000, 0xfe1623b1);
    Step(27, state, s, 0x47092c07, 0xfe1623b1, 0x09388eff, 0xb7f268cf, 0x00000000, 0x786acb8f);
    Step(28, state, s, 0xb7f268cf, 0x786acb8f, 0xfe1623b1, 0x09388eff, 0x00000000, 0x790a77fb);
    Step(29, state, s, 0x09388eff, 0x790a77fb, 0x786acb8f, 0xfe1623b1, 0x00000000, 0x9f47e4f8);
    Step(30, state, s, 0xfe1623b1, 0x9f47e4f8, 0x790a77fb, 0x786acb8f, 0x00000000, 0xa62884aa);
    Step(31, state, s, 0x786acb8f, 0xa62884aa, 0x9f47e4f8, 0x790a77fb, 0x00000000, 0x726342d3);
  }

  lemma RowsThree()
    ensures Tab(32) == Row(0xfffa3942, 5, 4) && Tab(33) == Row(0x8771f681, 8, 11) && Tab(34) == Row(0x6d9d6122, 11, 16) && Tab(35) == Row(0xfde5380c, 14, 23)
    ensures Tab(36) == Row(0xa4beea44, 1, 4) && Tab(37) == Row(0x4bdecfa9, 4, 11) && Tab(38) == Row(0xf6bb4b60, 7, 16) && Tab(39) == Row(0xbebfbc70, 10, 23)
    ensures Tab(40) == Row(0x289b7ec6, 13, 4) && Tab(41) == Row(0xeaa127fa, 0, 11) && Tab(42) == Row(0xd4ef3085, 3, 16) && Tab(43) == Row(0x04881d05, 6, 23)
    ensures Tab(44) == Row(0xd9d4d039, 9, 4) && Tab(45) == Row(0xe6db99e5, 12, 11) && Tab(46) == Row(0x1fa27cf8, 15, 16) && Tab(47) == Row(0xc4ac5665, 2, 23)
  {
  }

  lemma Md5RoundThree(state: seq<bv32>, s: seq<Byte>)
    requires |state| == 4 && AbcLittle(s) && InTurn(32, Turns(32, state, s), 0x790a77fb, 0x726342d3, 0xa62884aa, 0x9f47e4f8)
    ensures InTurn(48, Turns(48, state, s), 0x7f2e507b, 0x7beb9700, 0x8fae6399, 0x99d9679d)
  {
    hide LittleWord, Turns, InTurn, Tab;
    RowsThree();
    Step(32, state, s, 0x790a77fb, 0x726342d3, 0xa62884aa, 0x9f47e4f8, 0x00000000, 0xb3707ebf);
    Step(33, state, s, 0x9f47e4f8, 0xb3707ebf, 0x726342d3, 0xa62884aa, 0x00000000, 0x60127b2e);
    Step(34, state, s, 0xa62884aa, 0x60127b2e, 0xb3707ebf, 0x726342d3, 0x00000000, 0x8d212ff5);
    Step(35, state, s, 0x726342d3, 0x8d212ff5, 0x60127b2e, 0xb3707ebf, 0x00000018, 0x3b0875c7);
    Step(36, state, s, 0xb3707ebf, 0x3b0875c7, 0x8d212ff5, 0x60127b2e, 0x00000000, 0x21b117b9);
    Step(37, state, s, 0x60127b2e, 0x21b117b9, 0x3b0875c7, 0x8d212ff5, 0x00000000, 0x6e7429d5);
    Step(38, state, s, 0x8d212ff5, 0x6e7429d5, 0x21b117b9, 0x3b0875c7, 0x00000000, 0x3575227e);
    Step(39, state, s, 0x3b0875c7, 0x3575227e, 0x6e7429d5, 0x21b117b9, 0x00000000, 0x5a2f5ea5);
    Step(40, state, s, 0x21b117b9, 0x5a2f5ea5, 0x3575227e, 0x6e7429d5, 0x00000000, 0x11de1779);
    Step(41, state, s, 0x6e7429d5, 0x11de1779, 0x5a2f5ea5, 0x3575227e, 0x80636261, 0xfadcaa38);
    Step(42, state, s, 0x3575227e, 0xfadcaa38, 0x11de1779, 0x5a2f5ea5, 0x00000000, 0x31c465ca);
    Step(43, state, s, 0x5a2f5ea5, 0x31c465ca, 0xfadcaa38, 0x11de1779, 0x00000000, 0x4c6124f4);
    Step(44, state, s, 0x11de1779, 0x4c6124f4, 0x31c465ca, 0xfadcaa38, 0x00000000, 0x7f2e507b);
    Step(45, state, s, 0xfadcaa38, 0x7f2e507b, 0x4c6124f4, 0x31c465ca, 0x00000000, 0x99d9679d);
    Step(46, state, s, 0x31c465ca, 0x99d9679d, 0x7f2e507b, 0x4c6124f4, 0x00000000, 0x8fae6399);
    Step(47, state, s, 0x4c6124f4, 0x8fae6399, 0x99d9679d, 0x7f2e507b, 0x00000000, 0x7beb9700);
  }

  lemma RowsFour()
    ensures Tab(48) == Row(0xf4292244, 0, 6) && Tab(49) == Row(0x432aff97, 7, 10) && Tab(50) == Row(0xab9423a7, 14, 15) && Tab(51) == Row(0xfc93a039, 5, 21)
    ensures Tab(52) == Row(0x655b59c3, 12, 6) && Tab(53) == Row(0x8f0ccc92, 3, 10) && Tab(54) == Row(0xffeff47d, 10, 15) && Tab(55) == Row(0x85845dd1, 1, 21)
    ensures Tab(56) == Row(0x6fa87e4f, 8, 6) && Tab(57) == Row(0xfe2ce6e0, 15, 10) && Tab(58) == Row(0xa3014314, 6, 15) && Tab(59) == Row(0x4e0811a1, 13, 21)
    ensures Tab(60) == Row(0xf7537e82, 4, 6) && Tab(61) == Row(0xbd3af235, 11, 10) && Tab(62) == Row(0x2ad7d2bb, 2, 15) && Tab(63) == Row(0xeb86d391, 9, 21)
  {
  }

  lemma Md5RoundFour(state: seq<bv32>, s: seq<Byte>)
    requires |state| == 4 && AbcLittle(s) && InTurn(48, Turns(48, state, s), 0x7f2e507b, 0x7beb9700, 0x8fae6399, 0x99d9679d)
    ensures InTurn(64, Turns(64, state, s), 0x310ade8f, 0xc08226b3, 0xe484b9d8, 0x624d8cb2)
  {
    hide LittleWord, Turns, InTurn, Tab;
    RowsFour();
    Step(48, state, s, 0x7f2e507b, 0x7beb9700, 0x8fae6399, 0x99d9679d, 0x80636261, 0x7b201df8);
    Step(49, state, s, 0x99d9679d, 0x7b201df8, 0x7beb9700, 0x8fae6399, 0x00000000, 0xf4e8e96e);
    Step(50, state, s, 0x8fae6399, 0xf4e8e96e, 0x7b201df8, 0x7beb9700, 0x00000018, 0xb298cefd);
    Step(51, state, s, 0x7beb9700, 0xb298cefd, 0xf4e8e96e, 0x7b201df8, 0x00000000, 0x8bf025c4);
    Step(52, state, s, 0x7b201df8, 0x8bf025c4, 0xb298cefd, 0xf4e8e96e, 0x00000000, 0x06cc5e8a);
    Step(53, state, s, 0xf4e8e96e, 0x06cc5e8a, 0x8bf025c4, 0xb298cefd, 0x00000000, 0x5b0d97aa);
    Step(54, state, s, 0xb298cefd, 0x5b0d97aa, 0x06cc5e8a, 0x8bf025c4, 0x00000000, 0x7d632dd0);
    Step(55, state, s, 0x8bf025c4, 0x7d632dd0, 0x5b0d97aa, 0x06cc5e8a, 0x00000000, 0x3bfa2c27);
    Step(56, state, s, 0x06cc5e8a, 0x3bfa2c27, 0x7d632dd0, 0x5b0d97aa, 0x00000000, 0x7f81cc35);
    Step(57, state, s, 0x5b0d97aa, 0x7f81cc35, 0x3bfa2c27, 0x7d632dd0, 0x00000000, 0x094454ab);
    Step(58, state, s, 0x7d632dd0, 0x094454ab, 0x7f81cc35, 0x3bfa2c27, 0x00000000, 0x4f9dbe3f);
    Step(59, state, s, 0x3bfa2c27, 0x4f9dbe3f, 0x094454ab, 0x7f81cc35, 0x00000000, 0x7327d604);
    Step(60, state, s, 0x7f81cc35, 0x7327d604, 0x4f9dbe3f, 0x094454ab, 0x00000000, 0x310ade8f);
    Step(61, state, s, 0x094454ab, 0x310ade8f, 0x7327d604, 0x4f9dbe3f, 0x00000000, 0x624d8cb2);
    Step(62, state, s, 0x4f9dbe3f, 0x624d8cb2, 0x310ade8f, 0x7327d604, 0x00000000, 0xe484b9d8);
    Step(63, state, s, 0x7327d604, 0xe484b9d8, 0x624d8cb2, 0x310ade8f, 0x00000000, 0xc08226b3);
  }

  lemma Md5Words(s: seq<Byte>)
    requires AbcLittle(s)
    ensures Compress(Md5, Seed(Md5), s) == [0x98500190, 0xb04fd23c, 0x7d3f96d6, 0x727fe128]
  {
    hide Turns, InTurn;
    var state := Seed(Md5);
    assert state == [0x67452301, 0xefcdab89, 0x98badcfe, 0x10325476];
    NoTurns(state, s);
    Md5RoundOne(state, s);
    Md5RoundTwo(state, s);
    Md5RoundThree(state, s);
    Md5RoundFour(state, s);
    AllTurned(state, s, 0x310ade8f, 0xc08226b3, 0xe484b9d8, 0x624d8cb2);
  }

  lemma OneBlock(a: Algorithm, r: seq<bv32>, s: seq<Byte>)
    requires |r| == Size(a) && |s| == 64
    ensures Blocks(a, r, s) == Compress(a, r, s)
  {
    hide Compress;
    assert s[|s| - 64..] == s && s[..|s| - 64] == [];
  }

  /** The four bytes of a word of the digest. */
  lemma WordBytes(a: Algorithm, x: nat, b0: Byte, b1: Byte, b2: Byte, b3: Byte)
    requires x == (b0 as int) + 0x100 * (b1 as int) + 0x1_0000 * (b2 as int) + 0x100_0000 * (b3 as int)
    ensures Ordered(a, x, 4) == if a.Md5? then [b0, b1, b2, b3] else [b3, b2, b1, b0]
  {
    hide Reversed;
    var y, z := (b1 as int) + 0x100 * (b2 as int) + 0x1_0000 * (b3 as int), (b2 as int) + 0x100 * (b3 as int);
    assert x == b0 + 0x100 * y && y == b1 + 0x100 * z;
    assert LowBytes(b3, 1) == [b3] && LowBytes(z, 2) == [b2] + LowBytes(b3, 1);
    assert LowBytes(y, 3) == [b1] + LowBytes(z, 2) && LowBytes(x, 4) == [b0] + LowBytes(y, 3);
    assert LowBytes(x, 4) == [b0, b1, b2, b3];
    ReversedFour(b0, b1, b2, b3);
  }

  /** One more word of the digest. */
  lemma ResultOn(a: Algorithm, r: seq<bv32>, t: seq<bv32>, b0: Byte, b1: Byte, b2: Byte, b3: Byte)
    requires |t| > 0 && r == t[..|t| - 1]
    requires t[|t| - 1] as int == (b0 as int) + 0x100 * (b1 as int) + 0x1_0000 * (b2 as int) + 0x100_0000 * (b3 as int)
    ensures Result(a, t) == Result(a, r) + if a.Md5? then [b0, b1, b2, b3] else [b3, b2, b1, b0]
  {
    hide Ordered;
    WordBytes(a, t[|t| - 1] as int, b0, b1, b2, b3);
  }

  lemma Md5Result()
    ensures Result(Md5, [0x98500190, 0xb04fd23c, 0x7d3f96d6, 0x727fe128]) ==
      [0x90, 0x01, 0x50, 0x98, 0x3c, 0xd2, 0x4f, 0xb0, 0xd6, 0x96, 0x3f, 0x7d, 0x28, 0xe1, 0x7f, 0x72]
  {
    hide Ordered;
    ResultOn(Md5, [], [0x98500190], 0x90, 0x01, 0x50, 0x98);
    ResultOn(Md5, [0x98500190], [0x98500190, 0xb04fd23c], 0x3c, 0xd2, 0x4f, 0xb0);
    ResultOn(Md5, [0x98500190, 0xb04fd23c], [0x98500190, 0xb04fd23c, 0x7d3f96d6], 0xd6, 0x96, 0x3f, 0x7d);
    ResultOn(Md5, [0x98500190, 0xb04fd23c, 0x7d3f96d6], [0x98500190, 0xb04fd23c, 0x7d3f96d6, 0x727fe128], 0x28, 0xe1, 0x7f, 0x72);
  }

  /** MD5 of "abc" is 900150983cd24fb0d6963f7d28e17f72. */
  lemma Md5OfAbc()
    ensures DigestOf(Md5, ABC, 3) ==
      [0x90, 0x01, 0x50, 0x98, 0x3c, 0xd2, 0x4f, 0xb0, 0xd6, 0x96, 0x3f, 0x7d, 0x28, 0xe1, 0x7f, 0x72]
  {
    hide Result, Padded, Compress, AbcLittle;
    var s := Padded(Md5, ABC, 3);
    LittleWords();
    AbcPadded(Md5);
    OneBlock(Md5, Seed(Md5), s);
    Md5Words(s);
    Md5Result();
  }

  // ----- SHA

  /** The words of the padded message, highest byte first. */
  ghost predicate AbcBig(s: seq<Byte>) {
    |s| == 64 && forall k :: 0 <= k < 16 ==> BigWord(s, k) == if k == 0 then 0x61626380 else if k == 15 then 24 else 0
  }

  lemma BigWords()
    ensures AbcBig(Padded(Sha, ABC, 3))
  {
    hide Padded;
    AbcPadded(Sha);
    assert Pack(0x80, 0x63, 0x62, 0x61) == 0x61626380 && Pack(24, 0, 0, 0) == 24 && Pack(0, 0, 0, 0) == 0;
  }

  lemma NextWord(s: seq<Byte>, t: nat, a: bv32, b: bv32, c: bv32, d: bv32, w: bv32)
    requires |s| == 64 && 16 <= t && RotateLeft(Xor4(a, b, c, d), 1) == w
    requires Schedule(s, t - 3) == a && Schedule(s, t - 8) == b && Schedule(s, t - 14) == c && Schedule(s, t - 16) == d
    ensures Schedule(s, t) == w
  {
    hide RotateLeft, Xor4;
  }

  lemma FirstWord(s: seq<Byte>, t: nat)
    requires |s| == 64 && t < 16
    ensures Schedule(s, t) == BigWord(s, t)
  {
    hide BigWord;
  }

  lemma ShaStep(t: nat, state: seq<bv32>, s: seq<Byte>, a: bv32, b: bv32, c: bv32, d: bv32, e: bv32, w: bv32, f: bv32, g: bv32)
    requires |state| == 5 && |s| == 64 && [a, b, c, d, e] == Rounds(t, state, s) && Schedule(s, t) == w
    requires Add(Add(Add(RotateLeft(a, 5), e), w), Add(Constant(t), Choice(t, b, c, d))) == f && RotateLeft(b, 30) == g
    ensures Rounds(t + 1, state, s) == [f, a, g, c, d]
  {
    hide Rounds, Schedule, Add, RotateLeft, Constant, Choice;
    RoundOn(t, state, s, a, b, c, d, e);
  }

  lemma WordsOne(s: seq<Byte>)
    requires |s| == 64 && AbcBig(s)
    ensures Schedule(s, 0) == 0x61626380 && Schedule(s, 1) == 0x00000000 && Schedule(s, 2) == 0x00000000 && Schedule(s, 3) == 0x00000000
    ensures Schedule(s, 4) == 0x00000000 && Schedule(s, 5) == 0x00000000 && Schedule(s, 6) == 0x00000000 && Schedule(s, 7) == 0x00000000
    ensures Schedule(s, 8) == 0x00000000 && Schedule(s, 9) == 0x00000000 && Schedule(s, 10) == 0x00000000 && Schedule(s, 11) == 0x00000000
    ensures Schedule(s, 12) == 0x00000000 && Schedule(s, 13) == 0x00000000 && Schedule(s, 14) == 0x00000000 && Schedule(s, 15) == 0x00000018
  {
    hide BigWord, Schedule;
    forall t: nat | t < 16 ensures Schedule(s, t) == BigWord(s, t) { FirstWord(s, t); }
  }

  lemma ShaRoundsOne(state: seq<bv32>, s: seq<Byte>)
    requires |state| == 5 && |s| == 64 && AbcBig(s) && Rounds(0, state, s) == [0x67452301, 0xefcdab89, 0x98badcfe, 0x10325476, 0xc3d2e1f0]
    ensures Rounds(16, state, s) == [0x20bdd62f, 0x196bee77, 0x644a3da5, 0x1181ed99, 0x18c623f9]
  {
    hide Rounds, Schedule, AbcBig;
    WordsOne(s);
    ShaStep(0, state, s, 0x67452301, 0xefcdab89, 0x98badcfe, 0x10325476, 0xc3d2e1f0, 0x61626380, 0x0116fc33, 0x7bf36ae2);
    ShaStep(1, state, s, 0x0116fc33, 0x67452301, 0x7bf36ae2, 0x98badcfe, 0x10325476, 0x00000000, 0x8990536d, 0x59d148c0);
    ShaStep(2, state, s, 0x8990536d, 0x0116fc33, 0x59d148c0, 0x7bf36ae2, 0x98badcfe, 0x00000000, 0xa1390f08, 0xc045bf0c);
    ShaStep(3, state, s, 0xa1390f08, 0x8990536d, 0xc045bf0c, 0x59d148c0, 0x7bf36ae2, 0x00000000, 0xcdd8e11b, 0x626414db);
    ShaStep(4, state, s, 0xcdd8e11b, 0xa1390f08, 0x626414db, 0xc045bf0c, 0x59d148c0, 0x00000000, 0xcfd499de, 0x284e43c2);
    ShaStep(5, state, s, 0xcfd499de, 0xcdd8e11b, 0x284e43c2, 0x626414db, 0xc045bf0c, 0x00000000, 0x3fc7ca40, 0xf3763846);
    ShaStep(6, state, s, 0x3fc7ca40, 0xcfd499de, 0xf3763846, 0x284e43c2, 0x626414db, 0x00000000, 0x993e30c1, 0xb3f52677);
    ShaStep(7, state, s, 0x993e30c1, 0x3fc7ca40, 0xb3f52677, 0xf3763846, 0x284e43c2, 0x00000000, 0x9e8c07d4, 0x0ff1f290);
    ShaStep(8, state, s, 0x9e8c07d4, 0x993e30c1, 0x0ff1f290, 0xb3f52677, 0xf3763846, 0x00000000, 0x4b6ae328, 0x664f8c30);
    ShaStep(9, state, s, 0x4b6ae328, 0x9e8c07d4, 0x664f8c30, 0x0ff1f290, 0xb3f52677, 0x00000000, 0x8351f929, 0x27a301f5);
    ShaStep(10, state, s, 0x8351f929, 0x4b6ae328, 0x27a301f5, 0x664f8c30, 0x0ff1f290, 0x00000000, 0xfbda9e89, 0x12dab8ca);
    ShaStep(11, state, s, 0xfbda9e89, 0x8351f929, 0x12dab8ca, 0x27a301f5, 0x664f8c30, 0x00000000, 0x63188fe4, 0x60d47e4a);
    ShaStep(12, state, s, 0x63188fe4, 0xfbda9e89, 0x60d47e4a, 0x12dab8ca, 0x27a301f5, 0x00000000, 0x4607b664, 0x7ef6a7a2);
    ShaStep(13, state, s, 0x4607b664, 0x63188fe4, 0x7ef6a7a2, 0x60d47e4a, 0x12dab8ca, 0x00000000, 0x9128f695, 0x18c623f9);
    ShaStep(14, state, s, 0x9128f695, 0x4607b664, 0x18c623f9, 0x7ef6a7a2, 0x60d47e4a, 0x00000000, 0x196bee77, 0x1181ed99);
    ShaStep(15, state, s, 0x196bee77, 0x9128f695, 0x1181ed99, 0x18c623f9, 0x7ef6a7a2, 0x00000018, 0x20bdd62f, 0x644a3da5);
  }

  lemma WordsTwo(s: seq<Byte>)
    requires |s| == 64 && AbcBig(s)
    ensures Schedule(s, 16) == 0xc2c4c700 && Schedule(s, 17) == 0x00000000 && Schedule(s, 18) == 0x00000030 && Schedule(s, 19) == 0x85898e01
    ensures Schedule(s, 20) == 0x00000000 && Schedule(s, 21) == 0x00000060 && Schedule(s, 22) == 0x0b131c03 && Schedule(s, 23) == 0x00000030
    ensures Schedule(s, 24) == 0x85898ec1 && Schedule(s, 25) == 0x16263806 && Schedule(s, 26) == 0x00000000 && Schedule(s, 27) == 0x00000180
    ensures Schedule(s, 28) == 0x2c4c700c && Schedule(s, 29) == 0x000000f0 && Schedule(s, 30) == 0x93afb507 && Schedule(s, 31) == 0x5898e048
  {
    hide Schedule, AbcBig;
    WordsOne(s);
    NextWord(s, 16, 0x00000000, 0x00000000, 0x00000000, 0x61626380, 0xc2c4c700);
    NextWord(s, 17, 0x00000000, 0x00000000, 0x00000000, 0x00000000, 0x00000000);
    NextWord(s, 18, 0x00000018, 0x00000000, 0x00000000, 0x00000000, 0x00000030);
    NextWord(s, 19, 0xc2c4c700, 0x00000000, 0x00000000, 0x00000000, 0x85898e01);
    NextWord(s, 20, 0x00000000, 0x00000000, 0x00000000, 0x00000000, 0x00000000);
    NextWord(s, 21, 0x00000030, 0x00000000, 0x00000000, 0x00000000, 0x00000060);
    NextWord(s, 22, 0x85898e01, 0x00000000, 0x00000000, 0x00000000, 0x0b131c03);
    NextWord(s, 23, 0x00000000, 0x00000018, 0x00000000, 0x00000000, 0x00000030);
    NextWord(s, 24, 0x00000060, 0xc2c4c700, 0x00000000, 0x00000000, 0x85898ec1);
    NextWord(s, 25, 0x0b131c03, 0x00000000, 0x00000000, 0x00000000, 0x16263806);
    NextWord(s, 26, 0x00000030, 0x00000030, 0x00000000, 0x00000000, 0x00000000);
    NextWord(s, 27, 0x85898ec1, 0x85898e01, 0x00000000, 0x00000000, 0x00000180);
    NextWord(s, 28, 0x16263806, 0x00000000, 0x00000000, 0x00000000, 0x2c4c700c);
    NextWord(s, 29, 0x00000000, 0x00000060, 0x00000018, 0x00000000, 0x000000f0);
    NextWord(s, 30, 0x00000180, 0x0b131c03, 0xc2c4c700, 0x00000000, 0x93afb507);
    NextWord(s, 31, 0x2c4c700c, 0x00000030, 0x00000000, 0x00000018, 0x5898e048);
  }

  lemma ShaRoundsTwo(state: seq<bv32>, s: seq<Byte>)
    requires |state| == 5 && |s| == 64 && AbcBig(s) && Rounds(16, state, s) == [0x20bdd62f, 0x196bee77, 0x644a3da5, 0x1181ed99, 0x18c623f9]
    ensures Rounds(32, state, s) == [0x3b845d33, 0x1267b407, 0x717eebd7, 0xa0dc2d4b, 0xd2aa1365]
  {
    hide Rounds, Schedule, AbcBig;
    WordsTwo(s);
    ShaStep(16, state, s, 0x20bdd62f, 0x196bee77, 0x644a3da5, 0x1181ed99, 0x18c623f9, 0xc2c4c700, 0x4e925823, 0xc65afb9d);
    ShaStep(17, state, s, 0x4e925823, 0x20bdd62f, 0xc65afb9d, 0x644a3da5, 0x1181ed99, 0x00000000, 0x82aa6728, 0xc82f758b);
    ShaStep(18, state, s, 0x82aa6728, 0x4e925823, 0xc82f758b, 0xc65afb9d, 0x644a3da5, 0x00000030, 0xdc64901d, 0xd3a49608);
    ShaStep(19, state, s, 0xdc64901d, 0x82aa6728, 0xd3a49608, 0xc82f758b, 0xc65afb9d, 0x85898e01, 0xfd9e1d7d, 0x20aa99ca);
    ShaStep(20, state, s, 0xfd9e1d7d, 0xdc64901d, 0x20aa99ca, 0xd3a49608, 0xc82f758b, 0x00000000, 0x1a37b0ca, 0x77192407);
    ShaStep(21, state, s, 0x1a37b0ca, 0xfd9e1d7d, 0x77192407, 0x20aa99ca, 0xd3a49608, 0x00000060, 0x33a23bfc, 0x7f67875f);
    ShaStep(22, state, s, 0x33a23bfc, 0x1a37b0ca, 0x7f67875f, 0x77192407, 0x20aa99ca, 0x0b131c03, 0x21283486, 0x868dec32);
    ShaStep(23, state, s, 0x21283486, 0x33a23bfc, 0x868dec32, 0x7f67875f, 0x77192407, 0x00000030, 0xd541f12d, 0x0ce88eff);
    ShaStep(24, state, s, 0xd541f12d, 0x21283486, 0x0ce88eff, 0x868dec32, 0x7f67875f, 0x85898ec1, 0xc7567dc6, 0x884a0d21);
    ShaStep(25, state, s, 0xc7567dc6, 0xd541f12d, 0x884a0d21, 0x0ce88eff, 0x868dec32, 0x16263806, 0x48413ba4, 0x75507c4b);
    ShaStep(26, state, s, 0x48413ba4, 0xc7567dc6, 0x75507c4b, 0x884a0d21, 0x0ce88eff, 0x00000000, 0xbe35fbd5, 0xb1d59f71);
    ShaStep(27, state, s, 0xbe35fbd5, 0x48413ba4, 0xb1d59f71, 0x75507c4b, 0x884a0d21, 0x00000180, 0x4aa84d97, 0x12104ee9);
    ShaStep(28, state, s, 0x4aa84d97, 0xbe35fbd5, 0x12104ee9, 0xb1d59f71, 0x75507c4b, 0x2c4c700c, 0x8370b52e, 0x6f8d7ef5);
    ShaStep(29, state, s, 0x8370b52e, 0x4aa84d97, 0x6f8d7ef5, 0x12104ee9, 0xb1d59f71, 0x000000f0, 0xc5fbaf5d, 0xd2aa1365);
    ShaStep(30, state, s, 0xc5fbaf5d, 0x8370b52e, 0xd2aa1365, 0x6f8d7ef5, 0x12104ee9, 0x93afb507, 0x1267b407, 0xa0dc2d4b);
    ShaStep(31, state, s, 0x1267b407, 0xc5fbaf5d, 0xa0dc2d4b, 0xd2aa1365, 0x6f8d7ef5, 0x5898e048, 0x3b845d33, 0x717eebd7);
  }

  lemma WordsThree(s: seq<Byte>)
    requires |s| == 64 && AbcBig(s)
    ensures Schedule(s, 32) == 0x8e9a9202 && Schedule(s, 33) == 0x00000600 && Schedule(s, 34) == 0xb131c0f0 && Schedule(s, 35) == 0x16263bc6
    ensures Schedule(s, 36) == 0x4ebed41e && Schedule(s, 37) == 0x626380a1 && Schedule(s, 38) == 0x16263806 && Schedule(s, 39) == 0x000018c0
    ensures Schedule(s, 40) == 0xd2e138c4 && Schedule(s, 41) == 0x00000f00 && Schedule(s, 42) == 0x3afb5079 && Schedule(s, 43) == 0x898e04e5
    ensures Schedule(s, 44) == 0xe2ba3c2b && Schedule(s, 45) == 0x000060c0 && Schedule(s, 46) == 0x053a37cd && Schedule(s, 47) == 0x74458547
  {
    hide Schedule, AbcBig;
    WordsTwo(s);
    NextWord(s, 32, 0x000000f0, 0x85898ec1, 0x00000030, 0xc2c4c700, 0x8e9a9202);
    NextWord(s, 33, 0x93afb507, 0x16263806, 0x85898e01, 0x00000000, 0x00000600);
    NextWord(s, 34, 0x5898e048, 0x00000000, 0x00000000, 0x00000030, 0xb131c0f0);
    NextWord(s, 35, 0x8e9a9202, 0x00000180, 0x00000060, 0x85898e01, 0x16263bc6);
    NextWord(s, 36, 0x00000600, 0x2c4c700c, 0x0b131c03, 0x00000000, 0x4ebed41e);
    NextWord(s, 37, 0xb131c0f0, 0x000000f0, 0x00000030, 0x00000060, 0x626380a1);
    NextWord(s, 38, 0x16263bc6, 0x93afb507, 0x85898ec1, 0x0b131c03, 0x16263806);
    NextWord(s, 39, 0x4ebed41e, 0x5898e048, 0x16263806, 0x00000030, 0x000018c0);
    NextWord(s, 40, 0x626380a1, 0x8e9a9202, 0x00000000, 0x85898ec1, 0xd2e138c4);
    NextWord(s, 41, 0x16263806, 0x00000600, 0x00000180, 0x16263806, 0x00000f00);
    NextWord(s, 42, 0x000018c0, 0xb131c0f0, 0x2c4c700c, 0x00000000, 0x3afb5079);
    NextWord(s, 43, 0xd2e138c4, 0x16263bc6, 0x000000f0, 0x00000180, 0x898e04e5);
    NextWord(s, 44, 0x00000f00, 0x4ebed41e, 0x93afb507, 0x2c4c700c, 0xe2ba3c2b);
    NextWord(s, 45, 0x3afb5079, 0x626380a1, 0x5898e048, 0x000000f0, 0x000060c0);
    NextWord(s, 46, 0x898e04e5, 0x16263806, 0x8e9a9202, 0x93afb507, 0x053a37cd);
    NextWord(s, 47, 0xe2ba3c2b, 0x000018c0, 0x00000600, 0x5898e048, 0x74458547);
  }

  lemma ShaRoundsThree(state: seq<bv32>, s: seq<Byte>)
    requires |state| == 5 && |s| == 64 && AbcBig(s) && Rounds(32, state, s) == [0x3b845d33, 0x1267b407, 0x717eebd7, 0xa0dc2d4b, 0xd2aa1365]
    ensures Rounds(48, state, s) == [0xbead02ca, 0xa01b846c, 0x8714787c, 0x503ca382, 0xfb86c6ab]
  {
    hide Rounds, Schedule, AbcBig;
    WordsThree(s);
    ShaStep(32, state, s, 0x3b845d33, 0x1267b407, 0x717eebd7, 0xa0dc2d4b, 0xd2aa1365, 0x8e9a9202, 0x046faa0a, 0xc499ed01);
    ShaStep(33, state, s, 0x046faa0a, 0x3b845d33, 0xc499ed01, 0x717eebd7, 0xa0dc2d4b, 0x00000600, 0x2c0ebc11, 0xcee1174c);
    ShaStep(34, state, s, 0x2c0ebc11, 0x046faa0a, 0xcee1174c, 0xc499ed01, 0x717eebd7, 0xb131c0f0, 0x21796ad4, 0x811bea82);
    ShaStep(35, state, s, 0x21796ad4, 0x2c0ebc11, 0x811bea82, 0xcee1174c, 0xc499ed01, 0x16263bc6, 0xdcbbb0cb, 0x4b03af04);
    ShaStep(36, state, s, 0xdcbbb0cb, 0x21796ad4, 0x4b03af04, 0x811bea82, 0xcee1174c, 0x4ebed41e, 0x0f511fd8, 0x085e5ab5);
    ShaStep(37, state, s, 0x0f511fd8, 0xdcbbb0cb, 0x085e5ab5, 0x4b03af04, 0x811bea82, 0x626380a1, 0xdc63973f, 0xf72eec32);
    ShaStep(38, state, s, 0xdc63973f, 0x0f511fd8, 0xf72eec32, 0x085e5ab5, 0x4b03af04, 0x16263806, 0x4c986405, 0x03d447f6);
    ShaStep(39, state, s, 0x4c986405, 0xdc63973f, 0x03d447f6, 0xf72eec32, 0x085e5ab5, 0x000018c0, 0x32de1cba, 0xf718e5cf);
    ShaStep(40, state, s, 0x32de1cba, 0x4c986405, 0xf718e5cf, 0x03d447f6, 0xf72eec32, 0xd2e138c4, 0xfc87dedf, 0x53261901);
    ShaStep(41, state, s, 0xfc87dedf, 0x32de1cba, 0x53261901, 0xf718e5cf, 0x03d447f6, 0x00000f00, 0x970a0d5c, 0x8cb7872e);
    ShaStep(42, state, s, 0x970a0d5c, 0xfc87dedf, 0x8cb7872e, 0x53261901, 0xf718e5cf, 0x3afb5079, 0x7f193dc5, 0xff21f7b7);
    ShaStep(43, state, s, 0x7f193dc5, 0x970a0d5c, 0xff21f7b7, 0x8cb7872e, 0x53261901, 0x898e04e5, 0xee1b1aaf, 0x25c28357);
    ShaStep(44, state, s, 0xee1b1aaf, 0x7f193dc5, 0x25c28357, 0xff21f7b7, 0x8cb7872e, 0xe2ba3c2b, 0x40f28e09, 0x5fc64f71);
    ShaStep(45, state, s, 0x40f28e09, 0xee1b1aaf, 0x5fc64f71, 0x25c28357, 0xff21f7b7, 0x000060c0, 0x1c51e1f2, 0xfb86c6ab);
    ShaStep(46, state, s, 0x1c51e1f2, 0x40f28e09, 0xfb86c6ab, 0x5fc64f71, 0x25c28357, 0x053a37cd, 0xa01b846c, 0x503ca382);
    ShaStep(47, state, s, 0xa01b846c, 0x1c51e1f2, 0x503ca382, 0xfb86c6ab, 0x5fc64f71, 0x74458547, 0xbead02ca, 0x8714787c);
  }

  lemma WordsFour(s: seq<Byte>)
    requires |s| == 64 && AbcBig(s)
    ensures Schedule(s, 48) == 0xda9415ed && Schedule(s, 49) == 0x26380a16 && Schedule(s, 50) == 0x626383a1 && Schedule(s, 51) == 0x4ebf54de
    ensures Schedule(s, 52) == 0x3835b44b && Schedule(s, 53) == 0x0000f600 && Schedule(s, 54) == 0x1e84c7a3 && Schedule(s, 55) == 0x98e04d98
    ensures Schedule(s, 56) == 0x651d16a0 && Schedule(s, 57) == 0x62658ca1 && Schedule(s, 58) == 0x458544d6 && Schedule(s, 59) == 0x44584cb7
    ensures Schedule(s, 60) == 0x7ba06619 && Schedule(s, 61) == 0x6380aea2 && Schedule(s, 62) == 0x0ae55269 && Schedule(s, 63) == 0x627b49a1
  {
    hide Schedule, AbcBig;
    WordsThree(s);
    NextWord(s, 48, 0x000060c0, 0xd2e138c4, 0xb131c0f0, 0x8e9a9202, 0xda9415ed);
    NextWord(s, 49, 0x053a37cd, 0x00000f00, 0x16263bc6, 0x00000600, 0x26380a16);
    NextWord(s, 50, 0x74458547, 0x3afb5079, 0x4ebed41e, 0xb131c0f0, 0x626383a1);
    NextWord(s, 51, 0xda9415ed, 0x898e04e5, 0x626380a1, 0x16263bc6, 0x4ebf54de);
    NextWord(s, 52, 0x26380a16, 0xe2ba3c2b, 0x16263806, 0x4ebed41e, 0x3835b44b);
    NextWord(s, 53, 0x626383a1, 0x000060c0, 0x000018c0, 0x626380a1, 0x0000f600);
    NextWord(s, 54, 0x4ebf54de, 0x053a37cd, 0xd2e138c4, 0x16263806, 0x1e84c7a3);
    NextWord(s, 55, 0x3835b44b, 0x74458547, 0x00000f00, 0x000018c0, 0x98e04d98);
    NextWord(s, 56, 0x0000f600, 0xda9415ed, 0x3afb5079, 0xd2e138c4, 0x651d16a0);
    NextWord(s, 57, 0x1e84c7a3, 0x26380a16, 0x898e04e5, 0x00000f00, 0x62658ca1);
    NextWord(s, 58, 0x98e04d98, 0x626383a1, 0xe2ba3c2b, 0x3afb5079, 0x458544d6);
    NextWord(s, 59, 0x651d16a0, 0x4ebf54de, 0x000060c0, 0x898e04e5, 0x44584cb7);
    NextWord(s, 60, 0x62658ca1, 0x3835b44b, 0x053a37cd, 0xe2ba3c2b, 0x7ba06619);
    NextWord(s, 61, 0x458544d6, 0x0000f600, 0x74458547, 0x000060c0, 0x6380aea2);
    NextWord(s, 62, 0x44584cb7, 0x1e84c7a3, 0xda9415ed, 0x053a37cd, 0x0ae55269);
    NextWord(s, 63, 0x7ba06619, 0x98e04d98, 0x26380a16, 0x74458547, 0x627b49a1);
  }

  lemma ShaRoundsFour(state: seq<bv32>, s: seq<Byte>)
    requires |state| == 5 && |s| == 64 && AbcBig(s) && Rounds(48, state, s) == [0xbead02ca, 0xa01b846c, 0x8714787c, 0x503ca382, 0xfb86c6ab]
    ensures Rounds(64, state, s) == [0x6b61c9e1, 0xb66c020b, 0x9523272c, 0xf5d5b051, 0x8fd4b796]
  {
    hide Rounds, Schedule, AbcBig;
    WordsFour(s);
    ShaStep(48, state, s, 0xbead02ca, 0xa01b846c, 0x8714787c, 0x503ca382, 0xfb86c6ab, 0xda9415ed, 0xbaf39337, 0x2806e11b);
    ShaStep(49, state, s, 0xbaf39337, 0xbead02ca, 0x2806e11b, 0x8714787c, 0x503ca382, 0x26380a16, 0x120731c5, 0xafab40b2);
    ShaStep(50, state, s, 0x120731c5, 0xbaf39337, 0xafab40b2, 0x2806e11b, 0x8714787c, 0x626383a1, 0x641db2ce, 0xeebce4cd);
    ShaStep(51, state, s, 0x641db2ce, 0x120731c5, 0xeebce4cd, 0xafab40b2, 0x2806e11b, 0x4ebf54de, 0x3847ad66, 0x4481cc71);
    ShaStep(52, state, s, 0x3847ad66, 0x641db2ce, 0x4481cc71, 0xeebce4cd, 0xafab40b2, 0x3835b44b, 0xe490436d, 0x99076cb3);
    ShaStep(53, state, s, 0xe490436d, 0x3847ad66, 0x99076cb3, 0x4481cc71, 0xeebce4cd, 0x0000f600, 0x27e9f1d8, 0x8e11eb59);
    ShaStep(54, state, s, 0x27e9f1d8, 0xe490436d, 0x8e11eb59, 0x99076cb3, 0x4481cc71, 0x1e84c7a3, 0x7b71f76d, 0x792410db);
    ShaStep(55, state, s, 0x7b71f76d, 0x27e9f1d8, 0x792410db, 0x8e11eb59, 0x99076cb3, 0x98e04d98, 0x5e6456af, 0x09fa7c76);
    ShaStep(56, state, s, 0x5e6456af, 0x7b71f76d, 0x09fa7c76, 0x792410db, 0x8e11eb59, 0x651d16a0, 0xc846093f, 0x5edc7ddb);
    ShaStep(57, state, s, 0xc846093f, 0x5e6456af, 0x5edc7ddb, 0x09fa7c76, 0x792410db, 0x62658ca1, 0xd262ff50, 0xd79915ab);
    ShaStep(58, state, s, 0xd262ff50, 0xc846093f, 0xd79915ab, 0x5edc7ddb, 0x09fa7c76, 0x458544d6, 0x09d785fd, 0xf211824f);
    ShaStep(59, state, s, 0x09d785fd, 0xd262ff50, 0xf211824f, 0xd79915ab, 0x5edc7ddb, 0x44584cb7, 0x3f52de5a, 0x3498bfd4);
    ShaStep(60, state, s, 0x3f52de5a, 0x09d785fd, 0x3498bfd4, 0xf211824f, 0xd79915ab, 0x7ba06619, 0xd756c147, 0x4275e17f);
    ShaStep(61, state, s, 0xd756c147, 0x3f52de5a, 0x4275e17f, 0x3498bfd4, 0xf211824f, 0x6380aea2, 0x548c9cb2, 0x8fd4b796);
    ShaStep(62, state, s, 0x548c9cb2, 0xd756c147, 0x8fd4b796, 0x4275e17f, 0x3498bfd4, 0x0ae55269, 0xb66c020b, 0xf5d5b051);
    ShaStep(63, state, s, 0xb66c020b, 0x548c9cb2, 0xf5d5b051, 0x8fd4b796, 0x4275e17f, 0x627b49a1, 0x6b61c9e1, 0x9523272c);
  }

  lemma WordsFive(s: seq<Byte>)
    requires |s| == 64 && AbcBig(s)
    ensures Schedule(s, 64) == 0x7cd45c9d && Schedule(s, 65) == 0x000f0000 && Schedule(s, 66) == 0xfb50753a && Schedule(s, 67) == 0xec6765e8
    ensures Schedule(s, 68) == 0xba3c2be2 && Schedule(s, 69) == 0x0060c000 && Schedule(s, 70) == 0x3a37cd05 && Schedule(s, 71) == 0x458546f4
    ensures Schedule(s, 72) == 0xb8599dd6 && Schedule(s, 73) == 0x380a1a26 && Schedule(s, 74) == 0x01e02203 && Schedule(s, 75) == 0xe7cc3456
    ensures Schedule(s, 76) == 0xe6e60b69 && Schedule(s, 77) == 0x00f60a00 && Schedule(s, 78) == 0x5795ef4f && Schedule(s, 79) == 0x822e0879
  {
    hide Schedule, AbcBig;
    WordsFour(s);
    NextWord(s, 64, 0x6380aea2, 0x651d16a0, 0x626383a1, 0xda9415ed, 0x7cd45c9d);
    NextWord(s, 65, 0x0ae55269, 0x62658ca1, 0x4ebf54de, 0x26380a16, 0x000f0000);
    NextWord(s, 66, 0x627b49a1, 0x458544d6, 0x3835b44b, 0x626383a1, 0xfb50753a);
    NextWord(s, 67, 0x7cd45c9d, 0x44584cb7, 0x0000f600, 0x4ebf54de, 0xec6765e8);
    NextWord(s, 68, 0x000f0000, 0x7ba06619, 0x1e84c7a3, 0x3835b44b, 0xba3c2be2);
    NextWord(s, 69, 0xfb50753a, 0x6380aea2, 0x98e04d98, 0x0000f600, 0x0060c000);
    NextWord(s, 70, 0xec6765e8, 0x0ae55269, 0x651d16a0, 0x1e84c7a3, 0x3a37cd05);
    NextWord(s, 71, 0xba3c2be2, 0x627b49a1, 0x62658ca1, 0x98e04d98, 0x458546f4);
    NextWord(s, 72, 0x0060c000, 0x7cd45c9d, 0x458544d6, 0x651d16a0, 0xb8599dd6);
    NextWord(s, 73, 0x3a37cd05, 0x000f0000, 0x44584cb7, 0x62658ca1, 0x380a1a26);
    NextWord(s, 74, 0x458546f4, 0xfb50753a, 0x7ba06619, 0x458544d6, 0x01e02203);
    NextWord(s, 75, 0xb8599dd6, 0xec6765e8, 0x6380aea2, 0x44584cb7, 0xe7cc3456);
    NextWord(s, 76, 0x380a1a26, 0xba3c2be2, 0x0ae55269, 0x7ba06619, 0xe6e60b69);
    NextWord(s, 77, 0x01e02203, 0x0060c000, 0x627b49a1, 0x6380aea2, 0x00f60a00);
    NextWord(s, 78, 0xe7cc3456, 0x3a37cd05, 0x7cd45c9d, 0x0ae55269, 0x5795ef4f);
    NextWord(s, 79, 0xe6e60b69, 0x458546f4, 0x000f0000, 0x627b49a1, 0x822e0879);
  }

  lemma ShaRoundsFive(state: seq<bv32>, s: seq<Byte>)
    requires |state| == 5 && |s| == 64 && AbcBig(s) && Rounds(64, state, s) == [0x6b61c9e1, 0xb66c020b, 0x9523272c, 0xf5d5b051, 0x8fd4b796]
    ensures Rounds(80, state, s) == [0x42541b35, 0x5738d5e1, 0x21834873, 0x681e6df6, 0xd8fdf6ad]
  {
    hide Rounds, Schedule, AbcBig;
    WordsFive(s);
    ShaStep(64, state, s, 0x6b61c9e1, 0xb66c020b, 0x9523272c, 0xf5d5b051, 0x8fd4b796, 0x7cd45c9d, 0x19dfa7ac, 0xed9b0082);
    ShaStep(65, state, s, 0x19dfa7ac, 0x6b61c9e1, 0xed9b0082, 0x9523272c, 0xf5d5b051, 0x000f0000, 0x101655f9, 0x5ad87278);
    ShaStep(66, state, s, 0x101655f9, 0x19dfa7ac, 0x5ad87278, 0xed9b0082, 0x9523272c, 0xfb50753a, 0x0c3df2b4, 0x0677e9eb);
    ShaStep(67, state, s, 0x0c3df2b4, 0x101655f9, 0x0677e9eb, 0x5ad87278, 0xed9b0082, 0xec6765e8, 0x78dd4d2b, 0x4405957e);
    ShaStep(68, state, s, 0x78dd4d2b, 0x0c3df2b4, 0x4405957e, 0x0677e9eb, 0x5ad87278, 0xba3c2be2, 0x497093c0, 0x030f7cad);
    ShaStep(69, state, s, 0x497093c0, 0x78dd4d2b, 0x030f7cad, 0x4405957e, 0x0677e9eb, 0x0060c000, 0x3f2588c2, 0xde37534a);
    ShaStep(70, state, s, 0x3f2588c2, 0x497093c0, 0xde37534a, 0x030f7cad, 0x4405957e, 0x3a37cd05, 0xc199f8c7, 0x125c24f0);
    ShaStep(71, state, s, 0xc199f8c7, 0x3f2588c2, 0x125c24f0, 0xde37534a, 0x030f7cad, 0x458546f4, 0x39859de7, 0x8fc96230);
    ShaStep(72, state, s, 0x39859de7, 0xc199f8c7, 0x8fc96230, 0x125c24f0, 0xde37534a, 0xb8599dd6, 0xedb42de4, 0xf0667e31);
    ShaStep(73, state, s, 0xedb42de4, 0x39859de7, 0xf0667e31, 0x8fc96230, 0x125c24f0, 0x380a1a26, 0x11793f6f, 0xce616779);
    ShaStep(74, state, s, 0x11793f6f, 0xedb42de4, 0xce616779, 0xf0667e31, 0x8fc96230, 0x01e02203, 0x5ee76897, 0x3b6d0b79);
    ShaStep(75, state, s, 0x5ee76897, 0x11793f6f, 0x3b6d0b79, 0xce616779, 0xf0667e31, 0xe7cc3456, 0x63f7dab7, 0xc45e4fdb);
    ShaStep(76, state, s, 0x63f7dab7, 0x5ee76897, 0xc45e4fdb, 0x3b6d0b79, 0xce616779, 0xe6e60b69, 0xa079b7d9, 0xd7b9da25);
    ShaStep(77, state, s, 0xa079b7d9, 0x63f7dab7, 0xd7b9da25, 0xc45e4fdb, 0x3b6d0b79, 0x00f60a00, 0x860d21cc, 0xd8fdf6ad);
    ShaStep(78, state, s, 0x860d21cc, 0xa079b7d9, 0xd8fdf6ad, 0xd7b9da25, 0xc45e4fdb, 0x5795ef4f, 0x5738d5e1, 0x681e6df6);
    ShaStep(79, state, s, 0x5738d5e1, 0x860d21cc, 0x681e6df6, 0xd8fdf6ad, 0xd7b9da25, 0x822e0879, 0x42541b35, 0x21834873);
  }

  lemma ShaWords(s: seq<Byte>)
    requires |s| == 64 && AbcBig(s)
    ensures Compress(Sha, Seed(Sha), s) == [0xa9993e36, 0x4706816a, 0xba3e2571, 0x7850c26c, 0x9cd0d89d]
  {
    hide Rounds, AbcBig;
    var state := Seed(Sha);
    assert state == [0x67452301, 0xefcdab89, 0x98badcfe, 0x10325476, 0xc3d2e1f0];
    NoRounds(state, s);
    ShaRoundsOne(state, s);
    ShaRoundsTwo(state, s);
    ShaRoundsThree(state, s);
    ShaRoundsFour(state, s);
    ShaRoundsFive(state, s);
  }

  lemma ShaResult()
    ensures Result(Sha, [0xa9993e36, 0x4706816a, 0xba3e2571, 0x7850c26c, 0x9cd0d89d]) ==
      [0xa9, 0x99, 0x3e, 0x36, 0x47, 0x06, 0x81, 0x6a, 0xba, 0x3e, 0x25, 0x71, 0x78, 0x50, 0xc2, 0x6c, 0x9c, 0xd0, 0xd8, 0x9d]
  {
    hide Ordered;
    ResultOn(Sha, [], [0xa9993e36], 0x36, 0x3e, 0x99, 0xa9);
    ResultOn(Sha, [0xa9993e36], [0xa9993e36, 0x4706816a], 0x6a, 0x81, 0x06, 0x47);
    ResultOn(Sha, [0xa9993e36, 0x4706816a], [0xa9993e36, 0x4706816a, 0xba3e2571], 0x71, 0x25, 0x3e, 0xba);
    ResultOn(Sha, [0xa9993e36, 0x4706816a, 0xba3e2571], [0xa9993e36, 0x4706816a, 0xba3e2571, 0x7850c26c], 0x6c, 0xc2, 0x50, 0x78);
    ResultOn(Sha, [0xa9993e36, 0x4706816a, 0xba3e2571, 0x7850c26c], [0xa9993e36, 0x4706816a, 0xba3e2571, 0x7850c26c, 0x9cd0d89d], 0x9d, 0xd8, 0xd0, 0x9c);
  }

  /** SHA of "abc" is a9993e364706816aba3e25717850c26c9cd0d89d. */
  lemma ShaOfAbc()
    ensures DigestOf(Sha, ABC, 3) ==
      [0xa9, 0x99, 0x3e, 0x36, 0x47, 0x06, 0x81, 0x6a, 0xba, 0x3e, 0x25, 0x71, 0x78, 0x50, 0xc2, 0x6c, 0x9c, 0xd0, 0xd8, 0x9d]
  {
    hide Result, Padded, Compress, AbcBig;
    var s := Padded(Sha, ABC, 3);
    BigWords();
    AbcPadded(Sha);
    OneBlock(Sha, Seed(Sha), s);
    ShaWords(s);
    ShaResult();
  }

  /** The constants of SHA: the roots of 2, 3, 5 and 10, times 2^30, rounded down. */
  lemma ConstantIsRoot(t: nat)
    ensures var c, n := Constant(t) as int, if t < 20 then 2 else if t < 40 then 3 else if t < 60 then 5 else 10;
            c * c <= n * 0x1000_0000_0000_0000 < (c + 1) * (c + 1)
  {
  }
}
