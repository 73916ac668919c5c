/** Test vectors of RFC 1320, appendix A.5, worked through the digest as `Md4Spec` defines it. They fix what no theorem
    about two computations of the same digest can: schedules, shift amounts, constants, byte order. */
module Md4Vectors {
  import opened Bytes
  import opened Md4Spec
  import opened Md4

  /** Four operations with fixed registers, on the words w0 to w3, take a, b, c, d to a', b', c', d'. */
  predicate Four(f: (bv32, bv32, bv32) -> bv32, t: bv32, s: (nat, nat, nat, nat), a: bv32, b: bv32, c: bv32, d: bv32,
      w0: bv32, w1: bv32, w2: bv32, w3: bv32, a': bv32, b': bv32, c': bv32, d': bv32)
  {
    && a' == OpValue(a, f(b, c, d), w0, t, s.0) && d' == OpValue(d, f(a', b, c), w1, t, s.1)
    && c' == OpValue(c, f(d', a', b), w2, t, s.2) && b' == OpValue(b, f(c', d', a'), w3, t, s.3)
  }

  lemma NextFour(f: (bv32, bv32, bv32) -> bv32, t: bv32, s: (nat, nat, nat, nat), x: seq<bv32>, words: seq<nat>,
      shifts: seq<nat>, n: nat, r: Regs<bv32>, a: bv32, b: bv32, c: bv32, d: bv32, w0: bv32, w1: bv32, w2: bv32,
      w3: bv32, a': bv32, b': bv32, c': bv32, d': bv32)
    requires |x| == 16 && Schedule(words, shifts) && n <= 12 && n % 4 == 0 && shifts == [s.0, s.1, s.2, s.3]
    requires Operations(Op(f, t), x, words, shifts, n, r) == Regs(a, b, c, d)
    requires x[words[n]] == w0 && x[words[n + 1]] == w1 && x[words[n + 2]] == w2 && x[words[n + 3]] == w3
    requires Four(f, t, s, a, b, c, d, w0, w1, w2, w3, a', b', c', d')
    ensures Operations(Op(f, t), x, words, shifts, n + 4, r) == Regs(a', b', c', d')
  {
    hide OpValue, Operations;
    FourSteps(Op(f, t), x, words, shifts, n, r);
  }

  lemma WordFrom(b: seq<Byte>, n: nat)
    requires |b| == 4 && n < 0x1_0000_0000
    requires var b0: int, b1: int, b2: int, b3: int := b[0], b[1], b[2], b[3];
             n == b0 + 0x100 * b1 + 0x1_0000 * b2 + 0x100_0000 * b3
    ensures Word(b) == n as bv32
  {
  }

  lemma WordIs(block: seq<Byte>, i: nat, b0: int, b1: int, b2: int, b3: int, w: bv32)
    requires |block| == 64 && i < 16
    requires block[4 * i] == b0 && block[4 * i + 1] == b1 && block[4 * i + 2] == b2 && block[4 * i + 3] == b3
    requires w as nat == b0 + 0x100 * b1 + 0x1_0000 * b2 + 0x100_0000 * b3
    ensures Words(block)[i] == w
  {
    hide Word;
    NumberOfWord(w);
    WordFrom(block[4 * i..4 * i + 4], w as nat);
  }

  lemma FirstByte(n: nat, count: nat)
    ensures LittleEndianBytes(n, 0) == []
    ensures LittleEndianBytes(n, count + 1) == [n % 256] + LittleEndianBytes(n / 256, count)
  {
  }

  lemma FourOutputBytes(n: nat)
    ensures LittleEndianBytes(n, 4) == [n % 256, n / 256 % 256, n / 256 / 256 % 256, n / 256 / 256 / 256 % 256]
  {
    hide LittleEndianBytes;
    FirstByte(n, 3);
    FirstByte(n / 256, 2);
    FirstByte(n / 256 / 256, 1);
    FirstByte(n / 256 / 256 / 256, 0);
    FirstByte(n / 256 / 256 / 256 / 256, 0);
  }

  lemma BytesAre(w: bv32, n: nat)
    requires w as nat == n
    ensures LittleEndianBytes(w as nat, 4)
         == [n % 256, n / 256 % 256, n / 256 / 256 % 256, n / 256 / 256 / 256 % 256]
  {
    hide LittleEndianBytes;
    FourOutputBytes(n);
  }

  /** A short bit length takes two bytes. */
  lemma EightBytes(n: nat)
    requires n < 0x1_0000
    ensures |LittleEndianBytes(n, 8)| == 8
    ensures LittleEndianBytes(n, 8)[0] == n % 256 && LittleEndianBytes(n, 8)[1] == n / 256
    ensures forall k :: 2 <= k < 8 ==> LittleEndianBytes(n, 8)[k] == 0
  {
    hide LittleEndianBytes;
    assert n / 256 / 256 == 0;
    FirstByte(n, 7);
    FirstByte(n / 256, 6);
    FirstByte(0, 5);
    FirstByte(0, 4);
    FirstByte(0, 3);
    FirstByte(0, 2);
    FirstByte(0, 1);
    FirstByte(0, 0);
  }

  lemma OneMoreBlock(r: Regs<bv32>, block: seq<Byte>, rest: seq<Byte>)
    requires |block| == 64 && |rest| % 64 == 0
    ensures |block + rest| % 64 == 0 && ProcessAll(r, block + rest) == ProcessAll(Process(r, block), rest)
  {
    assert (block + rest)[..64] == block && (block + rest)[64..] == rest;
  }

  // ---------- MD4 ("") ----------

  predicate EmptyWords(x: seq<bv32>) {
    |x| == 16 && x[0] == 0x80 && forall i :: 1 <= i < 16 ==> x[i] == 0
  }

  lemma EmptyRound1(x: seq<bv32>, r: Regs<bv32>)
    requires EmptyWords(x) && r == Regs(0x67452301, 0xefcdab89, 0x98badcfe, 0x10325476)
    ensures Schedule(WORDS1, SHIFTS1)
    ensures Operations(Op(F, 0), x, WORDS1, SHIFTS1, 16, r)
         == Regs(0xaddcb303, 0x3665f296, 0x8ee8f245, 0xa483a664)
  {
    Schedules();
    NoSteps(Op(F, 0), x, WORDS1, SHIFTS1, r);
    hide Operations, Schedule;
    NextFour(F, 0, (3, 7, 11, 19), x, WORDS1, SHIFTS1, 0, r, 0x67452301, 0xefcdab89, 0x98badcfe, 0x10325476,
             0x80, 0, 0, 0, 0x000003f8, 0x740f9e7d, 0x0446b910, 0x769a0254);
    NextFour(F, 0, (3, 7, 11, 19), x, WORDS1, SHIFTS1, 4, r, 0x000003f8, 0x740f9e7d, 0x0446b910, 0x769a0254,
             0, 0, 0, 0, 0x34b4e040, 0xf5ef256b, 0x6c2bc1c2, 0x704dd255);
    NextFour(F, 0, (3, 7, 11, 19), x, WORDS1, SHIFTS1, 8, r, 0x34b4e040, 0xf5ef256b, 0x6c2bc1c2, 0x704dd255,
             0, 0, 0, 0, 0xc7059cb4, 0x18be2386, 0x8bf5399c, 0xbe8bdbae);
    NextFour(F, 0, (3, 7, 11, 19), x, WORDS1, SHIFTS1, 12, r, 0xc7059cb4, 0x18be2386, 0x8bf5399c, 0xbe8bdbae,
             0, 0, 0, 0, 0xaddcb303, 0x3665f296, 0x8ee8f245, 0xa483a664);
  }

  lemma EmptyRound2(x: seq<bv32>, r: Regs<bv32>)
    requires EmptyWords(x) && r == Regs(0xaddcb303, 0x3665f296, 0x8ee8f245, 0xa483a664)
    ensures Schedule(WORDS2, SHIFTS2)
    ensures Operations(Op(G, SQRT2), x, WORDS2, SHIFTS2, 16, r)
         == Regs(0x374891bf, 0x6f952b2e, 0xb49a4dae, 0x0a15c329)
  {
    Schedules();
    NoSteps(Op(G, SQRT2), x, WORDS2, SHIFTS2, r);
    hide Operations, Schedule;
    NextFour(G, SQRT2, (3, 5, 9, 13), x, WORDS2, SHIFTS2, 0, r, 0xaddcb303, 0x3665f296, 0x8ee8f245, 0xa483a664,
             0x80, 0, 0, 0, 0x7a08fb05, 0x66cec932, 0x98bbca4f, 0xade24047);
    NextFour(G, SQRT2, (3, 5, 9, 13), x, WORDS2, SHIFTS2, 4, r, 0x7a08fb05, 0x66cec932, 0x98bbca4f, 0xade24047,
             0, 0, 0, 0, 0x0bb1e72c, 0x3d0db9ec, 0x9e4a14b3, 0x6410a1c2);
    NextFour(G, SQRT2, (3, 5, 9, 13), x, WORDS2, SHIFTS2, 8, r, 0x0bb1e72c, 0x3d0db9ec, 0x9e4a14b3, 0x6410a1c2,
             0, 0, 0, 0, 0x11e8953d, 0xc8d84161, 0x727f1264, 0x7b76231b);
    NextFour(G, SQRT2, (3, 5, 9, 13), x, WORDS2, SHIFTS2, 12, r, 0x11e8953d, 0xc8d84161, 0x727f1264, 0x7b76231b,
             0, 0, 0, 0, 0x374891bf, 0x6f952b2e, 0xb49a4dae, 0x0a15c329);
  }

  lemma EmptyRound3(x: seq<bv32>, r: Regs<bv32>)
    requires EmptyWords(x) && r == Regs(0x374891bf, 0x6f952b2e, 0xb49a4dae, 0x0a15c329)
    ensures Schedule(WORDS3, SHIFTS3)
    ensures Operations(Op(H, SQRT3), x, WORDS3, SHIFTS3, 16, r)
         == Regs(0x798ab330, 0x421bbf48, 0x3e9e5fb9, 0xb0576c6a)
  {
    Schedules();
    NoSteps(Op(H, SQRT3), x, WORDS3, SHIFTS3, r);
    hide Operations, Schedule;
    NextFour(H, SQRT3, (3, 9, 11, 15), x, WORDS3, SHIFTS3, 0, r, 0x374891bf, 0x6f952b2e, 0xb49a4dae, 0x0a15c329,
             0x80, 0, 0, 0, 0xb9e91c4b, 0x28f076bd, 0x1ab10ced, 0xac532bb7);
    NextFour(H, SQRT3, (3, 9, 11, 15), x, WORDS3, SHIFTS3, 4, r, 0xb9e91c4b, 0x28f076bd, 0x1ab10ced, 0xac532bb7,
             0, 0, 0, 0, 0x36aace9e, 0xb8b9000f, 0x6f678dca, 0x31984c40);
    NextFour(H, SQRT3, (3, 9, 11, 15), x, WORDS3, SHIFTS3, 8, r, 0x36aace9e, 0xb8b9000f, 0x6f678dca, 0x31984c40,
             0, 0, 0, 0, 0x5e5bde24, 0x187317b3, 0xb69f1f41, 0xef178453);
    NextFour(H, SQRT3, (3, 9, 11, 15), x, WORDS3, SHIFTS3, 12, r, 0x5e5bde24, 0x187317b3, 0xb69f1f41, 0xef178453,
             0, 0, 0, 0, 0x798ab330, 0x421bbf48, 0x3e9e5fb9, 0xb0576c6a);
  }

  lemma EmptyBlock(r: Regs<bv32>, block: seq<Byte>)
    requires |block| == 64 && EmptyWords(Words(block))
    requires r == Regs(0x67452301, 0xefcdab89, 0x98badcfe, 0x10325476)
    ensures Process(r, block) == Regs(0xe0cfd631, 0x31e96ad1, 0xd7593cb7, 0xc089c0e0)
  {
    hide Operations, Words, Schedule, Process, EmptyWords;
    EmptyRound1(Words(block), r);
    EmptyRound2(Words(block), Regs(0xaddcb303, 0x3665f296, 0x8ee8f245, 0xa483a664));
    EmptyRound3(Words(block), Regs(0x374891bf, 0x6f952b2e, 0xb49a4dae, 0x0a15c329));
    ProcessIs(r, block);
  }

  lemma EmptyOutput()
    ensures OutputBytes(Regs(0xe0cfd631, 0x31e96ad1, 0xd7593cb7, 0xc089c0e0))
         == [0x31, 0xd6, 0xcf, 0xe0, 0xd1, 0x6a, 0xe9, 0x31, 0xb7, 0x3c, 0x59, 0xd7, 0xe0, 0xc0, 0x89, 0xc0]
  {
    hide LittleEndianBytes;
    BytesAre(0xe0cfd631, 0xe0cfd631);
    BytesAre(0x31e96ad1, 0x31e96ad1);
    BytesAre(0xd7593cb7, 0xd7593cb7);
    BytesAre(0xc089c0e0, 0xc089c0e0);
  }

  lemma EmptyPaddedBytes(block: seq<Byte>)
    requires block == Padding(0)
    ensures |block| == 64 && block[0] == 0x80 && forall k :: 1 <= k < 64 ==> block[k] == 0
  {
    hide LittleEndianBytes;
    EightBytes(0);
    assert block == [0x80] + Zeros(55) + LittleEndianBytes(0, 8);
  }

  lemma EmptyPadded(block: seq<Byte>)
    requires |block| == 64 && block[0] == 0x80 && forall k :: 1 <= k < 64 ==> block[k] == 0
    ensures EmptyWords(Words(block))
  {
    hide Words;
    WordIs(block, 0, 0x80, 0, 0, 0, 0x80);
    forall i | 1 <= i < 16 ensures Words(block)[i] == 0 { WordIs(block, i, 0, 0, 0, 0, 0); }
  }

  lemma DigestOfNothing()
    ensures Digest([])
         == [0x31, 0xd6, 0xcf, 0xe0, 0xd1, 0x6a, 0xe9, 0x31, 0xb7, 0x3c, 0x59, 0xd7, 0xe0, 0xc0, 0x89, 0xc0]
  {
    hide Process, ProcessAll, Padding, OutputBytes, Words;
    var block := Padding(0);
    EmptyPaddedBytes(block);
    EmptyPadded(block);
    EmptyBlock(INITIAL, block);
    OneMoreBlock(INITIAL, block, []);
    NothingProcessed(Process(INITIAL, block));
    assert [] + block == block == block + [];
    EmptyOutput();
  }

  // ---------- MD4 ("ABCDEFGHIJKLMNOPQRSTUVWXYZabcdefghijklmnopqrstuvwxyz0123456789") ----------

  predicate FirstWords(x: seq<bv32>) {
    && |x| == 16
    && x[0] == 0x44434241 && x[1] == 0x48474645 && x[2] == 0x4c4b4a49 && x[3] == 0x504f4e4d
    && x[4] == 0x54535251 && x[5] == 0x58575655 && x[6] == 0x62615a59 && x[7] == 0x66656463
    && x[8] == 0x6a696867 && x[9] == 0x6e6d6c6b && x[10] == 0x7271706f && x[11] == 0x76757473
    && x[12] == 0x7a797877 && x[13] == 0x33323130 && x[14] == 0x37363534 && x[15] == 0x803938
  }

  lemma FirstRound1(x: seq<bv32>, r: Regs<bv32>)
    requires FirstWords(x) && r == Regs(0x67452301, 0xefcdab89, 0x98badcfe, 0x10325476)
    ensures Schedule(WORDS1, SHIFTS1)
    ensures Operations(Op(F, 0), x, WORDS1, SHIFTS1, 16, r)
         == Regs(0x73def48f, 0x37410d7b, 0xe4ed3227, 0xf81413c3)
  {
    Schedules();
    NoSteps(Op(F, 0), x, WORDS1, SHIFTS1, r);
    hide Operations, Schedule;
    NextFour(F, 0, (3, 7, 11, 19), x, WORDS1, SHIFTS1, 0, r, 0x67452301, 0xefcdab89, 0x98badcfe, 0x10325476,
             0x44434241, 0x48474645, 0x4c4b4a49, 0x504f4e4d, 0x221a1202, 0xa2f68168, 0xfaca3a9e, 0x9134db89);
    NextFour(F, 0, (3, 7, 11, 19), x, WORDS1, SHIFTS1, 4, r, 0x221a1202, 0xa2f68168, 0xfaca3a9e, 0x9134db89,
             0x54535251, 0x58575655, 0x62615a59, 0x66656463, 0x517df6e1, 0xa59a55ca, 0x59e2ba09, 0x415d2e4a);
    NextFour(F, 0, (3, 7, 11, 19), x, WORDS1, SHIFTS1, 8, r, 0x517df6e1, 0xa59a55ca, 0x59e2ba09, 0x415d2e4a,
             0x6a696867, 0x6e6d6c6b, 0x7271706f, 0x76757473, 0xed74ca87, 0x2e185725, 0x97aa13cb, 0xae859fb2);
    NextFour(F, 0, (3, 7, 11, 19), x, WORDS1, SHIFTS1, 12, r, 0xed74ca87, 0x2e185725, 0x97aa13cb, 0xae859fb2,
             0x7a797877, 0x33323130, 0x37363534, 0x803938, 0x73def48f, 0x37410d7b, 0xe4ed3227, 0xf81413c3);
  }

  lemma FirstRound2(x: seq<bv32>, r: Regs<bv32>)
    requires FirstWords(x) && r == Regs(0x73def48f, 0x37410d7b, 0xe4ed3227, 0xf81413c3)
    ensures Schedule(WORDS2, SHIFTS2)
    ensures Operations(Op(G, SQRT2), x, WORDS2, SHIFTS2, 16, r)
         == Regs(0x1f074e76, 0x3a4c19f1, 0x1940d024, 0x0f13bdd4)
  {
    Schedules();
    NoSteps(Op(G, SQRT2), x, WORDS2, SHIFTS2, r);
    hide Operations, Schedule;
    NextFour(G, SQRT2, (3, 5, 9, 13), x, WORDS2, SHIFTS2, 0, r, 0x73def48f, 0x37410d7b, 0xe4ed3227, 0xf81413c3,
             0x44434241, 0x54535251, 0x6a696867, 0x7a797877, 0x374e1e60, 0x88b9ac51, 0x504545c2, 0xc6dfc21b);
    NextFour(G, SQRT2, (3, 5, 9, 13), x, WORDS2, SHIFTS2, 4, r, 0x374e1e60, 0x88b9ac51, 0x504545c2, 0xc6dfc21b,
             0x48474645, 0x58575655, 0x6e6d6c6b, 0x33323130, 0xd7ad148c, 0xbe947e7f, 0xdd8f9fcb, 0x4cd2d929);
    NextFour(G, SQRT2, (3, 5, 9, 13), x, WORDS2, SHIFTS2, 8, r, 0xd7ad148c, 0xbe947e7f, 0xdd8f9fcb, 0x4cd2d929,
             0x4c4b4a49, 0x62615a59, 0x7271706f, 0x37363534, 0xd88dbeca, 0x5583431b, 0x22116306, 0xc88d7cdc);
    NextFour(G, SQRT2, (3, 5, 9, 13), x, WORDS2, SHIFTS2, 12, r, 0xd88dbeca, 0x5583431b, 0x22116306, 0xc88d7cdc,
             0x504f4e4d, 0x66656463, 0x76757473, 0x803938, 0x1f074e76, 0x3a4c19f1, 0x1940d024, 0x0f13bdd4);
  }

  lemma FirstRound3(x: seq<bv32>, r: Regs<bv32>)
    requires FirstWords(x) && r == Regs(0x1f074e76, 0x3a4c19f1, 0x1940d024, 0x0f13bdd4)
    ensures Schedule(WORDS3, SHIFTS3)
    ensures Operations(Op(H, SQRT3), x, WORDS3, SHIFTS3, 16, r)
         == Regs(0xcc9b5c59, 0x759a067b, 0xaac38972, 0x5ea23812)
  {
    Schedules();
    NoSteps(Op(H, SQRT3), x, WORDS3, SHIFTS3, r);
    hide Operations, Schedule;
    NextFour(H, SQRT3, (3, 9, 11, 15), x, WORDS3, SHIFTS3, 0, r, 0x1f074e76, 0x3a4c19f1, 0x1940d024, 0x0f13bdd4,
             0x44434241, 0x6a696867, 0x54535251, 0x7a797877, 0xf21f82cf, 0x7b400312, 0xc42317ca, 0xd4b9ed72);
    NextFour(H, SQRT3, (3, 9, 11, 15), x, WORDS3, SHIFTS3, 4, r, 0xf21f82cf, 0x7b400312, 0xc42317ca, 0xd4b9ed72,
             0x4c4b4a49, 0x7271706f, 0x62615a59, 0x37363534, 0xc8fd9318, 0xef77c30f, 0xeb90ac4b, 0x47a2845b);
    NextFour(H, SQRT3, (3, 9, 11, 15), x, WORDS3, SHIFTS3, 8, r, 0xc8fd9318, 0xef77c30f, 0xeb90ac4b, 0x47a2845b,
             0x48474645, 0x6e6d6c6b, 0x58575655, 0x33323130, 0x1b2580ee, 0x64a1d922, 0x627d4b04, 0x59982289);
    NextFour(H, SQRT3, (3, 9, 11, 15), x, WORDS3, SHIFTS3, 12, r, 0x1b2580ee, 0x64a1d922, 0x627d4b04, 0x59982289,
             0x504f4e4d, 0x76757473, 0x66656463, 0x803938, 0xcc9b5c59, 0x759a067b, 0xaac38972, 0x5ea23812);
  }

  lemma FirstBlock(r: Regs<bv32>, block: seq<Byte>)
    requires |block| == 64 && FirstWords(Words(block))
    requires r == Regs(0x67452301, 0xefcdab89, 0x98badcfe, 0x10325476)
    ensures Process(r, block) == Regs(0x33e07f5a, 0x6567b204, 0x437e6670, 0x6ed48c88)
  {
    hide Operations, Words, Schedule, Process, FirstWords;
    FirstRound1(Words(block), r);
    FirstRound2(Words(block), Regs(0x73def48f, 0x37410d7b, 0xe4ed3227, 0xf81413c3));
    FirstRound3(Words(block), Regs(0x1f074e76, 0x3a4c19f1, 0x1940d024, 0x0f13bdd4));
    ProcessIs(r, block);
  }

  predicate SecondWords(x: seq<bv32>) {
    && |x| == 16
    && x[0] == 0 && x[1] == 0 && x[2] == 0 && x[3] == 0
    && x[4] == 0 && x[5] == 0 && x[6] == 0 && x[7] == 0
    && x[8] == 0 && x[9] == 0 && x[10] == 0 && x[11] == 0
    && x[12] == 0 && x[13] == 0 && x[14] == 0x1f0 && x[15] == 0
  }

  lemma SecondRound1(x: seq<bv32>, r: Regs<bv32>)
    requires SecondWords(x) && r == Regs(0x33e07f5a, 0x6567b204, 0x437e6670, 0x6ed48c88)
    ensures Schedule(WORDS1, SHIFTS1)
    ensures Operations(Op(F, 0), x, WORDS1, SHIFTS1, 16, r)
         == Regs(0xb4be1210, 0x1f45209c, 0x5ded23c9, 0xda1e24ec)
  {
    Schedules();
    NoSteps(Op(F, 0), x, WORDS1, SHIFTS1, r);
    hide Operations, Schedule;
    NextFour(F, 0, (3, 7, 11, 19), x, WORDS1, SHIFTS1, 0, r, 0x33e07f5a, 0x6567b204, 0x437e6670, 0x6ed48c88,
             0, 0, 0, 0, 0xfeb56f13, 0x82b711f9, 0xa263b541, 0x21d7746a);
    NextFour(F, 0, (3, 7, 11, 19), x, WORDS1, SHIFTS1, 4, r, 0xfeb56f13, 0x82b711f9, 0xa263b541, 0x21d7746a,
             0, 0, 0, 0, 0x10c722b5, 0xacf4d3e1, 0xd72fd198, 0x3f852de2);
    NextFour(F, 0, (3, 7, 11, 19), x, WORDS1, SHIFTS1, 8, r, 0x10c722b5, 0xacf4d3e1, 0xd72fd198, 0x3f852de2,
             0, 0, 0, 0, 0x3f6901bd, 0xabf55310, 0xc72c68a4, 0xf5ffc195);
    NextFour(F, 0, (3, 7, 11, 19), x, WORDS1, SHIFTS1, 12, r, 0x3f6901bd, 0xabf55310, 0xc72c68a4, 0xf5ffc195,
             0, 0, 0x1f0, 0, 0xb4be1210, 0x1f45209c, 0x5ded23c9, 0xda1e24ec);
  }

  lemma SecondRound2(x: seq<bv32>, r: Regs<bv32>)
    requires SecondWords(x) && r == Regs(0xb4be1210, 0x1f45209c, 0x5ded23c9, 0xda1e24ec)
    ensures Schedule(WORDS2, SHIFTS2)
    ensures Operations(Op(G, SQRT2), x, WORDS2, SHIFTS2, 16, r)
         == Regs(0x88f40164, 0xb01ce610, 0xf1aae5d9, 0x21d35e3f)
  {
    Schedules();
    NoSteps(Op(G, SQRT2), x, WORDS2, SHIFTS2, r);
    hide Operations, Schedule;
    NextFour(G, SQRT2, (3, 5, 9, 13), x, WORDS2, SHIFTS2, 0, r, 0xb4be1210, 0x1f45209c, 0x5ded23c9, 0xda1e24ec,
             0, 0, 0, 0, 0x746d63ab, 0x9f7a1d78, 0xb9fdf81b, 0x41b841d2);
    NextFour(G, SQRT2, (3, 5, 9, 13), x, WORDS2, SHIFTS2, 4, r, 0x746d63ab, 0x9f7a1d78, 0xb9fdf81b, 0x41b841d2,
             0, 0, 0, 0, 0x4741b4f3, 0x527d0a09, 0x965d4ed7, 0x768efcc7);
    NextFour(G, SQRT2, (3, 5, 9, 13), x, WORDS2, SHIFTS2, 8, r, 0x4741b4f3, 0x527d0a09, 0x965d4ed7, 0x768efcc7,
             0, 0, 0, 0x1f0, 0xc10bea9f, 0x3410c1d1, 0x71a61a64, 0x6dd81ff4);
    NextFour(G, SQRT2, (3, 5, 9, 13), x, WORDS2, SHIFTS2, 12, r, 0xc10bea9f, 0x3410c1d1, 0x71a61a64, 0x6dd81ff4,
             0, 0, 0, 0, 0x88f40164, 0xb01ce610, 0xf1aae5d9, 0x21d35e3f);
  }

  lemma SecondRound3(x: seq<bv32>, r: Regs<bv32>)
    requires SecondWords(x) && r == Regs(0x88f40164, 0xb01ce610, 0xf1aae5d9, 0x21d35e3f)
    ensures Schedule(WORDS3, SHIFTS3)
    ensures Operations(Op(H, SQRT3), x, WORDS3, SHIFTS3, 16, r)
         == Regs(0x4ea4bfaa, 0xd0738fee, 0x9da97fac, 0x761c5acb)
  {
    Schedules();
    NoSteps(Op(H, SQRT3), x, WORDS3, SHIFTS3, r);
    hide Operations, Schedule;
    NextFour(H, SQRT3, (3, 9, 11, 15), x, WORDS3, SHIFTS3, 0, r, 0x88f40164, 0xb01ce610, 0xf1aae5d9, 0x21d35e3f,
             0, 0, 0, 0, 0xc19a57da, 0xb5494170, 0x114b291a, 0xb33be621);
    NextFour(H, SQRT3, (3, 9, 11, 15), x, WORDS3, SHIFTS3, 4, r, 0xc19a57da, 0xb5494170, 0x114b291a, 0xb33be621,
             0, 0, 0, 0x1f0, 0x3d6e8e32, 0x3517fa46, 0xe877806b, 0x05703577);
    NextFour(H, SQRT3, (3, 9, 11, 15), x, WORDS3, SHIFTS3, 8, r, 0x3d6e8e32, 0x3517fa46, 0xe877806b, 0x05703577,
             0, 0, 0, 0, 0x22c6496c, 0x0bf21a79, 0x536eca76, 0xe0a8b2e7);
    NextFour(H, SQRT3, (3, 9, 11, 15), x, WORDS3, SHIFTS3, 12, r, 0x22c6496c, 0x0bf21a79, 0x536eca76, 0xe0a8b2e7,
             0, 0, 0, 0, 0x4ea4bfaa, 0xd0738fee, 0x9da97fac, 0x761c5acb);
  }

  lemma SecondBlock(r: Regs<bv32>, block: seq<Byte>)
    requires |block| == 64 && SecondWords(Words(block))
    requires r == Regs(0x33e07f5a, 0x6567b204, 0x437e6670, 0x6ed48c88)
    ensures Process(r, block) == Regs(0x82853f04, 0x35db41f2, 0xe127e61c, 0xe4f0e753)
  {
    hide Operations, Words, Schedule, Process, SecondWords;
    SecondRound1(Words(block), r);
    SecondRound2(Words(block), Regs(0xb4be1210, 0x1f45209c, 0x5ded23c9, 0xda1e24ec));
    SecondRound3(Words(block), Regs(0x88f40164, 0xb01ce610, 0xf1aae5d9, 0x21d35e3f));
    ProcessIs(r, block);
  }

  lemma AlphabetOutput()
    ensures OutputBytes(Regs(0x82853f04, 0x35db41f2, 0xe127e61c, 0xe4f0e753))
         == [0x04, 0x3f, 0x85, 0x82, 0xf2, 0x41, 0xdb, 0x35, 0x1c, 0xe6, 0x27, 0xe1, 0x53, 0xe7, 0xf0, 0xe4]
  {
    hide LittleEndianBytes;
    BytesAre(0x82853f04, 0x82853f04);
    BytesAre(0x35db41f2, 0x35db41f2);
    BytesAre(0xe127e61c, 0xe127e61c);
    BytesAre(0xe4f0e753, 0xe4f0e753);
  }

  function Letter(k: nat): Byte
    requires k < 62
  {
    if k < 26 then 0x41 + k else if k < 52 then 0x61 + (k - 26) else 0x30 + (k - 52)
  }

  /** "ABCDEFGHIJKLMNOPQRSTUVWXYZabcdefghijklmnopqrstuvwxyz0123456789" */
  function Alphabet(): seq<Byte> { seq(62, k requires 0 <= k < 62 => Letter(k)) }

  lemma FirstPadded(block: seq<Byte>)
    requires block == Alphabet() + [0x80, 0]
    ensures |block| == 64 && FirstWords(Words(block))
  {
    hide Words;
    WordIs(block, 0, 0x41, 0x42, 0x43, 0x44, 0x44434241);
    WordIs(block, 1, 0x45, 0x46, 0x47, 0x48, 0x48474645);
    WordIs(block, 2, 0x49, 0x4a, 0x4b, 0x4c, 0x4c4b4a49);
    WordIs(block, 3, 0x4d, 0x4e, 0x4f, 0x50, 0x504f4e4d);
    WordIs(block, 4, 0x51, 0x52, 0x53, 0x54, 0x54535251);
    WordIs(block, 5, 0x55, 0x56, 0x57, 0x58, 0x58575655);
    WordIs(block, 6, 0x59, 0x5a, 0x61, 0x62, 0x62615a59);
    WordIs(block, 7, 0x63, 0x64, 0x65, 0x66, 0x66656463);
    WordIs(block, 8, 0x67, 0x68, 0x69, 0x6a, 0x6a696867);
    WordIs(block, 9, 0x6b, 0x6c, 0x6d, 0x6e, 0x6e6d6c6b);
    WordIs(block, 10, 0x6f, 0x70, 0x71, 0x72, 0x7271706f);
    WordIs(block, 11, 0x73, 0x74, 0x75, 0x76, 0x76757473);
    WordIs(block, 12, 0x77, 0x78, 0x79, 0x7a, 0x7a797877);
    WordIs(block, 13, 0x30, 0x31, 0x32, 0x33, 0x33323130);
    WordIs(block, 14, 0x34, 0x35, 0x36, 0x37, 0x37363534);
    WordIs(block, 15, 0x38, 0x39, 0x80, 0x00, 0x803938);
  }

  lemma SecondPaddedBytes(block: seq<Byte>)
    requires block == Zeros(56) + LittleEndianBytes(496, 8)
    ensures |block| == 64 && block[56] == 0xf0 && block[57] == 1
    ensures forall k :: 0 <= k < 56 || 58 <= k < 64 ==> block[k] == 0
  {
    hide LittleEndianBytes;
    EightBytes(496);
  }

  lemma SecondPadded(block: seq<Byte>)
    requires |block| == 64 && block[56] == 0xf0 && block[57] == 1
    requires forall k :: 0 <= k < 56 || 58 <= k < 64 ==> block[k] == 0
    ensures SecondWords(Words(block))
  {
    hide Words;
    forall i | 0 <= i < 14 ensures Words(block)[i] == 0 { WordIs(block, i, 0, 0, 0, 0, 0); }
    WordIs(block, 14, 0xf0, 1, 0, 0, 0x1f0);
    WordIs(block, 15, 0, 0, 0, 0, 0);
  }

  lemma DigestOfAlphabet()
    ensures Digest(Alphabet())
         == [0x04, 0x3f, 0x85, 0x82, 0xf2, 0x41, 0xdb, 0x35, 0x1c, 0xe6, 0x27, 0xe1, 0x53, 0xe7, 0xf0, 0xe4]
  {
    hide Process, ProcessAll, OutputBytes, Words, LittleEndianBytes;
    var first, second := Alphabet() + [0x80, 0], Zeros(56) + LittleEndianBytes(496, 8);
    assert Alphabet() + Padding(62) == first + second;
    FirstPadded(first);
    SecondPaddedBytes(second);
    SecondPadded(second);
    FirstBlock(INITIAL, first);
    SecondBlock(Process(INITIAL, first), second);
    OneMoreBlock(INITIAL, first, second);
    OneMoreBlock(Process(INITIAL, first), second, []);
    NothingProcessed(Process(Process(INITIAL, first), second));
    assert second + [] == second;
    AlphabetOutput();
  }
}
