/** src/md4.c: the streaming implementation, proved to compute the digest of `Md4Spec`. */
module Md4 {
  import opened Arithmetic
  import opened Bytes
  import opened Md4Spec

  // ---------- the macros ----------

  /** F and G in the optimised form the source uses. */
  function FastF(x: bv32, y: bv32, z: bv32): bv32 { z ^ (x & (y ^ z)) }

  function FastG(x: bv32, y: bv32, z: bv32): bv32 { (x & (y | z)) | (y & z) }

  /** The second half of STEP. */
  function MaskedRotate(x: bv32, s: nat): bv32
    requires 0 < s < 32
  {
    (x << s) | ((x & 0xffffffff) >> (32 - s))
  }

  /** STEP with the value of f(b, c, d) and the word x + t. */
  function StepValue(a: bv32, fbcd: bv32, x: bv32, t: bv32, s: nat): bv32 {
    if 0 < s < 32 then MaskedRotate(a + (fbcd + (x + t)), s) else 0
  }

  function Step(f: (bv32, bv32, bv32) -> bv32, t: bv32): (bv32, bv32, bv32, bv32, bv32, nat) -> bv32 {
    (a: bv32, b: bv32, c: bv32, d: bv32, x: bv32, s: nat) => StepValue(a, f(b, c, d), x, t, s)
  }

  lemma FastFIsF(x: bv32, y: bv32, z: bv32)
    ensures z ^ (x & (y ^ z)) == (x & y) | (!x & z)
    ensures FastF(x, y, z) == F(x, y, z)
  {
  }

  lemma FastGIsG(x: bv32, y: bv32, z: bv32)
    ensures (x & (y | z)) | (y & z) == (x & y) | (x & z) | (y & z)
    ensures FastG(x, y, z) == G(x, y, z)
  {
  }

  /** One STEP is one operation of the standard. */
  lemma StepIsOp(f: (bv32, bv32, bv32) -> bv32, g: (bv32, bv32, bv32) -> bv32, a: bv32, b: bv32, c: bv32, d: bv32,
      x: bv32, t: bv32, s: nat)
    requires f(b, c, d) == g(b, c, d)
    ensures Step(f, t)(a, b, c, d, x, s) == Op(g, t)(a, b, c, d, x, s)
  {
  }

  // ---------- body ----------

  /** Two steps that agree everywhere give the same rounds. */
  lemma {:induction false} SameOperations<W(!new)>(op: (W, W, W, W, W, nat) -> W, other: (W, W, W, W, W, nat) -> W,
      x: seq<W>, words: seq<nat>, shifts: seq<nat>, n: nat, r: Regs<W>)
    requires |x| == 16 && Schedule(words, shifts) && n <= 16
    requires forall a, b, c, d, w, s :: op(a, b, c, d, w, s) == other(a, b, c, d, w, s)
    ensures Operations(op, x, words, shifts, n, r) == Operations(other, x, words, shifts, n, r)
  {
    if n > 0 { SameOperations(op, other, x, words, shifts, n - 1, r); }
  }

  lemma NoSteps<W>(op: (W, W, W, W, W, nat) -> W, x: seq<W>, words: seq<nat>, shifts: seq<nat>, r: Regs<W>)
    requires |x| == 16 && Schedule(words, shifts)
    ensures Operations(op, x, words, shifts, 0, r) == r
  {
  }

  /** Four operations written with fixed registers instead of changing roles. */
  lemma FourSteps<W>(op: (W, W, W, W, W, nat) -> W, x: seq<W>, words: seq<nat>, shifts: seq<nat>, n: nat, r: Regs<W>)
    requires |x| == 16 && Schedule(words, shifts) && n <= 12 && n % 4 == 0
    ensures var q := Operations(op, x, words, shifts, n, r);
      var a := op(q.a, q.b, q.c, q.d, x[words[n]], shifts[0]);
      var d := op(q.d, a, q.b, q.c, x[words[n + 1]], shifts[1]);
      var c := op(q.c, d, a, q.b, x[words[n + 2]], shifts[2]);
      var b := op(q.b, c, d, a, x[words[n + 3]], shifts[3]);
      Operations(op, x, words, shifts, n + 4, r) == Regs(a, b, c, d)
  {
    var q := Operations(op, x, words, shifts, n, r);
    var q1 := Operations(op, x, words, shifts, n + 1, r);
    assert q1 == Regs(q.d, op(q.a, q.b, q.c, q.d, x[words[n]], shifts[0]), q.b, q.c);
    var q2 := Operations(op, x, words, shifts, n + 2, r);
    assert q2 == Regs(q1.d, op(q1.a, q1.b, q1.c, q1.d, x[words[n + 1]], shifts[1]), q1.b, q1.c);
    var q3 := Operations(op, x, words, shifts, n + 3, r);
    assert q3 == Regs(q2.d, op(q2.a, q2.b, q2.c, q2.d, x[words[n + 2]], shifts[2]), q2.b, q2.c);
  }

  method Round1<W>(step: (W, W, W, W, W, nat) -> W, x: seq<W>, r: Regs<W>) returns (q: Regs<W>)
    requires |x| == 16
    ensures Schedule(WORDS1, SHIFTS1) && q == Operations(step, x, WORDS1, SHIFTS1, 16, r)
  {
    Schedules();
    hide Operations;
    NoSteps(step, x, WORDS1, SHIFTS1, r);
    var a, b, c, d := r.a, r.b, r.c, r.d;
    a := step(a, b, c, d, x[0], 3);
    d := step(d, a, b, c, x[1], 7);
    c := step(c, d, a, b, x[2], 11);
    b := step(b, c, d, a, x[3], 19);
    FourSteps(step, x, WORDS1, SHIFTS1, 0, r);
    a := step(a, b, c, d, x[4], 3);
    d := step(d, a, b, c, x[5], 7);
    c := step(c, d, a, b, x[6], 11);
    b := step(b, c, d, a, x[7], 19);
    FourSteps(step, x, WORDS1, SHIFTS1, 4, r);
    a := step(a, b, c, d, x[8], 3);
    d := step(d, a, b, c, x[9], 7);
    c := step(c, d, a, b, x[10], 11);
    b := step(b, c, d, a, x[11], 19);
    FourSteps(step, x, WORDS1, SHIFTS1, 8, r);
    a := step(a, b, c, d, x[12], 3);
    d := step(d, a, b, c, x[13], 7);
    c := step(c, d, a, b, x[14], 11);
    b := step(b, c, d, a, x[15], 19);
    FourSteps(step, x, WORDS1, SHIFTS1, 12, r);
    q := Regs(a, b, c, d);
  }

  method Round2<W>(step: (W, W, W, W, W, nat) -> W, x: seq<W>, r: Regs<W>) returns (q: Regs<W>)
    requires |x| == 16
    ensures Schedule(WORDS2, SHIFTS2) && q == Operations(step, x, WORDS2, SHIFTS2, 16, r)
  {
    Schedules();
    hide Operations;
    NoSteps(step, x, WORDS2, SHIFTS2, r);
    var a, b, c, d := r.a, r.b, r.c, r.d;
    a := step(a, b, c, d, x[0], 3);
    d := step(d, a, b, c, x[4], 5);
    c := step(c, d, a, b, x[8], 9);
    b := step(b, c, d, a, x[12], 13);
    FourSteps(step, x, WORDS2, SHIFTS2, 0, r);
    a := step(a, b, c, d, x[1], 3);
    d := step(d, a, b, c, x[5], 5);
    c := step(c, d, a, b, x[9], 9);
    b := step(b, c, d, a, x[13], 13);
    FourSteps(step, x, WORDS2, SHIFTS2, 4, r);
    a := step(a, b, c, d, x[2], 3);
    d := step(d, a, b, c, x[6], 5);
    c := step(c, d, a, b, x[10], 9);
    b := step(b, c, d, a, x[14], 13);
    FourSteps(step, x, WORDS2, SHIFTS2, 8, r);
    a := step(a, b, c, d, x[3], 3);
    d := step(d, a, b, c, x[7], 5);
    c := step(c, d, a, b, x[11], 9);
    b := step(b, c, d, a, x[15], 13);
    FourSteps(step, x, WORDS2, SHIFTS2, 12, r);
    q := Regs(a, b, c, d);
  }

  method Round3<W>(step: (W, W, W, W, W, nat) -> W, x: seq<W>, r: Regs<W>) returns (q: Regs<W>)
    requires |x| == 16
    ensures Schedule(WORDS3, SHIFTS3) && q == Operations(step, x, WORDS3, SHIFTS3, 16, r)
  {
    Schedules();
    hide Operations;
    NoSteps(step, x, WORDS3, SHIFTS3, r);
    var a, b, c, d := r.a, r.b, r.c, r.d;
    a := step(a, b, c, d, x[0], 3);
    d := step(d, a, b, c, x[8], 9);
    c := step(c, d, a, b, x[4], 11);
    b := step(b, c, d, a, x[12], 15);
    FourSteps(step, x, WORDS3, SHIFTS3, 0, r);
    a := step(a, b, c, d, x[2], 3);
    d := step(d, a, b, c, x[10], 9);
    c := step(c, d, a, b, x[6], 11);
    b := step(b, c, d, a, x[14], 15);
    FourSteps(step, x, WORDS3, SHIFTS3, 4, r);
    a := step(a, b, c, d, x[1], 3);
    d := step(d, a, b, c, x[9], 9);
    c := step(c, d, a, b, x[5], 11);
    b := step(b, c, d, a, x[13], 15);
    FourSteps(step, x, WORDS3, SHIFTS3, 8, r);
    a := step(a, b, c, d, x[3], 3);
    d := step(d, a, b, c, x[11], 9);
    c := step(c, d, a, b, x[7], 11);
    b := step(b, c, d, a, x[15], 15);
    FourSteps(step, x, WORDS3, SHIFTS3, 12, r);
    q := Regs(a, b, c, d);
  }

  /** One round of the do-while loop: registers saved, three rounds, registers added. */
  method Block(r: Regs<bv32>, block: seq<Byte>) returns (q: Regs<bv32>)
    requires |block| == 64
    ensures q == Process(r, block)
  {
    Schedules();
    hide Operations, Words, Step, Op, Schedule, Process, F, G, H, FastF, FastG;
    var x := Words(block);
    var r1 := Round1(Step(FastF, 0), x, r);
    var r2 := Round2(Step(FastG, 0x5a827999), x, r1);
    var r3 := Round3(Step(H, 0x6ed9eba1), x, r2);
    FastRoundsAreRounds(x, r, r1, r2);
    q := Add(r3, r);
    ProcessIs(r, block);
  }

  lemma ProcessIs(r: Regs<bv32>, block: seq<Byte>)
    requires |block| == 64
    ensures Schedule(WORDS1, SHIFTS1) && Schedule(WORDS2, SHIFTS2) && Schedule(WORDS3, SHIFTS3)
    ensures var x := Words(block);
      var r1 := Operations(Op(F, 0), x, WORDS1, SHIFTS1, 16, r);
      var r2 := Operations(Op(G, SQRT2), x, WORDS2, SHIFTS2, 16, r1);
      Process(r, block) == Add(Operations(Op(H, SQRT3), x, WORDS3, SHIFTS3, 16, r2), r)
  {
  }

  lemma FastRoundsAreRounds(x: seq<bv32>, r: Regs<bv32>, r1: Regs<bv32>, r2: Regs<bv32>)
    requires |x| == 16
    ensures Schedule(WORDS1, SHIFTS1) && Schedule(WORDS2, SHIFTS2) && Schedule(WORDS3, SHIFTS3)
    ensures Operations(Step(FastF, 0), x, WORDS1, SHIFTS1, 16, r) == Operations(Op(F, 0), x, WORDS1, SHIFTS1, 16, r)
    ensures Operations(Step(FastG, SQRT2), x, WORDS2, SHIFTS2, 16, r1)
         == Operations(Op(G, SQRT2), x, WORDS2, SHIFTS2, 16, r1)
    ensures Operations(Step(H, SQRT3), x, WORDS3, SHIFTS3, 16, r2)
         == Operations(Op(H, SQRT3), x, WORDS3, SHIFTS3, 16, r2)
  {
    Schedules();
    hide Operations, Step, Op, F, G, H, FastF, FastG, Schedule;
    forall a, b, c, d, w, s
      ensures Step(FastF, 0)(a, b, c, d, w, s) == Op(F, 0)(a, b, c, d, w, s)
      ensures Step(FastG, SQRT2)(a, b, c, d, w, s) == Op(G, SQRT2)(a, b, c, d, w, s)
      ensures Step(H, SQRT3)(a, b, c, d, w, s) == Op(H, SQRT3)(a, b, c, d, w, s)
    {
      FastFIsF(b, c, d);
      FastGIsG(b, c, d);
      StepIsOp(FastF, F, a, b, c, d, w, 0, s);
      StepIsOp(FastG, G, a, b, c, d, w, SQRT2, s);
      StepIsOp(H, H, a, b, c, d, w, SQRT3, s);
    }
    SameOperations(Step(FastF, 0), Op(F, 0), x, WORDS1, SHIFTS1, 16, r);
    SameOperations(Step(FastG, SQRT2), Op(G, SQRT2), x, WORDS2, SHIFTS2, 16, r1);
    SameOperations(Step(H, SQRT3), Op(H, SQRT3), x, WORDS3, SHIFTS3, 16, r2);
  }

  // ---------- the context ----------

  lemma {:induction false} ProcessAppend(r: Regs<bv32>, m: seq<Byte>, n: seq<Byte>)
    requires |m| % 64 == 0 && |n| % 64 == 0
    ensures ProcessAll(r, m + n) == ProcessAll(ProcessAll(r, m), n)
    decreases |m|
  {
    hide Process;
    if |m| == 0 {
      assert m + n == n;
    } else {
      assert (m + n)[..64] == m[..64] && (m + n)[64..] == m[64..] + n;
      ProcessAppend(Process(r, m[..64]), m[64..], n);
    }
  }

  /** The 29-bit and 32-bit halves of the length counter after `size` more bytes. */
  lemma CounterStep(lo: nat, hi: nat, n: nat, size: nat, lo': nat, hi': nat)
    requires lo < 0x2000_0000 && hi < 0x1_0000_0000 && hi * 0x2000_0000 + lo == n % 0x2000_0000_0000_0000
    requires lo' == (lo + size) % 0x2000_0000
    requires hi' == (hi + (if lo' < lo then 1 else 0) + size / 0x2000_0000) % 0x1_0000_0000
    ensures hi' * 0x2000_0000 + lo' == (n + size) % 0x2000_0000_0000_0000
  {
    var r, carry := size % 0x2000_0000, if lo' < lo then 1 else 0;
    assert lo' == lo + r - carry * 0x2000_0000;
    var high := hi + carry + size / 0x2000_0000;
    assert high * 0x2000_0000 + lo' == hi * 0x2000_0000 + lo + size;
    assert high == high / 0x1_0000_0000 * 0x1_0000_0000 + hi';
  }

  lemma LowestDigit(low: nat, high: nat, p: nat)
    ensures high * (256 * p) + low >= 0
    ensures (high * (256 * p) + low) / 256 == high * p + low / 256
    ensures (high * (256 * p) + low) % 256 == low % 256
  {
  }

  lemma {:induction false} LittleEndianSplit(low: nat, high: nat, k: nat, m: nat)
    requires low < Pow256(k)
    ensures LittleEndianBytes(high * Pow256(k) + low, k + m) == LittleEndianBytes(low, k) + LittleEndianBytes(high, m)
  {
    if k > 0 {
      var p := Pow256(k - 1);
      LittleEndianSplit(low / 256, high, k - 1, m);
      LowestDigit(low, high, p);
    } else {
      assert high * Pow256(0) + low == high;
      assert [] + LittleEndianBytes(high, m) == LittleEndianBytes(high, m);
    }
  }

  lemma EightTimes(n: nat)
    ensures 8 * n % 0x1_0000_0000_0000_0000 == 8 * (n % 0x2000_0000_0000_0000)
  {
  }

  lemma FourBytes()
    ensures Pow256(4) == 0x1_0000_0000
  {
    assert Pow256(2) == 65536;
  }

  /** What MD4_Final writes into the last eight bytes is the message's bit length modulo 2^64. */
  lemma LengthBytes(lo: nat, hi: nat, n: nat)
    requires lo < 0x2000_0000 && hi < 0x1_0000_0000 && hi * 0x2000_0000 + lo == n % 0x2000_0000_0000_0000
    ensures LittleEndianBytes(lo * 8 % 0x1_0000_0000, 4) + LittleEndianBytes(hi, 4)
         == LittleEndianBytes(8 * n % 0x1_0000_0000_0000_0000, 8)
  {
    FourBytes();
    hide LittleEndianBytes, Pow256;
    LittleEndianSplit(lo * 8, hi, 4, 4);
    EightTimes(n);
    assert lo * 8 % 0x1_0000_0000 == lo * 8;
  }

  /** The low six bits of the counter are the number of buffered bytes. */
  lemma LowSixBits(lo: nat, hi: nat, m: seq<Byte>)
    requires hi * 0x2000_0000 + lo == |m| % 0x2000_0000_0000_0000
    ensures lo % 64 == |m| % 64
    ensures |m[..|m| - lo % 64]| % 64 == 0
    ensures m == m[..|m| - lo % 64] + m[|m| - lo % 64..]
  {
  }

  class Context {
    var lo: nat
    var hi: nat
    var a: bv32
    var b: bv32
    var c: bv32
    var d: bv32
    const buffer: array<Byte>
    /** Everything hashed so far. */
    ghost var msg: seq<Byte>

    function Registers(): Regs<bv32>
      reads `a, `b, `c, `d
    {
      Regs(a, b, c, d)
    }

    /** The counter holds the length modulo 2^61; whole blocks have been processed and the rest waits in the buffer. */
    ghost predicate Valid()
      reads this, buffer
    {
      && buffer.Length == 64
      && lo < 0x2000_0000 && hi < 0x1_0000_0000
      && hi * 0x2000_0000 + lo == |msg| % 0x2000_0000_0000_0000
      && Holds(msg)
    }

    ghost predicate Holds(m: seq<Byte>)
      reads `a, `b, `c, `d, buffer
      requires buffer.Length == 64
    {
      var used := |m| % 64;
      && Registers() == ProcessAll(INITIAL, m[..|m| - used])
      && buffer[..used] == m[|m| - used..]
    }

    /** MD4_Init */
    constructor ()
      ensures Valid() && msg == [] && fresh(buffer)
    {
      a, b, c, d := 0x67452301, 0xefcdab89, 0x98badcfe, 0x10325476;
      lo, hi, msg := 0, 0, [];
      buffer := new Byte[64];
    }

    /** body: one or more blocks. */
    method Body(data: seq<Byte>)
      requires |data| > 0 && |data| % 64 == 0
      modifies this`a, this`b, this`c, this`d
      ensures Registers() == ProcessAll(old(Registers()), data)
    {
      hide Process;
      var r := Registers();
      var ptr := 0;
      while true
        invariant 0 <= ptr < |data| && ptr % 64 == 0
        invariant ProcessAll(r, data[ptr..]) == ProcessAll(old(Registers()), data)
        decreases |data| - ptr
      {
        var block := data[ptr..ptr + 64];
        assert data[ptr..][..64] == block && data[ptr..][64..] == data[ptr + 64..];
        r := Block(r, block);
        ptr := ptr + 64;
        if ptr == |data| { break; }
      }
      a, b, c, d := r.a, r.b, r.c, r.d;
    }

    /** memcpy into the buffer. */
    method Copy(offset: nat, data: seq<Byte>)
      requires buffer.Length == 64 && offset + |data| <= 64
      modifies buffer
      ensures buffer[..offset] == old(buffer[..offset])
      ensures buffer[offset..offset + |data|] == data
      ensures buffer[offset + |data|..] == old(buffer[offset + |data|..])
    {
      for i := 0 to |data|
        modifies buffer
        invariant buffer[..offset] == old(buffer[..offset])
        invariant buffer[offset..offset + i] == data[..i]
        invariant buffer[offset + |data|..] == old(buffer[offset + |data|..])
      {
        buffer[offset + i] := data[i];
      }
    }

    /** MD4_Update, for a size that an unsigned long can hold. */
    method Update(data: seq<Byte>)
      requires Valid() && |data| < 0x1_0000_0000_0000_0000
      modifies this, buffer
      ensures Valid() && msg == old(msg) + data
    {
      hide ProcessAll, Holds;
      var savedLo := lo;
      lo := (savedLo + |data|) % 0x2000_0000;
      if lo < savedLo { hi := (hi + 1) % 0x1_0000_0000; }
      hi := (hi + |data| / 0x2000_0000) % 0x1_0000_0000;
      CounterStep(savedLo, old(hi), |msg|, |data|, lo, hi);
      LowSixBits(savedLo, old(hi), msg);
      Absorb(savedLo % 64, data);
      msg := msg + data;
    }

    /** The buffering part of MD4_Update. */
    method Absorb(used: nat, data: seq<Byte>)
      requires buffer.Length == 64 && Holds(msg) && used == |msg| % 64
      modifies this`a, this`b, this`c, this`d, buffer
      ensures Holds(msg + data)
    {
      hide ProcessAll;
      if used != 0 {
        var available := 64 - used;
        if |data| < available {
          Copy(used, data);
          StillBuffered(msg, data);
        } else {
          Copy(used, data[..available]);
          Body(buffer[..]);
          BlockFilled(msg, data[..available], buffer[..]);
          AbsorbBlocks(msg + data[..available], data[available..]);
          assert msg + data == (msg + data[..available]) + data[available..];
        }
      } else {
        assert msg[..|msg|] == msg;
        AbsorbBlocks(msg, data);
      }
    }

    /** With an empty buffer: whole blocks straight from the data, the rest into the buffer. */
    method AbsorbBlocks(ghost done: seq<Byte>, data: seq<Byte>)
      requires buffer.Length == 64 && |done| % 64 == 0 && Registers() == ProcessAll(INITIAL, done)
      modifies this`a, this`b, this`c, this`d, buffer
      ensures Holds(done + data)
    {
      hide ProcessAll;
      var whole := |data| - |data| % 64;
      if |data| >= 64 {
        Body(data[..whole]);
        BlocksDone(done, data[..whole]);
      }
      Copy(0, data[whole..]);
      TailWaits(done, data);
    }

    /** OUT to the buffer. */
    method Out(offset: nat, word: nat)
      requires buffer.Length == 64 && offset + 4 <= 64
      modifies buffer
      ensures buffer[..offset] == old(buffer[..offset])
      ensures buffer[offset..offset + 4] == LittleEndianBytes(word, 4)
      ensures buffer[offset + 4..] == old(buffer[offset + 4..])
    {
      LittleEndianLength(word, 4);
      Copy(offset, LittleEndianBytes(word, 4));
    }

    /** Zero bytes from `used` to 56, then the length. */
    method CloseBlock(used: nat)
      requires buffer.Length == 64 && used <= 56
      modifies buffer
      ensures buffer[..] == old(buffer[..used]) + Zeros(56 - used)
                            + LittleEndianBytes(lo * 8 % 0x1_0000_0000, 4) + LittleEndianBytes(hi, 4)
    {
      ghost var head := buffer[..used];
      Copy(used, Zeros(56 - used));
      assert buffer[..56] == head + Zeros(56 - used);
      Out(56, lo * 8 % 0x1_0000_0000);
      assert buffer[..60] == head + Zeros(56 - used) + LittleEndianBytes(lo * 8 % 0x1_0000_0000, 4);
      Out(60, hi);
      assert buffer[..] == buffer[..60] + buffer[60..64];
    }

    /** The 0x80 byte, and a block of its own if the length no longer fits behind it. */
    method BeginPadding(used: nat, ghost done: seq<Byte>, ghost tail: seq<Byte>)
      returns (filled: nat, ghost first: seq<Byte>)
      requires buffer.Length == 64 && used == |tail| < 64 && |done| % 64 == 0 && buffer[..used] == tail
      requires Registers() == ProcessAll(INITIAL, done)
      modifies this`a, this`b, this`c, this`d, buffer
      ensures filled <= 56 && |first| % 64 == 0 && Begun(tail, first, buffer[..filled])
      ensures Registers() == ProcessAll(ProcessAll(INITIAL, done), first)
    {
      hide ProcessAll;
      Copy(used, [0x80]);
      filled := used + 1;
      assert buffer[..filled] == tail + [0x80];
      if 64 - filled < 8 {
        Copy(filled, Zeros(64 - filled));
        first := buffer[..];
        assert first == tail + [0x80] + Zeros(64 - filled);
        Body(buffer[..]);
        filled := 0;
      } else {
        first := [];
        NothingProcessed(ProcessAll(INITIAL, done));
      }
    }

    /** MD4_Final: one or two more blocks, the digest out, and the whole context wiped. */
    method Final() returns (result: seq<Byte>)
      requires Valid()
      modifies this, buffer
      ensures result == Digest(old(msg))
      ensures lo == 0 && hi == 0 && Registers() == Regs(0, 0, 0, 0) && buffer[..] == Zeros(64)
    {
      hide ProcessAll, LittleEndianBytes, Digest, Padding, Begun;
      LengthBytes(lo, hi, |msg|);
      LowSixBits(lo, hi, msg);
      var used := lo % 64;
      ghost var done, tail := msg[..|msg| - used], msg[|msg| - used..];
      var filled; ghost var first;
      filled, first := BeginPadding(used, done, tail);
      ghost var before := buffer[..filled];
      CloseBlock(filled);
      FinalBlocks(tail, |msg|, first, before, buffer[..], lo, hi);
      Body(buffer[..]);
      LastBlocks(done, tail, first, buffer[..], msg);
      result := LittleEndianBytes(a as nat, 4) + LittleEndianBytes(b as nat, 4)
                + LittleEndianBytes(c as nat, 4) + LittleEndianBytes(d as nat, 4); // four times OUT
      lo, hi, a, b, c, d, msg := 0, 0, 0, 0, 0, 0, [];
      Copy(0, Zeros(64));
      assert buffer[..] == buffer[0..64];
    }
  }

  lemma NothingProcessed(r: Regs<bv32>)
    ensures ProcessAll(r, []) == r
  {
  }

  /** How the padding has begun: in the block with the message's last bytes, or with that block already processed. */
  ghost predicate Begun(tail: seq<Byte>, first: seq<Byte>, before: seq<Byte>)
    requires |tail| < 64
  {
    if |tail| < 56 then first == [] && before == tail + [0x80]
    else first == tail + [0x80] + Zeros(63 - |tail|) && before == []
  }

  /** The blocks MD4_Final processes are the rest of the message and its padding. */
  lemma FinalBlocks(tail: seq<Byte>, n: nat, first: seq<Byte>, before: seq<Byte>, last: seq<Byte>, lo: nat, hi: nat)
    requires |tail| == n % 64 && Begun(tail, first, before) && |before| <= 56
    requires last == before + Zeros(56 - |before|)
                     + LittleEndianBytes(lo * 8 % 0x1_0000_0000, 4) + LittleEndianBytes(hi, 4)
    requires LittleEndianBytes(lo * 8 % 0x1_0000_0000, 4) + LittleEndianBytes(hi, 4)
          == LittleEndianBytes(8 * n % 0x1_0000_0000_0000_0000, 8)
    ensures first + last == tail + Padding(n)
  {
    hide LittleEndianBytes;
    var l := LittleEndianBytes(8 * n % 0x1_0000_0000_0000_0000, 8);
    assert last == before + Zeros(56 - |before|) + l;
    ZeroCount(n);
    if |tail| < 56 {
      assert first + last == tail + ([0x80] + Zeros(55 - |tail|) + l);
    } else {
      assert first + last == tail + ([0x80] + (Zeros(63 - |tail|) + Zeros(56)) + l);
    }
  }

  lemma ZeroCount(n: nat)
    ensures var u := n % 64;
      Zeros((55 - n) % 64) == if u < 56 then Zeros(55 - u) else Zeros(63 - u) + Zeros(56)
  {
  }

  lemma WholeBlocks(x: seq<Byte>, y: seq<Byte>)
    requires |x| % 64 == 0 && |y| % 64 == 0
    ensures |x + y| % 64 == 0
  {
  }

  lemma LastBlocks(done: seq<Byte>, tail: seq<Byte>, first: seq<Byte>, last: seq<Byte>, m: seq<Byte>)
    requires |done| % 64 == 0 && |first| % 64 == 0 && |last| % 64 == 0 && m == done + tail
    requires first + last == tail + Padding(|m|)
    ensures OutputBytes(ProcessAll(ProcessAll(ProcessAll(INITIAL, done), first), last)) == Digest(m)
  {
    hide ProcessAll, OutputBytes, Padding;
    PaddedLength(|m|);
    WholeBlocks(first, last);
    var rest, padded := first + last, m + Padding(|m|);
    assert padded == done + rest by { SameJoin(done, tail, Padding(|m|), rest, m); }
    ProcessAppend(ProcessAll(INITIAL, done), first, last);
    ProcessAppend(INITIAL, done, rest);
  }

  lemma SameJoin(x: seq<Byte>, y: seq<Byte>, z: seq<Byte>, yz: seq<Byte>, xy: seq<Byte>)
    requires yz == y + z && xy == x + y
    ensures xy + z == x + yz
  {
  }

  /** MD4 of a message handed over in any pieces. */
  method DigestOfPieces(pieces: seq<seq<Byte>>) returns (result: seq<Byte>)
    requires forall i :: 0 <= i < |pieces| ==> |pieces[i]| < 0x1_0000_0000_0000_0000
    ensures result == Digest(Joined(pieces))
  {
    hide Digest;
    var ctx := new Context();
    for i := 0 to |pieces|
      invariant ctx.Valid() && fresh(ctx) && fresh(ctx.buffer) && ctx.msg == Joined(pieces[..i])
    {
      ctx.Update(pieces[i]);
      assert pieces[..i + 1][..i] == pieces[..i];
    }
    assert pieces[..|pieces|] == pieces;
    result := ctx.Final();
  }

  ghost function Joined(pieces: seq<seq<Byte>>): seq<Byte> {
    if pieces == [] then [] else Joined(pieces[..|pieces| - 1]) + pieces[|pieces| - 1]
  }

  lemma SameRemainder(m: nat, n: nat)
    requires m % 64 == 0
    ensures (m + n) % 64 == n % 64
  {
    ModIs(m + n, 64, m / 64 + n / 64, n % 64);
  }

  lemma TailWaits(done: seq<Byte>, data: seq<Byte>)
    requires |done| % 64 == 0
    ensures var whole, m := |data| - |data| % 64, done + data;
      && |m| % 64 == |data| % 64
      && m[..|m| - |m| % 64] == done + data[..whole] && m[|m| - |m| % 64..] == data[whole..]
      && (whole == 0 ==> done + data[..whole] == done)
  {
    SameRemainder(|done|, |data|);
    assert |done + data| == |done| + |data|;
  }

  /** Fewer bytes than fill a block leave the processed part alone. */
  lemma StillBuffered(m: seq<Byte>, data: seq<Byte>)
    requires |m| % 64 + |data| < 64
    ensures |m + data| % 64 == |m| % 64 + |data|
    ensures var k := |m| - |m| % 64; (m + data)[..k] == m[..k] && (m + data)[k..] == m[k..] + data
  {
  }

  lemma BlockFilled(m: seq<Byte>, data: seq<Byte>, block: seq<Byte>)
    requires |m| % 64 + |data| == 64 && block == m[|m| - |m| % 64..] + data
    ensures |m + data| % 64 == 0
    ensures ProcessAll(ProcessAll(INITIAL, m[..|m| - |m| % 64]), block) == ProcessAll(INITIAL, m + data)
  {
    hide ProcessAll;
    var k := |m| - |m| % 64;
    assert m + data == m[..k] + block;
    ProcessAppend(INITIAL, m[..k], block);
  }

  lemma BlocksDone(m: seq<Byte>, data: seq<Byte>)
    requires |m| % 64 == 0 && |data| % 64 == 0
    ensures |m + data| % 64 == 0
    ensures ProcessAll(ProcessAll(INITIAL, m), data) == ProcessAll(INITIAL, m + data)
  {
    hide ProcessAll;
    ProcessAppend(INITIAL, m, data);
  }
}
