/** The MD4 message digest as RFC 1320 defines it: padding (3.1, 3.2), buffer (3.3), rounds (3.4), output (3.5). */
module Md4Spec {
  import opened Arithmetic
  import opened Bytes

  datatype Regs<W> = Regs(a: W, b: W, c: W, d: W)

  // ---------- section 3.4: the three auxiliary functions ----------

  function F(x: bv32, y: bv32, z: bv32): bv32 { (x & y) | (!x & z) }

  function G(x: bv32, y: bv32, z: bv32): bv32 { (x & y) | (x & z) | (y & z) }

  function H(x: bv32, y: bv32, z: bv32): bv32 { x ^ y ^ z }

  /** X <<< s */
  function RotateLeft(x: bv32, s: nat): bv32
    requires 0 < s < 32
  {
    (x << s) | (x >> (32 - s))
  }

  /** (a + f(b,c,d) + X[k] + t) <<< s */
  function OpValue(a: bv32, fbcd: bv32, x: bv32, t: bv32, s: nat): bv32 {
    if 0 < s < 32 then RotateLeft(a + fbcd + x + t, s) else 0
  }

  function Op(f: (bv32, bv32, bv32) -> bv32, t: bv32): (bv32, bv32, bv32, bv32, bv32, nat) -> bv32 {
    (a: bv32, b: bv32, c: bv32, d: bv32, x: bv32, s: nat) => OpValue(a, f(b, c, d), x, t, s)
  }

  const SQRT2 := 0x5a827999 as bv32
  const SQRT3 := 0x6ed9eba1 as bv32

  /** The order in which each round takes the words of the block, and its shift amounts. */
  const WORDS1: seq<nat> := [0, 1, 2, 3, 4, 5, 6, 7, 8, 9, 10, 11, 12, 13, 14, 15]
  const WORDS2: seq<nat> := [0, 4, 8, 12, 1, 5, 9, 13, 2, 6, 10, 14, 3, 7, 11, 15]
  const WORDS3: seq<nat> := [0, 8, 4, 12, 2, 10, 6, 14, 1, 9, 5, 13, 3, 11, 7, 15]
  const SHIFTS1: seq<nat> := [3, 7, 11, 19]
  const SHIFTS2: seq<nat> := [3, 5, 9, 13]
  const SHIFTS3: seq<nat> := [3, 9, 11, 15]

  ghost predicate Schedule(words: seq<nat>, shifts: seq<nat>) {
    |words| == 16 && |shifts| == 4 && forall i :: 0 <= i < 16 ==> words[i] < 16
  }

  /** The first `n` operations of a round; from one to the next the registers change roles: ABCD, DABC, CDAB, BCDA. */
  ghost function Operations<W>(op: (W, W, W, W, W, nat) -> W, x: seq<W>, words: seq<nat>, shifts: seq<nat>, n: nat,
      r: Regs<W>): Regs<W>
    requires |x| == 16 && Schedule(words, shifts) && n <= 16
  {
    if n == 0 then r
    else
      var q := Operations(op, x, words, shifts, n - 1, r);
      Regs(q.d, op(q.a, q.b, q.c, q.d, x[words[n - 1]], shifts[(n - 1) % 4]), q.b, q.c)
  }

  /** Words are little-endian. */
  function Word(b: seq<Byte>): bv32
    requires |b| == 4
  {
    var b0: int, b1: int, b2: int, b3: int := b[0], b[1], b[2], b[3];
    (b0 + 0x100 * b1 + 0x1_0000 * b2 + 0x100_0000 * b3) as bv32
  }

  function Words(block: seq<Byte>): (x: seq<bv32>)
    requires |block| == 64
    ensures |x| == 16
  {
    seq(16, i requires 0 <= i < 16 => Word(block[4 * i..4 * i + 4]))
  }

  function Add(r: Regs<bv32>, s: Regs<bv32>): Regs<bv32> { Regs(r.a + s.a, r.b + s.b, r.c + s.c, r.d + s.d) }

  lemma Schedules()
    ensures Schedule(WORDS1, SHIFTS1) && Schedule(WORDS2, SHIFTS2) && Schedule(WORDS3, SHIFTS3)
  {
  }

  /** The effect of one block. */
  ghost function Process(r: Regs<bv32>, block: seq<Byte>): Regs<bv32>
    requires |block| == 64
  {
    Schedules();
    var x := Words(block);
    var r1 := Operations(Op(F, 0), x, WORDS1, SHIFTS1, 16, r);
    var r2 := Operations(Op(G, SQRT2), x, WORDS2, SHIFTS2, 16, r1);
    var r3 := Operations(Op(H, SQRT3), x, WORDS3, SHIFTS3, 16, r2);
    Add(r3, r)
  }

  ghost function ProcessAll(r: Regs<bv32>, m: seq<Byte>): Regs<bv32>
    requires |m| % 64 == 0
    decreases |m|
  {
    if |m| < 64 then r else ProcessAll(Process(r, m[..64]), m[64..])
  }

  /** Section 3.3 */
  const INITIAL := Regs<bv32>.Regs(0x67452301, 0xefcdab89, 0x98badcfe, 0x10325476)

  function Zeros(n: nat): seq<Byte> { seq(n, _ => 0) }

  function LittleEndianBytes(n: nat, count: nat): seq<Byte> {
    if count == 0 then [] else [n % 256] + LittleEndianBytes(n / 256, count - 1)
  }

  /** Sections 3.1 and 3.2: a one bit, zero bits to 56 bytes modulo 64, the bit length modulo 2^64 in eight bytes. */
  function Padding(length: nat): (p: seq<Byte>)
  {
    [0x80] + Zeros((55 - length) % 64) + LittleEndianBytes(8 * length % 0x1_0000_0000_0000_0000, 8)
  }

  lemma {:induction false} LittleEndianLength(n: nat, count: nat)
    ensures |LittleEndianBytes(n, count)| == count
  {
    if count > 0 { LittleEndianLength(n / 256, count - 1); }
  }

  /** The bytes stand for the number, as far as they go. */
  lemma {:induction false} LittleEndianValue(n: nat, count: nat)
    ensures LittleEndian(LittleEndianBytes(n, count)) == n % Pow256(count)
  {
    if count > 0 {
      var low, high, p := n % 256, n / 256, Pow256(count - 1);
      LittleEndianValue(high, count - 1);
      assert LittleEndianBytes(n, count)[1..] == LittleEndianBytes(high, count - 1);
      LowestDigitMod(n, p);
    }
  }

  lemma LowestDigitMod(n: nat, p: nat)
    requires p > 0
    ensures n % (256 * p) == n % 256 + 256 * (n / 256 % p)
  {
    var high, q := n / 256, n / 256 / p;
    assert high == q * p + high % p;
    assert n == (256 * p) * q + (n % 256 + 256 * (high % p));
    ModIs(n, 256 * p, q, n % 256 + 256 * (high % p));
  }

  /** A word is the number its bytes stand for. */
  lemma WordValue(b: seq<Byte>)
    requires |b| == 4
    ensures LittleEndian(b) < 0x1_0000_0000 && Word(b) == LittleEndian(b) as bv32
  {
    FourByteNumbers(b);
  }

  /** The padded message is a whole number of blocks; at least the one bit and the length are added, and at most a block
      more. */
  lemma PaddedLength(length: nat)
    ensures (length + |Padding(length)|) % 64 == 0 && 9 <= |Padding(length)| <= 72
  {
    hide LittleEndianBytes;
    LittleEndianLength(8 * length % 0x1_0000_0000_0000_0000, 8);
    ZeroBytes(length);
  }

  lemma ZeroBytes(length: nat)
    ensures (length + 1 + (55 - length) % 64 + 8) % 64 == 0
  {
  }

  /** Section 3.5: the registers A to D, low-order byte first. */
  function OutputBytes(r: Regs<bv32>): seq<Byte> {
    LittleEndianBytes(r.a as nat, 4) + LittleEndianBytes(r.b as nat, 4)
    + LittleEndianBytes(r.c as nat, 4) + LittleEndianBytes(r.d as nat, 4)
  }

  /** The four pieces of the output, read as words, are the registers in order. */
  lemma OutputWords(r: Regs<bv32>)
    ensures var out := OutputBytes(r);
      |out| == 16 && Regs(Word(out[..4]), Word(out[4..8]), Word(out[8..12]), Word(out[12..])) == r
  {
    hide LittleEndianBytes, Word;
    BytesOfWord(r.a);
    BytesOfWord(r.b);
    BytesOfWord(r.c);
    BytesOfWord(r.d);
    var a, b := LittleEndianBytes(r.a as nat, 4), LittleEndianBytes(r.b as nat, 4);
    var c, d := LittleEndianBytes(r.c as nat, 4), LittleEndianBytes(r.d as nat, 4);
    var out := OutputBytes(r);
    assert out[..4] == a && out[4..8] == b && out[8..12] == c && out[12..] == d;
  }

  lemma BytesOfWord(w: bv32)
    ensures var b := LittleEndianBytes(w as nat, 4); |b| == 4 && Word(b) == w
  {
    hide LittleEndianBytes, Word;
    NumberOfWord(w);
    BytesOfNumber(w as nat);
  }

  lemma NumberOfWord(w: bv32)
    ensures (w as nat) < 0x1_0000_0000 && (w as nat) as bv32 == w
  {
  }

  lemma BytesOfNumber(n: nat)
    requires n < 0x1_0000_0000
    ensures var b := LittleEndianBytes(n, 4); |b| == 4 && Word(b) == n as bv32
  {
    hide LittleEndianBytes, LittleEndian, Word;
    LittleEndianLength(n, 4);
    LittleEndianValue(n, 4);
    WordValue(LittleEndianBytes(n, 4));
    assert Pow256(4) == 0x1_0000_0000 by { assert Pow256(2) == 65536; }
  }

  /** The constants of rounds 2 and 3 are the square roots of 2 and 3 in units of 2^-30, cut off. */
  lemma SquareRoots()
    ensures SQRT2 as nat * SQRT2 as nat <= 2 * 0x1000_0000_0000_0000 < (SQRT2 as nat + 1) * (SQRT2 as nat + 1)
    ensures SQRT3 as nat * SQRT3 as nat <= 3 * 0x1000_0000_0000_0000 < (SQRT3 as nat + 1) * (SQRT3 as nat + 1)
  {
  }

  ghost function Digest(m: seq<Byte>): seq<Byte> {
    PaddedLength(|m|);
    OutputBytes(ProcessAll(INITIAL, m + Padding(|m|)))
  }
}
