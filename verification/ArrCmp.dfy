/** include/arrcmp.hpp: comparing byte arrays in chunks as wide as the machine's vector registers. */
module ArrCmp {
  import opened Arithmetic
  import opened Orders
  import opened Bytes
  import opened Codec

  datatype Ordering = Less | Equal | Greater

  /** maxvec: 64 with AVX512BW, 32 with AVX2, 16 with SSE, otherwise 8. */
  predicate IsWidth(maxvec: nat) { maxvec == 64 || maxvec == 32 || maxvec == 16 || maxvec == 8 }

  /** sizeof(largest_uint<N>) */
  function LargestUint(n: nat): nat {
    if n >= 8 then 8 else if n >= 4 then 4 else if n >= 2 then 2 else 1
  }

  /** sizeof(largest_vector<N>) */
  function LargestVector(n: nat, maxvec: nat): nat {
    if maxvec >= 64 && n >= 64 then 64
    else if maxvec >= 32 && n >= 32 then 32
    else if maxvec >= 16 && n >= 16 then 16
    else 8
  }

  /** next_size */
  function NextSize(n: nat, maxvec: nat): (r: nat)
    requires n > 0
    ensures 1 <= r <= n
    ensures IsWidth(maxvec) ==> r <= maxvec
  {
    if n > 8 then LargestVector(n, maxvec) else LargestUint(n)
  }

  /** It is the largest chunk the machine has a type for that fits: a power of two up to the vector width. */
  lemma NextSizeIsLargest(n: nat, maxvec: nat, k: nat)
    requires n > 0 && IsWidth(maxvec)
    ensures exists m :: 0 <= m <= 6 && NextSize(n, maxvec) == Pow2(m)
    ensures Pow2(k) <= n && Pow2(k) <= maxvec ==> Pow2(k) <= NextSize(n, maxvec)
  {
    assert Pow2(3) == 8 && Pow2(6) == 64;
    assert Pow2(0) == 1 && Pow2(1) == 2 && Pow2(2) == 4 && Pow2(4) == 16 && Pow2(5) == 32;
    if k > 6 { LargerPower(6, k); }
  }

  lemma {:induction false} LargerPower(a: nat, b: nat)
    requires a < b
    ensures 2 * Pow2(a) <= Pow2(b)
  {
    if a + 1 < b { LargerPower(a, b - 1); }
  }

  function CompareNat(a: nat, b: nat): Ordering {
    if a < b then Less else if a > b then Greater else Equal
  }

  // ---------- vector comparison ----------

  /** Bit i of the result is set exactly when position i holds `bit`: movemask. */
  function Mask(bits: seq<bool>): nat {
    if bits == [] then 0 else (if bits[0] then 1 else 0) + 2 * Mask(bits[1..])
  }

  function EqualBits(a: seq<Byte>, b: seq<Byte>): seq<bool>
    requires |a| == |b|
  {
    seq(|a|, i requires 0 <= i < |a| => a[i] == b[i])
  }

  function DifferBits(a: seq<Byte>, b: seq<Byte>): seq<bool>
    requires |a| == |b|
  {
    seq(|a|, i requires 0 <= i < |a| => a[i] != b[i])
  }

  /** vector_cmp: with 512 bits the mask of differing bytes comes directly; otherwise the equality mask is
      complemented within the width of the register. */
  function VectorCmp(a: seq<Byte>, b: seq<Byte>): nat
    requires |a| == |b|
  {
    if |a| == 64 then Mask(DifferBits(a, b))
    else
      MaskBound(EqualBits(a, b));
      Pow2(|a|) - 1 - Mask(EqualBits(a, b))
  }

  /** __builtin_ctzll on a mask of at most 64 bits. */
  function CountTrailingZeros(m: nat): nat
    requires m > 0
  {
    if m % 2 == 1 then 0 else 1 + CountTrailingZeros(m / 2)
  }

  lemma {:induction false} MaskBound(bits: seq<bool>)
    ensures Mask(bits) < Pow2(|bits|)
  {
    if bits != [] { MaskBound(bits[1..]); }
  }

  lemma {:induction false} MaskComplement(a: seq<Byte>, b: seq<Byte>)
    requires |a| == |b|
    ensures Mask(DifferBits(a, b)) + Mask(EqualBits(a, b)) == Pow2(|a|) - 1
  {
    if a != [] {
      MaskComplement(a[1..], b[1..]);
      assert DifferBits(a, b)[1..] == DifferBits(a[1..], b[1..]);
      assert EqualBits(a, b)[1..] == EqualBits(a[1..], b[1..]);
    }
  }

  lemma VectorCmpIsDiffer(a: seq<Byte>, b: seq<Byte>)
    requires |a| == |b|
    ensures VectorCmp(a, b) == Mask(DifferBits(a, b))
  {
    MaskComplement(a, b);
    MaskBound(EqualBits(a, b));
  }

  /** The lowest set bit is the first set position; no bit set means no position set. */
  lemma {:induction false} FirstSetBit(bits: seq<bool>)
    ensures Mask(bits) == 0 <==> forall i :: 0 <= i < |bits| ==> !bits[i]
    ensures Mask(bits) > 0 ==>
              var k := CountTrailingZeros(Mask(bits)); k < |bits| && bits[k] && forall i :: 0 <= i < k ==> !bits[i]
  {
    if bits != [] {
      var rest := bits[1..];
      FirstSetBit(rest);
      assert forall i :: 1 <= i < |bits| ==> bits[i] == rest[i - 1];
      if !bits[0] && Mask(bits) > 0 {
        assert Mask(bits) % 2 == 0 && Mask(bits) / 2 == Mask(rest);
      }
    }
  }

  // ---------- comparing one chunk ----------

  /** three_way: registers up to eight bytes as big-endian numbers, wider ones by their first differing byte. */
  function ThreeWay(a: seq<Byte>, b: seq<Byte>): Ordering
    requires |a| == |b|
  {
    if |a| <= 8 then CompareNat(BigEndian(a), BigEndian(b))
    else
      var mask := VectorCmp(a, b);
      if mask == 0 then Equal
      else
        VectorCmpIsDiffer(a, b);
        FirstSetBit(DifferBits(a, b));
        var k := CountTrailingZeros(mask);
        CompareNat(a[k], b[k])
  }

  /** cmp_by_substracting: a difference where it fits an int, otherwise only its sign. */
  function CmpBySubtracting(a: nat, b: nat, size: nat): int {
    if size < 4 then a - b else (if a > b then 1 else 0) - (if a < b then 1 else 0)
  }

  /** three_way_int */
  function ThreeWayInt(a: seq<Byte>, b: seq<Byte>): int
    requires |a| == |b|
  {
    if |a| <= 8 then CmpBySubtracting(BigEndian(a), BigEndian(b), |a|)
    else
      var mask := VectorCmp(a, b);
      if mask == 0 then 0
      else
        VectorCmpIsDiffer(a, b);
        FirstSetBit(DifferBits(a, b));
        var k := CountTrailingZeros(mask);
        CmpBySubtracting(a[k], b[k], 1)
  }

  /** equal, which does not bother to swap: little-endian numbers do. */
  predicate EqualChunk(a: seq<Byte>, b: seq<Byte>)
    requires |a| == |b|
  {
    if |a| <= 8 then LittleEndian(a) == LittleEndian(b) else VectorCmp(a, b) == 0
  }

  // ---------- array_compare ----------

  /** array_compare with any of the three comparators: chunk by chunk until one says something other than equal. */
  function ArrayCompare<R(==)>(comp: (seq<Byte>, seq<Byte>) --> R, equality: R, a: seq<Byte>, b: seq<Byte>,
      maxvec: nat): R
    requires |a| == |b| && forall x: seq<Byte>, y: seq<Byte> :: |x| == |y| ==> comp.requires(x, y)
  {
    if a == [] then equality
    else
      var n := NextSize(|a|, maxvec);
      var res := comp(a[..n], b[..n]);
      if res != equality then res else ArrayCompare(comp, equality, a[n..], b[n..], maxvec)
  }

  function CompareThreeWay(a: seq<Byte>, b: seq<Byte>, maxvec: nat): Ordering
    requires |a| == |b|
  {
    ArrayCompare((x: seq<Byte>, y: seq<Byte>) requires |x| == |y| => ThreeWay(x, y), Equal, a, b, maxvec)
  }

  function CompareThreeWayInt(a: seq<Byte>, b: seq<Byte>, maxvec: nat): int
    requires |a| == |b|
  {
    ArrayCompare((x: seq<Byte>, y: seq<Byte>) requires |x| == |y| => ThreeWayInt(x, y), 0, a, b, maxvec)
  }

  predicate CompareEqual(a: seq<Byte>, b: seq<Byte>, maxvec: nat)
    requires |a| == |b|
  {
    ArrayCompare((x: seq<Byte>, y: seq<Byte>) requires |x| == |y| => EqualChunk(x, y), true, a, b, maxvec)
  }

  /** The chunk sizes the recursion uses. */
  function Chunks(n: nat, maxvec: nat): seq<nat> {
    if n == 0 then [] else [NextSize(n, maxvec)] + Chunks(n - NextSize(n, maxvec), maxvec)
  }

  function Sum(s: seq<nat>): nat { if s == [] then 0 else s[0] + Sum(s[1..]) }

  /** The chunks cover the array exactly, none is wider than the machine allows, and each is a width it has. */
  lemma {:induction false} ChunksCover(n: nat, maxvec: nat)
    requires IsWidth(maxvec)
    ensures Sum(Chunks(n, maxvec)) == n
    ensures forall c :: c in Chunks(n, maxvec) ==> c in {1, 2, 4, 8, 16, 32, 64} && c <= maxvec
  {
    if n > 0 { ChunksCover(n - NextSize(n, maxvec), maxvec); }
  }

  // ---------- correctness ----------

  /** std::array's <=>. */
  ghost function LexCompare(a: seq<Byte>, b: seq<Byte>): Ordering {
    if LexLess(ByteLess(), a, b) then Less else if a == b then Equal else Greater
  }

  ghost function SignOf(o: Ordering): int { match o case Less => -1 case Equal => 0 case Greater => 1 }

  function Sign(n: int): int { if n < 0 then -1 else if n > 0 then 1 else 0 }

  lemma ByteOrder()
    ensures TotalOrder(ByteLess())
  {
  }

  /** Deciding at the first difference is deciding lexicographically. */
  lemma DecidedAt(a: seq<Byte>, b: seq<Byte>, k: nat)
    requires |a| == |b| && k < |a| && a[k] != b[k] && forall i :: 0 <= i < k ==> a[i] == b[i]
    ensures LexCompare(a, b) == CompareNat(a[k], b[k])
  {
    ByteOrder();
    FirstDifference<Byte>(ByteLess(), a, b, k);
    assert a[k..][0] == a[k] && b[k..][0] == b[k];
  }

  lemma WideChunk(a: seq<Byte>, b: seq<Byte>)
    requires |a| == |b|
    ensures VectorCmp(a, b) == 0 <==> a == b
    ensures VectorCmp(a, b) > 0 ==>
              var k := CountTrailingZeros(VectorCmp(a, b));
              k < |a| && LexCompare(a, b) == CompareNat(a[k], b[k]) && a[k] != b[k]
  {
    VectorCmpIsDiffer(a, b);
    var bits := DifferBits(a, b);
    FirstSetBit(bits);
    if VectorCmp(a, b) > 0 {
      var k := CountTrailingZeros(VectorCmp(a, b));
      forall i | 0 <= i < k ensures a[i] == b[i] { assert !bits[i]; }
      DecidedAt(a, b, k);
    } else {
      forall i | 0 <= i < |a| ensures a[i] == b[i] { assert !bits[i]; }
    }
  }

  /** One chunk, either way it is compared. */
  lemma ChunkIsLex(a: seq<Byte>, b: seq<Byte>)
    requires |a| == |b|
    ensures ThreeWay(a, b) == LexCompare(a, b)
    ensures Sign(ThreeWayInt(a, b)) == SignOf(LexCompare(a, b)) && IsInt32(ThreeWayInt(a, b))
  {
    LexTrichotomy<Byte>(ByteLess(), a, a);
    if |a| <= 8 {
      BigEndianOrder(a, b);
      BigEndianBound(a);
      BigEndianBound(b);
      assert Pow256(1) == 256 && Pow256(2) == 0x1_0000 && Pow256(3) == 0x100_0000;
    } else {
      WideChunk(a, b);
    }
  }

  lemma {:induction false} LittleEndianInjective(a: seq<Byte>, b: seq<Byte>)
    requires |a| == |b|
    ensures LittleEndian(a) == LittleEndian(b) <==> a == b
  {
    if a != [] {
      LittleEndianInjective(a[1..], b[1..]);
      assert a == [a[0]] + a[1..] && b == [b[0]] + b[1..];
    }
  }

  lemma EqualChunkIsEquality(a: seq<Byte>, b: seq<Byte>)
    requires |a| == |b|
    ensures EqualChunk(a, b) <==> a == b
  {
    if |a| <= 8 { LittleEndianInjective(a, b); } else { WideChunk(a, b); }
  }

  /** Comparing the first n bytes, then the rest. */
  lemma {:induction false} LexSplit(a: seq<Byte>, b: seq<Byte>, n: nat)
    requires |a| == |b| && n <= |a|
    ensures LexCompare(a, b) == if a[..n] != b[..n] then LexCompare(a[..n], b[..n]) else LexCompare(a[n..], b[n..])
  {
    ByteOrder();
    assert a == a[..n] + a[n..] && b == b[..n] + b[n..];
    if a[..n] == b[..n] {
      LexSamePrefix<Byte>(ByteLess(), a[..n], a[n..], b[n..]);
    } else {
      LexTrichotomy<Byte>(ByteLess(), a[..n], b[..n]);
      LexTrichotomy<Byte>(ByteLess(), a, b);
      if LexLess(ByteLess(), a[..n], b[..n]) {
        LexByPrefix<Byte>(ByteLess(), a[..n], b[..n], a[n..], b[n..]);
      } else {
        LexByPrefix<Byte>(ByteLess(), b[..n], a[..n], b[n..], a[n..]);
      }
    }
  }

  /** array_compare with three_way is lexicographic byte order, for every length and vector width. */
  lemma {:induction false} ThreeWayIsLex(a: seq<Byte>, b: seq<Byte>, maxvec: nat)
    requires |a| == |b|
    ensures CompareThreeWay(a, b, maxvec) == LexCompare(a, b)
    decreases |a|
  {
    if a != [] {
      hide ThreeWay, LexCompare;
      var n := NextSize(|a|, maxvec);
      ChunkIsLex(a[..n], b[..n]);
      LexSplit(a, b, n);
      LexEqual(a[..n], b[..n]);
      ThreeWayIsLex(a[n..], b[n..], maxvec);
    }
  }

  lemma LexEqual(a: seq<Byte>, b: seq<Byte>)
    requires |a| == |b|
    ensures LexCompare(a, b) == Equal <==> a == b
  {
    LexTrichotomy<Byte>(ByteLess(), a, a);
  }

  /** With three_way_int the result has the right sign, and it fits an int. */
  lemma {:induction false} ThreeWayIntHasSign(a: seq<Byte>, b: seq<Byte>, maxvec: nat)
    requires |a| == |b|
    ensures Sign(CompareThreeWayInt(a, b, maxvec)) == SignOf(LexCompare(a, b))
    ensures IsInt32(CompareThreeWayInt(a, b, maxvec))
    decreases |a|
  {
    if a != [] {
      hide ThreeWayInt, LexCompare;
      var n := NextSize(|a|, maxvec);
      ChunkIsLex(a[..n], b[..n]);
      LexSplit(a, b, n);
      LexEqual(a[..n], b[..n]);
      ThreeWayIntHasSign(a[n..], b[n..], maxvec);
    } else {
      LexEqual(a, b);
    }
  }

  /** With equal it is equality. */
  lemma {:induction false} EqualIsEquality(a: seq<Byte>, b: seq<Byte>, maxvec: nat)
    requires |a| == |b|
    ensures CompareEqual(a, b, maxvec) <==> a == b
    decreases |a|
  {
    if a != [] {
      hide EqualChunk;
      var n := NextSize(|a|, maxvec);
      EqualChunkIsEquality(a[..n], b[..n]);
      assert a == a[..n] + a[n..] && b == b[..n] + b[n..];
      EqualIsEquality(a[n..], b[n..], maxvec);
    }
  }

  /** The records' operator<=> and operator==, which go through array_compare, are the order and equality used
      everywhere else. */
  lemma RecordOperators(a: Pw, b: Pw, maxvec: nat)
    requires |a.hash| == |b.hash|
    ensures CompareThreeWay(a.hash, b.hash, maxvec) == Less <==> PwLess()(a, b)
    ensures CompareThreeWay(a.hash, b.hash, maxvec) == Equal <==> SameHash(a, b)
    ensures CompareEqual(a.hash, b.hash, maxvec) <==> SameHash(a, b)
  {
    ThreeWayIsLex(a.hash, b.hash, maxvec);
    LexEqual(a.hash, b.hash);
    EqualIsEquality(a.hash, b.hash, maxvec);
  }
}
