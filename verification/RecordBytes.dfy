/** Records as they lie on disk: the hash bytes followed by the count, little-endian in two's complement. */
module RecordBytes {
  import opened Arithmetic
  import opened Bytes
  import opened Codec

  /** sizeof(pawned_pw): every hash size is a multiple of four, so there is no padding. */
  function RecordSize(hashSize: nat): nat { hashSize + 4 }

  function EncodeCount(n: int): seq<Byte> {
    var u := n % 0x1_0000_0000;
    [u % 0x100, u / 0x100 % 0x100, u / 0x1_0000 % 0x100, u / 0x100_0000]
  }

  function DecodeCount(b: seq<Byte>): int
    requires |b| == 4
  {
    var b0: int, b1: int, b2: int, b3: int := b[0], b[1], b[2], b[3];
    var u := b0 + b1 * 0x100 + b2 * 0x1_0000 + b3 * 0x100_0000;
    if u < 0x8000_0000 then u else u - 0x1_0000_0000
  }

  function Encode(r: Pw): seq<Byte> { r.hash + EncodeCount(r.count) }

  function Decode(b: seq<Byte>): Pw
    requires |b| >= 4
  {
    Pw(b[..|b| - 4], DecodeCount(b[|b| - 4..]))
  }

  function EncodeAll(rs: seq<Pw>): seq<Byte> {
    if rs == [] then [] else Encode(rs[0]) + EncodeAll(rs[1..])
  }

  /** The records of a file whose length is a multiple of the record size. */
  function DecodeAll(bytes: seq<Byte>, hashSize: nat): seq<Pw>
    requires |bytes| % RecordSize(hashSize) == 0
  {
    if bytes == [] then []
    else
      var size := RecordSize(hashSize);
      assert |bytes| >= size && |bytes[size..]| % size == 0 by {
        Divided(|bytes|, size, 0);
        SubtractOne(|bytes|, size);
      }
      [Decode(bytes[..size])] + DecodeAll(bytes[size..], hashSize)
  }

  ghost predicate AllValid(rs: seq<Pw>, hashSize: nat) {
    forall i :: 0 <= i < |rs| ==> ValidPw(rs[i], hashSize)
  }

  lemma FourDigits(u: nat)
    requires u < 0x1_0000_0000
    ensures u % 0x100 + u / 0x100 % 0x100 * 0x100 + u / 0x1_0000 % 0x100 * 0x1_0000 + u / 0x100_0000 * 0x100_0000 == u
  {
    assert u / 0x100 == u / 0x1_0000 * 0x100 + u / 0x100 % 0x100;
    assert u / 0x1_0000 == u / 0x100_0000 * 0x100 + u / 0x1_0000 % 0x100;
  }

  lemma CountRoundTrip(n: int)
    requires IsInt32(n)
    ensures DecodeCount(EncodeCount(n)) == n
  {
    FourDigits(n % 0x1_0000_0000);
  }

  lemma EncodeRoundTrip(r: Pw)
    requires IsInt32(r.count)
    ensures |Encode(r)| == RecordSize(|r.hash|) && Decode(Encode(r)) == r
  {
    hide EncodeCount, DecodeCount;
    CountLength(r.count);
    CountRoundTrip(r.count);
    var b := Encode(r);
    assert b[..|b| - 4] == r.hash && b[|b| - 4..] == EncodeCount(r.count);
  }

  /** Where the parts of a record lie: the hash from the front, then the count modulo 2^32, low byte first. */
  lemma RecordLayout(r: Pw)
    ensures |Encode(r)| == |r.hash| + 4 && Encode(r)[..|r.hash|] == r.hash
    ensures LittleEndian(Encode(r)[|r.hash|..]) == r.count % 0x1_0000_0000
  {
    var b, u := EncodeCount(r.count), r.count % 0x1_0000_0000;
    FourDigits(u);
    assert Encode(r)[|r.hash|..] == b;
    FourByteNumbers(b);
  }

  /** Whatever four bytes or more are read as a record, writing it gives them back. */
  lemma DecodeRoundTrip(b: seq<Byte>)
    requires |b| >= 4
    ensures Encode(Decode(b)) == b && IsInt32(Decode(b).count)
  {
    CountBytes(b[|b| - 4..]);
  }

  lemma CountBytes(b: seq<Byte>)
    requires |b| == 4
    ensures EncodeCount(DecodeCount(b)) == b && IsInt32(DecodeCount(b))
  {
    var b0: int, b1: int, b2: int, b3: int := b[0], b[1], b[2], b[3];
    var u := b0 + b1 * 0x100 + b2 * 0x1_0000 + b3 * 0x100_0000;
    assert DecodeCount(b) % 0x1_0000_0000 == u;
    assert u / 0x100 == b1 + b2 * 0x100 + b3 * 0x1_0000;
    assert u / 0x1_0000 == b2 + b3 * 0x100;
  }

  lemma CountLength(n: int)
    ensures |EncodeCount(n)| == 4
  {
  }

  lemma {:induction false} EncodeAllLength(rs: seq<Pw>, hashSize: nat)
    requires AllValid(rs, hashSize)
    ensures |EncodeAll(rs)| == |rs| * RecordSize(hashSize)
  {
    if rs != [] {
      EncodeAllLength(rs[1..], hashSize);
      EncodeRoundTrip(rs[0]);
      assert |rs| * RecordSize(hashSize) == (|rs| - 1) * RecordSize(hashSize) + RecordSize(hashSize);
    }
  }

  /** Reading back what was written. */
  lemma {:induction false} DecodeEncodeAll(rs: seq<Pw>, hashSize: nat)
    requires AllValid(rs, hashSize)
    ensures |EncodeAll(rs)| % RecordSize(hashSize) == 0 && DecodeAll(EncodeAll(rs), hashSize) == rs
  {
    EncodeAllLength(rs, hashSize);
    ModIs(|EncodeAll(rs)|, RecordSize(hashSize), |rs|, 0);
    if rs != [] {
      DecodeEncodeAll(rs[1..], hashSize);
      EncodeRoundTrip(rs[0]);
      var b, size := EncodeAll(rs), RecordSize(hashSize);
      assert b[..size] == Encode(rs[0]) && b[size..] == EncodeAll(rs[1..]);
    }
  }

  lemma {:induction false} EncodeAllAppend(a: seq<Pw>, b: seq<Pw>)
    ensures EncodeAll(a + b) == EncodeAll(a) + EncodeAll(b)
  {
    if a == [] {
      assert a + b == b;
    } else {
      assert (a + b)[1..] == a[1..] + b;
      EncodeAllAppend(a[1..], b);
    }
  }

  /** The first `k` records are the first `k` record-sized pieces of the file: what seeking to pos * size relies on. */
  lemma EncodeAllTake(rs: seq<Pw>, hashSize: nat, k: nat)
    requires AllValid(rs, hashSize) && k <= |rs|
    ensures k * RecordSize(hashSize) <= |EncodeAll(rs)|
    ensures EncodeAll(rs)[..k * RecordSize(hashSize)] == EncodeAll(rs[..k])
    ensures EncodeAll(rs)[k * RecordSize(hashSize)..] == EncodeAll(rs[k..])
  {
    assert rs == rs[..k] + rs[k..];
    EncodeAllAppend(rs[..k], rs[k..]);
    EncodeAllLength(rs[..k], hashSize);
  }

  lemma SizeIsPositive(hashSize: nat)
    ensures RecordSize(hashSize) > 0
  {
  }

  /** A file cut anywhere, trimmed to whole records, holds a beginning of the records. */
  lemma CutAndTrim(rs: seq<Pw>, hashSize: nat, cut: nat)
    requires AllValid(rs, hashSize) && cut <= |EncodeAll(rs)|
    ensures var size := RecordSize(hashSize); var k := cut / size;
            k <= |rs| && cut - cut % size == k * size && EncodeAll(rs)[..cut - cut % size] == EncodeAll(rs[..k])
  {
    hide EncodeAll, AllValid, RecordSize;
    var size: nat := RecordSize(hashSize);
    SizeIsPositive(hashSize);
    EncodeAllLength(rs, hashSize);
    Divided(cut, size, |rs|);
    EncodeAllTake(rs, hashSize, cut / size);
  }
}
