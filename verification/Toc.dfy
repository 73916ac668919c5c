/** src/toc.cpp: a table of contents over a sorted database, and searching with and without it. */
module Toc {
  import opened Arithmetic
  import opened Wrappers
  import opened Orders
  import opened Bytes
  import opened Codec
  import opened Bodies
  import opened FlatFile

  /** pw_to_prefix: the top `bits` bits of the first four bytes. (A shift by 32 would be undefined, and with 32 bits
      the prefix arithmetic wraps; the options allow 15 to 25.) */
  function PwToPrefix(pw: Pw, bits: nat): nat
    requires |pw.hash| >= 4 && 1 <= bits < 32
  {
    Quotient(BigEndian(pw.hash[..4]), Pow2(32 - bits))
  }

  function Quotient(x: nat, d: nat): (q: nat)
    requires d > 0
    ensures d * q <= x < d * q + d
  {
    assert x == d * (x / d) + x % d;
    x / d
  }

  /** What the prefix is, bit by bit: with 31 bits all but the last of the first four bytes' 32, and with one bit fewer
      always half of it. */
  lemma PrefixBits(pw: Pw, bits: nat)
    requires |pw.hash| >= 4 && 1 <= bits < 31
    ensures PwToPrefix(pw, bits) == PwToPrefix(pw, bits + 1) / 2
    ensures PwToPrefix(pw, 8) == pw.hash[0]
    ensures var h0: int, h1: int, h2: int, h3: int := pw.hash[0], pw.hash[1], pw.hash[2], pw.hash[3];
      PwToPrefix(pw, 31) == h0 * 0x80_0000 + h1 * 0x8000 + h2 * 0x80 + h3 / 2
  {
    var x := BigEndian(pw.hash[..4]);
    FourByteNumbers(pw.hash[..4]);
    Halved(x, Pow2(31 - bits));
    assert Pow2(1) == 2;
    assert Pow2(24) == 0x100_0000 by { assert Pow2(8) == 256 && Pow2(16) == 65536; }
  }

  lemma Halved(x: nat, d: nat)
    requires d > 0
    ensures x / (2 * d) == x / d / 2
  {
    var q, r := x / d, x % d;
    assert x == d * q + r;
    assert x == (2 * d) * (q / 2) + (d * (q % 2) + r);
    ModIs(x, 2 * d, q / 2, d * (q % 2) + r);
  }

  /** With 20 bits it is the number of the published file that has the record, spelled by its first five characters. */
  lemma TwentyBits(pw: Pw)
    requires |pw.hash| >= 4
    ensures |HashText(pw.hash)| >= 5 && UpperHexText(HashText(pw.hash)[..5])
    ensures PwToPrefix(pw, 20) == FromHex(HashText(pw.hash)[..5])
  {
    var h0: int, h1: int, h2: int := pw.hash[0], pw.hash[1], pw.hash[2];
    HashTextShape(pw.hash);
    FourByteNumbers(pw.hash[..4]);
    assert Pow2(12) == 4096 by { assert Pow2(4) == 16 && Pow2(8) == 256; }
    FiveDigits(HashText(pw.hash)[..5], h0 / 16, h0 % 16, h1 / 16, h1 % 16, h2 / 16);
  }

  lemma FiveDigits(s: string, n0: nat, n1: nat, n2: nat, n3: nat, n4: nat)
    requires |s| == 5 && UpperHexText(s) && n0 < 16 && n1 < 16 && n2 < 16 && n3 < 16 && n4 < 16
    requires s[0] == NibbleToChar(n0) && s[1] == NibbleToChar(n1) && s[2] == NibbleToChar(n2)
    requires s[3] == NibbleToChar(n3) && s[4] == NibbleToChar(n4)
    ensures FromHex(s) == n0 * 0x1_0000 + n1 * 0x1000 + n2 * 0x100 + n3 * 0x10 + n4
  {
    NibbleRoundTrip(n0, '0');
    NibbleRoundTrip(n1, '0');
    NibbleRoundTrip(n2, '0');
    NibbleRoundTrip(n3, '0');
    NibbleRoundTrip(n4, '0');
    hide NibbleToChar, MakeNibble;
    assert s[..4][..3] == s[..3] && s[..3][..2] == s[..2] && s[..2][..1] == s[..1] && s[..1][..0] == "";
    assert FromHex(s[..1]) == n0;
    assert FromHex(s[..2]) == n0 * 0x10 + n1;
    assert FromHex(s[..3]) == FromHex(s[..2]) * 0x10 + n2;
    assert FromHex(s[..4]) == FromHex(s[..3]) * 0x10 + n3;
  }

  ghost predicate SortedDb(db: seq<Pw>, hashSize: nat) {
    (forall i :: 0 <= i < |db| ==> |db[i].hash| == hashSize) && SortedBy(PwLess(), db)
  }

  lemma MultiplyOrder(d: nat, a: nat, b: nat)
    ensures a <= b ==> d * a <= d * b
    ensures d * (a + 1) == d * a + d
  {
  }

  lemma QuotientOrder(x: nat, y: nat, d: nat)
    requires d > 0
    ensures x <= y ==> Quotient(x, d) <= Quotient(y, d)
  {
    var a, b := Quotient(x, d), Quotient(y, d);
    MultiplyOrder(d, b, a);
    MultiplyOrder(d, b + 1, a);
  }

  /** A smaller prefix means a smaller hash: byte order implies prefix order. */
  lemma SmallerPrefix(a: Pw, b: Pw, bits: nat)
    requires |a.hash| == |b.hash| >= 4 && 1 <= bits < 32
    ensures PwToPrefix(a, bits) < PwToPrefix(b, bits) ==> PwLess()(a, b)
  {
    hide Quotient, BigEndian, Pow2;
    var x, y := a.hash[..4], b.hash[..4];
    QuotientOrder(BigEndian(y), BigEndian(x), Pow2(32 - bits));
    BigEndianOrder(x, y);
    assert a.hash == x + a.hash[4..] && b.hash == y + b.hash[4..];
    if LexLess(ByteLess(), x, y) { LexByPrefix<Byte>(ByteLess(), x, y, a.hash[4..], b.hash[4..]); }
  }

  lemma PrefixesAscend(db: seq<Pw>, hashSize: nat, bits: nat, i: nat, j: nat)
    requires SortedDb(db, hashSize) && hashSize >= 4 && 1 <= bits < 32 && i <= j < |db|
    ensures PwToPrefix(db[i], bits) <= PwToPrefix(db[j], bits)
  {
    SmallerPrefix(db[j], db[i], bits);
    LexTrichotomy<Byte>(ByteLess(), db[i].hash, db[i].hash);
  }

  // ---------- building ----------

  ghost predicate Occurs(db: seq<Pw>, hashSize: nat, bits: nat, prefix: nat)
    requires SortedDb(db, hashSize) && hashSize >= 4 && 1 <= bits < 32
  {
    exists i :: 0 <= i < |db| && PwToPrefix(db[i], bits) == prefix
  }

  /** `pos` is the first record with the prefix. */
  ghost predicate IsFirst(db: seq<Pw>, hashSize: nat, bits: nat, prefix: nat, pos: nat)
    requires SortedDb(db, hashSize) && hashSize >= 4 && 1 <= bits < 32
  {
    && pos < |db| && PwToPrefix(db[pos], bits) == prefix
    && forall i :: 0 <= i < pos ==> PwToPrefix(db[i], bits) != prefix
  }

  /** Each entry is the first record with its prefix. */
  ghost predicate FirstEntries(toc: seq<nat>, db: seq<Pw>, hashSize: nat, bits: nat)
    requires SortedDb(db, hashSize) && hashSize >= 4 && 1 <= bits < 32
  {
    forall p :: 0 <= p < |toc| ==> IsFirst(db, hashSize, bits, p, toc[p])
  }

  /** One entry for each prefix up to that of the last record, each the first record with its prefix. */
  ghost predicate Exact(toc: seq<nat>, db: seq<Pw>, hashSize: nat, bits: nat)
    requires SortedDb(db, hashSize) && hashSize >= 4 && 1 <= bits < 32
  {
    && db != [] && |toc| == PwToPrefix(db[|db| - 1], bits) + 1
    && FirstEntries(toc, db, hashSize, bits)
  }

  datatype BuildResult = Built | EmptyDb | TooBig | Missing(prefix: nat)

  const TOC_ENTRY_MAX := 0xFFFF_FFFF

  /** std::find_if from `start`, counting the records looked at. */
  method FindPrefix(db: Database<Pw>, hashSize: nat, bits: nat, prefix: nat, start: nat) returns (pos: nat, looked: nat)
    requires db.Valid() && start <= |db.file|
    requires SortedDb(db.file, hashSize) && hashSize >= 4 && 1 <= bits < 32
    modifies db, db.buf
    ensures db.Valid() && start <= pos <= |db.file|
    ensures pos < |db.file| ==> PwToPrefix(db.file[pos], bits) == prefix
    ensures forall i :: start <= i < pos ==> PwToPrefix(db.file[i], bits) != prefix
    ensures looked == pos - start + (if pos < |db.file| then 1 else 0)
  {
    pos, looked := start, 0;
    while pos != |db.file|
      modifies db, db.buf
      invariant db.Valid() && start <= pos <= |db.file| && looked == pos - start
      invariant forall i :: start <= i < pos ==> PwToPrefix(db.file[i], bits) != prefix
      decreases |db.file| - pos
    {
      var r := db.GetRecord(pos);
      looked := looked + 1;
      if PwToPrefix(r.value, bits) == prefix { return; }
      pos := pos + 1;
    }
  }

  /** toc<PwType>: the table, filled by push_back. */
  class Table {
    var entries: seq<nat>

    constructor ()
      ensures entries == []
    {
      entries := [];
    }

    /** build: succeeds exactly when no prefix up to the last record's is missing, and then appends the exact table;
        never looks at more records than there are records and entries. */
    method Build(db: Database<Pw>, hashSize: nat, bits: nat) returns (r: BuildResult, looked: nat, ghost toc: seq<nat>)
      requires db.Valid() && SortedDb(db.file, hashSize) && hashSize >= 4 && 1 <= bits < 32
      modifies this, db, db.buf
      ensures db.Valid() && entries == old(entries) + toc
      ensures r == EmptyDb <==> db.file == []
      ensures r == TooBig <==> |db.file| > 0xFFFF_FFFF
      ensures 0 < |db.file| <= 0xFFFF_FFFF ==>
                var last := PwToPrefix(db.file[|db.file| - 1], bits);
                (r == Built <==> forall p :: 0 <= p <= last ==> Occurs(db.file, hashSize, bits, p))
      ensures r == Built ==> Exact(toc, db.file, hashSize, bits)
      ensures r.Missing? ==> !Occurs(db.file, hashSize, bits, r.prefix)
      ensures looked <= |db.file| + |toc|
    {
      hide SortedDb, PwToPrefix, BigEndian, Occurs, IsFirst, FirstEntries;
      toc, looked := [], 0;
      var back := db.Back();
      if back.Failed? { return EmptyDb, 0, []; }
      HashSizes(db.file, hashSize, |db.file| - 1);
      var tocEntries := Pow2(bits);
      var lastPwPrefix := PwToPrefix(back.value, bits);
      if lastPwPrefix + 1 < tocEntries { tocEntries := lastPwPrefix + 1; }
      PrefixBelow(back.value, bits);
      if |db.file| > TOC_ENTRY_MAX { return TooBig, 0, []; }
      var lastPos := 0;
      NoEntries(db.file, hashSize, bits);
      for prefix := 0 to tocEntries
        modifies this, db, db.buf
        invariant db.Valid() && lastPos < |db.file| && |toc| == prefix
        invariant entries == old(entries) + toc
        invariant FirstEntries(toc, db.file, hashSize, bits)
        invariant lastPos == if prefix == 0 then 0 else toc[prefix - 1]
        invariant looked <= lastPos + prefix
      {
        var pos, n := FindPrefix(db, hashSize, bits, prefix, lastPos);
        looked := looked + n;
        NextEntry(db.file, hashSize, bits, toc, lastPos, pos);
        if pos == |db.file| { return Missing(prefix), looked, toc; }
        lastPos := pos;
        entries, toc := entries + [pos], toc + [pos];
      }
      r := Built;
      EntriesOccur(toc, db.file, hashSize, bits);
    }
  }

  lemma NoEntries(db: seq<Pw>, hashSize: nat, bits: nat)
    requires SortedDb(db, hashSize) && hashSize >= 4 && 1 <= bits < 32
    ensures FirstEntries([], db, hashSize, bits)
  {
  }

  lemma EntriesOccur(toc: seq<nat>, db: seq<Pw>, hashSize: nat, bits: nat)
    requires SortedDb(db, hashSize) && hashSize >= 4 && 1 <= bits < 32 && FirstEntries(toc, db, hashSize, bits)
    ensures forall p :: 0 <= p < |toc| ==> Occurs(db, hashSize, bits, p)
  {
    hide SortedDb, PwToPrefix;
    forall p | 0 <= p < |toc| ensures Occurs(db, hashSize, bits, p) { FirstOccurs(db, hashSize, bits, p, toc[p]); }
  }

  /** What a search from the last entry on has shown about the next prefix. */
  lemma NextEntry(db: seq<Pw>, hashSize: nat, bits: nat, toc: seq<nat>, start: nat, pos: nat)
    requires SortedDb(db, hashSize) && hashSize >= 4 && 1 <= bits < 32 && FirstEntries(toc, db, hashSize, bits)
    requires db != [] && start == (if toc == [] then 0 else toc[|toc| - 1]) && start <= pos <= |db|
    requires pos < |db| ==> PwToPrefix(db[pos], bits) == |toc|
    requires forall i :: start <= i < pos ==> PwToPrefix(db[i], bits) != |toc|
    ensures pos == |db| ==> !Occurs(db, hashSize, bits, |toc|)
    ensures pos < |db| ==> FirstEntries(toc + [pos], db, hashSize, bits)
  {
    hide SortedDb, PwToPrefix, Occurs, IsFirst;
    if toc != [] { FirstOccurs(db, hashSize, bits, |toc| - 1, start); }
    NothingBefore(db, hashSize, bits, |toc|, start);
    NowKnown(db, hashSize, bits, |toc|, pos);
  }

  /** The prefix of a record is one of the 2^bits table entries. */
  lemma PrefixBelow(pw: Pw, bits: nat)
    requires |pw.hash| >= 4 && 1 <= bits < 32
    ensures PwToPrefix(pw, bits) < Pow2(bits)
  {
    PowerValues();
    hide BigEndian, Pow2, Pow256;
    BigEndianBound(pw.hash[..4]);
    Pow2Splits(bits, 32 - bits);
    QuotientBelow(BigEndian(pw.hash[..4]), Pow2(32 - bits), Pow2(bits));
  }

  lemma PowerValues()
    ensures Pow256(4) == 0x1_0000_0000 == Pow2(32)
  {
    assert Pow256(2) == 65536;
    assert Pow2(8) == 256 && Pow2(16) == 65536 && Pow2(24) == 0x100_0000;
  }

  lemma QuotientBelow(x: nat, d: nat, n: nat)
    requires d > 0 && x < n * d
    ensures Quotient(x, d) < n
  {
  }

  lemma {:induction false} Pow2Splits(a: nat, b: nat)
    ensures Pow2(a) * Pow2(b) == Pow2(a + b)
  {
    if a > 0 {
      Pow2Splits(a - 1, b);
      assert Pow2(a) * Pow2(b) == 2 * (Pow2(a - 1) * Pow2(b));
    }
  }

  lemma FirstOccurs(db: seq<Pw>, hashSize: nat, bits: nat, prefix: nat, pos: nat)
    requires SortedDb(db, hashSize) && hashSize >= 4 && 1 <= bits < 32 && IsFirst(db, hashSize, bits, prefix, pos)
    ensures Occurs(db, hashSize, bits, prefix)
    ensures pos < |db| && |db[pos].hash| >= 4 && PwToPrefix(db[pos], bits) == prefix
  {
  }

  /** When nothing before `pos` has the prefix, `pos` is its first record, or there is none. */
  lemma NowKnown(db: seq<Pw>, hashSize: nat, bits: nat, prefix: nat, pos: nat)
    requires SortedDb(db, hashSize) && hashSize >= 4 && 1 <= bits < 32 && pos <= |db|
    requires forall i :: 0 <= i < pos ==> PwToPrefix(db[i], bits) != prefix
    ensures pos == |db| ==> !Occurs(db, hashSize, bits, prefix)
    ensures pos < |db| && PwToPrefix(db[pos], bits) == prefix ==> IsFirst(db, hashSize, bits, prefix, pos)
  {
  }

  /** Behind the first record of a smaller prefix is far enough back to start looking. */
  lemma NothingBefore(db: seq<Pw>, hashSize: nat, bits: nat, prefix: nat, start: nat)
    requires SortedDb(db, hashSize) && hashSize >= 4 && 1 <= bits < 32 && start < |db|
    requires start == 0 || (prefix > 0 && PwToPrefix(db[start], bits) == prefix - 1)
    ensures forall i :: 0 <= i < start ==> PwToPrefix(db[i], bits) != prefix
  {
    forall i | 0 <= i < start ensures PwToPrefix(db[i], bits) != prefix {
      PrefixesAscend(db, hashSize, bits, i, start);
    }
  }

  // ---------- searching ----------

  /** Position of the first record that is not smaller than the needle. */
  function FirstNotLess(db: seq<Pw>, needle: Pw): (r: nat)
    ensures r <= |db|
  {
    if db == [] || !PwLess()(db[0], needle) then 0 else 1 + FirstNotLess(db[1..], needle)
  }

  /** A search of the whole database. */
  function SearchSpec(db: seq<Pw>, needle: Pw): Option<Pw> {
    var i := FirstNotLess(db, needle);
    if i < |db| && SameHash(db[i], needle) then Some(db[i]) else None
  }

  lemma {:induction false} FirstNotLessIs(db: seq<Pw>, needle: Pw, r: nat)
    requires r <= |db| && (forall i :: 0 <= i < r ==> PwLess()(db[i], needle))
    requires r < |db| ==> !PwLess()(db[r], needle)
    ensures FirstNotLess(db, needle) == r
  {
    if r > 0 { FirstNotLessIs(db[1..], needle, r - 1); }
  }

  /** In a sorted database the search finds a record exactly when one has the needle's hash, and then the first such. */
  lemma SearchFinds(db: seq<Pw>, hashSize: nat, needle: Pw)
    requires SortedDb(db, hashSize) && |needle.hash| == hashSize
    ensures SearchSpec(db, needle).Some? <==> exists i :: 0 <= i < |db| && SameHash(db[i], needle)
    ensures forall i ::
              0 <= i < |db| && SameHash(db[i], needle) && (forall j :: 0 <= j < i ==> !SameHash(db[j], needle)) ==>
                SearchSpec(db, needle) == Some(db[i])
  {
    PwLessIsOrder();
    forall i | 0 <= i < |db| && SameHash(db[i], needle) && (forall j :: 0 <= j < i ==> !SameHash(db[j], needle))
      ensures SearchSpec(db, needle) == Some(db[i])
    {
      forall j | 0 <= j < i ensures PwLess()(db[j], needle) {
        LexTrichotomy<Byte>(ByteLess(), db[j].hash, db[i].hash);
      }
      FirstNotLessIs(db, needle, i);
    }
    if k :| 0 <= k < |db| && SameHash(db[k], needle) {
      var i := FirstSame(db, needle, k);
    }
  }

  lemma FirstSame(db: seq<Pw>, needle: Pw, k: nat) returns (i: nat)
    requires k < |db| && SameHash(db[k], needle)
    ensures i < |db| && SameHash(db[i], needle) && forall j :: 0 <= j < i ==> !SameHash(db[j], needle)
  {
    i := k;
    while exists j :: 0 <= j < i && SameHash(db[j], needle)
      invariant i < |db| && SameHash(db[i], needle)
      decreases i
    {
      var j :| 0 <= j < i && SameHash(db[j], needle);
      i := j;
    }
  }

  /** std::lower_bound over [first, last). */
  method LowerBound(db: Database<Pw>, hashSize: nat, begin: nat, end: nat, needle: Pw) returns (first: nat)
    requires db.Valid() && begin <= end <= |db.file| && SortedDb(db.file, hashSize)
    modifies db, db.buf
    ensures db.Valid() && begin <= first <= end
    ensures forall i :: begin <= i < first ==> PwLess()(db.file[i], needle)
    ensures forall i :: first <= i < end ==> !PwLess()(db.file[i], needle)
  {
    hide SortedBy;
    first := begin;
    var len := end - begin;
    while len > 0
      modifies db, db.buf
      invariant db.Valid() && begin <= first && 0 <= len && first + len <= end
      invariant forall i :: begin <= i < first ==> PwLess()(db.file[i], needle)
      invariant forall i :: first + len <= i < end ==> !PwLess()(db.file[i], needle)
      decreases len
    {
      var half := len / 2;
      var middle := first + half;
      var r := db.GetRecord(middle);
      SideOfNeedle(db.file, hashSize, needle, middle);
      if PwLess()(r.value, needle) {
        first := middle + 1;
        len := len - half - 1;
      } else {
        len := half;
      }
    }
  }

  lemma SideOfNeedle(db: seq<Pw>, hashSize: nat, needle: Pw, middle: nat)
    requires SortedDb(db, hashSize) && middle < |db|
    ensures PwLess()(db[middle], needle) ==> forall i :: 0 <= i <= middle ==> PwLess()(db[i], needle)
    ensures !PwLess()(db[middle], needle) ==> forall i :: middle <= i < |db| ==> !PwLess()(db[i], needle)
  {
    PwLessIsOrder();
    forall i | 0 <= i < |db| && i <= middle && PwLess()(db[middle], needle) ensures PwLess()(db[i], needle) {
      if !PwLess()(db[i], needle) { NotGreaterChains(PwLess(), needle, db[i], db[middle]); }
    }
    forall i | middle <= i < |db| && !PwLess()(db[middle], needle) ensures !PwLess()(db[i], needle) {
      if i != middle { NotGreaterChains(PwLess(), needle, db[middle], db[i]); }
    }
  }

  /** The search without a table. */
  method FullSearch(db: Database<Pw>, hashSize: nat, needle: Pw) returns (r: Option<Pw>)
    requires db.Valid() && SortedDb(db.file, hashSize) && |needle.hash| == hashSize
    modifies db, db.buf
    ensures db.Valid() && r == SearchSpec(db.file, needle)
  {
    hide SortedDb;
    var iter := LowerBound(db, hashSize, 0, |db.file|, needle);
    FirstNotLessIs(db.file, needle, iter);
    r := Deref(db, iter, needle);
  }

  /** iter != db.end() && *iter == needle ? *iter : nothing. */
  method Deref(db: Database<Pw>, iter: nat, needle: Pw) returns (r: Option<Pw>)
    requires db.Valid() && iter <= |db.file|
    modifies db, db.buf
    ensures db.Valid()
    ensures r == if iter < |db.file| && SameHash(db.file[iter], needle) then Some(db.file[iter]) else None
  {
    if iter != |db.file| {
      var record := db.GetRecord(iter);
      if SameHash(record.value, needle) { return Some(record.value); }
    }
    return None;
  }

  /** search: with an exact table it gives the same answer as a search of the whole database, for every needle and
      number of bits; also when the inner search stops on the first record of the next chapter. */
  method TocSearch(table: Table, db: Database<Pw>, hashSize: nat, needle: Pw, bits: nat) returns (r: Option<Pw>)
    requires db.Valid() && SortedDb(db.file, hashSize) && |needle.hash| == hashSize >= 4 && 1 <= bits < 32
    requires Exact(table.entries, db.file, hashSize, bits)
    modifies db, db.buf
    ensures db.Valid() && r == SearchSpec(db.file, needle)
  {
    hide SortedDb, PwToPrefix, FirstNotLess, PwLess;
    var pwPrefix := PwToPrefix(needle, bits);
    if pwPrefix >= |table.entries| {
      BeyondTable(table.entries, db.file, hashSize, needle, bits);
      return None;
    }
    var beginOffset := table.entries[pwPrefix];
    var endOffset := if pwPrefix + 1 < |table.entries| then table.entries[pwPrefix + 1] else |db.file|;
    Chapter(table.entries, db.file, hashSize, needle, bits);
    var iter := LowerBound(db, hashSize, beginOffset, endOffset, needle);
    FirstNotLessIs(db.file, needle, iter);
    r := Deref(db, iter, needle);
  }

  lemma BeyondTable(toc: seq<nat>, db: seq<Pw>, hashSize: nat, needle: Pw, bits: nat)
    requires SortedDb(db, hashSize) && |needle.hash| == hashSize >= 4 && 1 <= bits < 32
    requires Exact(toc, db, hashSize, bits) && PwToPrefix(needle, bits) >= |toc|
    ensures FirstNotLess(db, needle) == |db|
  {
    forall i | 0 <= i < |db| ensures PwLess()(db[i], needle) {
      PrefixesAscend(db, hashSize, bits, i, |db| - 1);
      SmallerPrefix(db[i], needle, bits);
    }
    FirstNotLessIs(db, needle, |db|);
  }

  /** Everything before the needle's chapter is smaller than the needle, everything behind it is not. */
  lemma Chapter(toc: seq<nat>, db: seq<Pw>, hashSize: nat, needle: Pw, bits: nat)
    requires SortedDb(db, hashSize) && |needle.hash| == hashSize >= 4 && 1 <= bits < 32
    requires Exact(toc, db, hashSize, bits) && PwToPrefix(needle, bits) < |toc|
    ensures var p := PwToPrefix(needle, bits); var end := if p + 1 < |toc| then toc[p + 1] else |db|;
      && toc[p] <= end <= |db|
      && (forall i :: 0 <= i < toc[p] ==> PwLess()(db[i], needle))
      && (forall i :: end <= i < |db| ==> !PwLess()(db[i], needle))
  {
    hide SortedDb, PwToPrefix, PwLess;
    var p := PwToPrefix(needle, bits);
    assert IsFirst(db, hashSize, bits, p, toc[p]);
    forall i | 0 <= i < toc[p] ensures PwLess()(db[i], needle) {
      ChapterSide(db, hashSize, bits, i, toc[p]);
      HashSizes(db, hashSize, i);
      SmallerPrefix(db[i], needle, bits);
    }
    if p + 1 < |toc| {
      assert IsFirst(db, hashSize, bits, p + 1, toc[p + 1]);
      ChapterSide(db, hashSize, bits, toc[p + 1], toc[p]);
      forall i | toc[p + 1] <= i < |db| ensures !PwLess()(db[i], needle) {
        ChapterSide(db, hashSize, bits, toc[p + 1], i);
        HashSizes(db, hashSize, i);
        SmallerPrefix(needle, db[i], bits);
        NotBoth(needle, db[i]);
      }
    }
  }

  lemma ChapterSide(db: seq<Pw>, hashSize: nat, bits: nat, i: nat, j: nat)
    requires SortedDb(db, hashSize) && hashSize >= 4 && 1 <= bits < 32 && i < |db| && j < |db|
    ensures i <= j ==> PwToPrefix(db[i], bits) <= PwToPrefix(db[j], bits)
    ensures PwToPrefix(db[j], bits) < PwToPrefix(db[i], bits) ==> j < i
  {
    if i <= j { PrefixesAscend(db, hashSize, bits, i, j); }
  }

  lemma HashSizes(db: seq<Pw>, hashSize: nat, i: nat)
    requires SortedDb(db, hashSize) && i < |db|
    ensures |db[i].hash| == hashSize
  {
  }

  lemma NotBoth(a: Pw, b: Pw)
    ensures PwLess()(a, b) ==> !PwLess()(b, a)
  {
    LexTrichotomy<Byte>(ByteLess(), a.hash, b.hash);
  }
}
