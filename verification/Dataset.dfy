/** The records a complete download consists of. */
module Dataset {
  import opened Bytes
  import opened Codec
  import opened Lines
  import opened Protocol
  import opened Bodies
  import opened RecordBytes

  /** A fixed set of published files, converted to records of one hash size. */
  datatype Data = Data(source: Source, hashSize: nat, limit: nat) {
    /** Characters of a record's hash text behind the prefix, and of a published line before the colon. */
    function SuffixSize(): nat { SuffixStrSize(hashSize) }

    function PublishedSize(): nat { if hashSize == 16 then 27 else 35 }

    function Server(): nat -> string { (i: nat) => source.Body(i) }

    /** The three record types; files that are non-empty and list no hash twice, as far as the record type keeps it. */
    ghost predicate WellFormed() {
      && (hashSize == 8 || hashSize == 16 || hashSize == 20)
      && limit <= FILES
      && (forall i :: 0 <= i < limit ==> ValidFile(source.entries(i), PublishedSize()))
      && (forall i :: 0 <= i < limit ==> Distinct(source.entries(i), SuffixSize()))
    }

    /** Every file is in ascending order of its suffixes, as far as the record type keeps them. */
    ghost predicate Ascending() {
      forall i :: 0 <= i < limit ==> AscendingFile(source.entries(i), SuffixSize())
    }
  }

  function Kept(e: Entry, size: nat): string { if |e.suffix| <= size then e.suffix else e.suffix[..size] }

  ghost predicate Distinct(es: seq<Entry>, size: nat) {
    forall j, k :: 0 <= j < k < |es| ==> Kept(es[j], size) != Kept(es[k], size)
  }

  ghost predicate AscendingFile(es: seq<Entry>, size: nat) {
    forall j, k :: 0 <= j < k < |es| ==> LexLess(CharLess(), Kept(es[j], size), Kept(es[k], size))
  }

  /** The writer of a binary download: each line becomes a record. (The constructor asserts that the line begins with
      a hash; no line of a well-formed file fails that, so what the other branch says does not matter.) */
  ghost function Convert(line: string, hashSize: nat): Pw {
    if HexText(line, 2 * hashSize) then Parse(line, hashSize) else Pw([], -1)
  }

  ghost function ConvertAll(lines: seq<string>, hashSize: nat): seq<Pw> {
    seq(|lines|, i requires 0 <= i < |lines| => Convert(lines[i], hashSize))
  }

  ghost function FileRecords(ds: Data, i: nat): seq<Pw> {
    ConvertAll(FullLines(HexPrefix(i), ds.source.entries(i)), ds.hashSize)
  }

  /** The records of files a..b, in order. */
  ghost function AllRecords(ds: Data, a: nat, b: nat): seq<Pw>
    requires a <= b
  {
    if a == b then [] else AllRecords(ds, a, b - 1) + FileRecords(ds, b - 1)
  }

  lemma {:induction false} FullLinesAt(prefix: string, es: seq<Entry>, k: nat)
    requires k < |es|
    ensures |FullLines(prefix, es)| == |es| && FullLines(prefix, es)[k] == prefix + LineOf(es[k])
  {
    if k > 0 {
      FullLinesAt(prefix, es[1..], k - 1);
    } else {
      FullLinesLength(prefix, es);
    }
  }

  lemma {:induction false} FullLinesLength(prefix: string, es: seq<Entry>)
    ensures |FullLines(prefix, es)| == |es|
  {
    if es != [] { FullLinesLength(prefix, es[1..]); }
  }

  lemma FileRecordsLength(ds: Data, i: nat)
    ensures |FileRecords(ds, i)| == |ds.source.entries(i)|
  {
    FullLinesLength(HexPrefix(i), ds.source.entries(i));
  }

  /** The hash of a converted line is the text at its front. */
  lemma ConvertLine(prefix: string, e: Entry, hashSize: nat, size: nat, published: nat)
    requires |prefix| == PREFIX_STR_SIZE && UpperHexText(prefix) && ValidEntry(e, published)
    requires PREFIX_STR_SIZE + size == 2 * hashSize && size <= published
    ensures var line := prefix + LineOf(e);
            HexText(line, 2 * hashSize) && line[..2 * hashSize] == prefix + Kept(e, size)
            && ValidPw(Convert(line, hashSize), hashSize)
            && HashText(Convert(line, hashSize).hash) == prefix + Kept(e, size)
  {
    var line := prefix + LineOf(e);
    var n := 2 * hashSize;
    var head := prefix + Kept(e, size);
    forall i | 0 <= i < n ensures line[i] == head[i] && IsUpperHex(line[i]) {
      if i < PREFIX_STR_SIZE {
        assert line[i] == prefix[i];
      } else {
        assert line[i] == e.suffix[i - PREFIX_STR_SIZE];
      }
    }
    assert line[..n] == head;
    HashTextParse(line, hashSize);
    CountInRange(line, CountIndex(line, hashSize));
  }

  lemma CountInRange(text: string, idx: nat)
    ensures IsInt32(CountOf(text, idx))
  {
  }

  /** Its count is the one behind the colon, also where a sha1 line is read as sha1t64. */
  lemma ConvertCount(prefix: string, e: Entry, hashSize: nat, published: nat)
    requires |prefix| == PREFIX_STR_SIZE && UpperHexText(prefix) && ValidEntry(e, published)
    requires (hashSize == 16 && published == 27) || ((hashSize == 20 || hashSize == 8) && published == 35)
    requires HexText(prefix + LineOf(e), 2 * hashSize)
    ensures Convert(prefix + LineOf(e), hashSize).count == e.count
  {
    hide FromChars, DecNat, ParseHash, HexText;
    var line, colon := prefix + LineOf(e), PREFIX_STR_SIZE + published;
    assert line[colon] == ':' && line[colon + 1..] == DecNat(e.count);
    if hashSize == 8 { assert line[16] == e.suffix[11] && IsUpperHex(e.suffix[11]); }
    assert DecNat(e.count) + "" == DecNat(e.count);
    FromToChars(e.count, "");
    assert CountIndex(line, hashSize) == colon + 1;
  }

  /** Record `k` of file `i`: hash and count. */
  lemma RecordFacts(ds: Data, i: nat, k: nat)
    requires ds.WellFormed() && i < ds.limit && k < |ds.source.entries(i)|
    ensures |FileRecords(ds, i)| == |ds.source.entries(i)|
    ensures ValidPw(FileRecords(ds, i)[k], ds.hashSize)
    ensures HashText(FileRecords(ds, i)[k].hash) == HexPrefix(i) + Kept(ds.source.entries(i)[k], ds.SuffixSize())
    ensures FileRecords(ds, i)[k].count == ds.source.entries(i)[k].count
  {
    PrefixFacts(i, i);
    FullLinesAt(HexPrefix(i), ds.source.entries(i), k);
    ConvertLine(HexPrefix(i), ds.source.entries(i)[k], ds.hashSize, ds.SuffixSize(), ds.PublishedSize());
    ConvertCount(HexPrefix(i), ds.source.entries(i)[k], ds.hashSize, ds.PublishedSize());
  }

  lemma FileIsValid(ds: Data, i: nat)
    requires ds.WellFormed() && i < ds.limit
    ensures AllValid(FileRecords(ds, i), ds.hashSize)
  {
    FileRecordsLength(ds, i);
    forall k | 0 <= k < |FileRecords(ds, i)| ensures ValidPw(FileRecords(ds, i)[k], ds.hashSize) {
      RecordFacts(ds, i, k);
    }
  }

  lemma {:induction false} AllAreValid(ds: Data, a: nat, b: nat)
    requires ds.WellFormed() && a <= b <= ds.limit
    ensures AllValid(AllRecords(ds, a, b), ds.hashSize)
  {
    if a < b {
      AllAreValid(ds, a, b - 1);
      FileIsValid(ds, b - 1);
    }
  }

  lemma {:induction false} AllRecordsSplit(ds: Data, a: nat, b: nat, c: nat)
    requires a <= b <= c
    ensures AllRecords(ds, a, c) == AllRecords(ds, a, b) + AllRecords(ds, b, c)
  {
    hide FileRecords;
    if b < c {
      AllRecordsSplit(ds, a, b, c - 1);
      assert AllRecords(ds, a, b) + AllRecords(ds, b, c)
          == (AllRecords(ds, a, b) + AllRecords(ds, b, c - 1)) + FileRecords(ds, c - 1);
    }
  }

  lemma ConvertAllAppend(a: seq<string>, b: seq<string>, hashSize: nat)
    ensures ConvertAll(a + b, hashSize) == ConvertAll(a, hashSize) + ConvertAll(b, hashSize)
  {
  }

  /** What the protocol hands to the writer, converted, is the records in file order. */
  lemma {:induction false} OutputIsAllRecords(ds: Data, a: nat, b: nat)
    requires ds.WellFormed() && a <= b <= ds.limit
    ensures ConvertAll(OutputLines(ds.Server(), a, b), ds.hashSize) == AllRecords(ds, a, b)
  {
    if a < b {
      OutputIsAllRecords(ds, a, b - 1);
      var i := b - 1;
      FileLinesOfBody(HexPrefix(i), ds.source.entries(i), ds.PublishedSize(), ds.source.crlf, ds.source.trailing);
      assert FileLines(HexPrefix(i), ds.Server()(i)) == FullLines(HexPrefix(i), ds.source.entries(i));
      ConvertAllAppend(OutputLines(ds.Server(), a, i), FileLines(HexPrefix(i), ds.Server()(i)), ds.hashSize);
    }
  }

  // ---------- the output is in order ----------

  lemma TextOrder(a: Pw, b: Pw)
    requires |a.hash| == |b.hash| && LexLess(CharLess(), HashText(a.hash), HashText(b.hash))
    ensures PwLess()(a, b)
  {
    HexOrder(a.hash, b.hash);
  }

  lemma RecordsInOrder(ds: Data, i: nat, j: nat, m: nat, k: nat)
    requires ds.WellFormed() && ds.Ascending() && i <= m < ds.limit
    requires j < |FileRecords(ds, i)| && k < |FileRecords(ds, m)| && (i == m ==> j < k)
    ensures PwLess()(FileRecords(ds, i)[j], FileRecords(ds, m)[k])
  {
    hide HashText, HexPrefix, Kept;
    FileRecordsLength(ds, i);
    FileRecordsLength(ds, m);
    RecordFacts(ds, i, j);
    RecordFacts(ds, m, k);
    CharOrder();
    PrefixFacts(i, m);
    PrefixFacts(m, m);
    var x, y := Kept(ds.source.entries(i)[j], ds.SuffixSize()), Kept(ds.source.entries(m)[k], ds.SuffixSize());
    if i == m {
      LexSamePrefix(CharLess(), HexPrefix(i), x, y);
    } else {
      LexByPrefix(CharLess(), HexPrefix(i), HexPrefix(m), x, y);
    }
    TextOrder(FileRecords(ds, i)[j], FileRecords(ds, m)[k]);
  }

  /** Every record lies in some file. */
  lemma {:induction false} LocateRecord(ds: Data, b: nat, x: nat) returns (i: nat, j: nat)
    requires x < |AllRecords(ds, 0, b)|
    ensures i < b && j < |FileRecords(ds, i)| && x == |AllRecords(ds, 0, i)| + j
    ensures AllRecords(ds, 0, b)[x] == FileRecords(ds, i)[j]
  {
    if x < |AllRecords(ds, 0, b - 1)| {
      i, j := LocateRecord(ds, b - 1, x);
    } else {
      i, j := b - 1, x - |AllRecords(ds, 0, b - 1)|;
    }
  }

  /** Downloading files in ascending order gives a database in strictly ascending order. */
  lemma {:induction false} DownloadIsSorted(ds: Data, b: nat)
    requires ds.WellFormed() && ds.Ascending() && b <= ds.limit
    ensures StrictlyAscending(AllRecords(ds, 0, b))
  {
    if b > 0 {
      hide FileRecords, PwLess;
      DownloadIsSorted(ds, b - 1);
      var before, file := AllRecords(ds, 0, b - 1), FileRecords(ds, b - 1);
      forall x, y | 0 <= x < |before| && 0 <= y < |file| ensures PwLess()(before[x], file[y]) {
        var i, j := LocateRecord(ds, b - 1, x);
        RecordsInOrder(ds, i, j, b - 1, y);
      }
      forall x, y | 0 <= x < y < |file| ensures PwLess()(file[x], file[y]) {
        RecordsInOrder(ds, b - 1, x, b - 1, y);
      }
      AppendAscending(before, file);
    }
  }

  lemma AppendAscending(a: seq<Pw>, b: seq<Pw>)
    requires StrictlyAscending(a) && StrictlyAscending(b)
    requires forall x, y :: 0 <= x < |a| && 0 <= y < |b| ==> PwLess()(a[x], b[y])
    ensures StrictlyAscending(a + b)
  {
  }
}
