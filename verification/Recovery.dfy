/** Crash recovery: what `--resume` makes of a download cut off at any byte. */
module Recovery {
  import opened Wrappers
  import opened Arithmetic
  import opened Bytes
  import opened Codec
  import opened Lines
  import opened Bodies
  import opened RecordBytes
  import opened Dataset
  import opened Resume

  /** The server answers for every file as it did during the download. */
  ghost predicate Serves(ds: Data, fetch: string -> string) {
    forall i :: 0 <= i < ds.limit ==> fetch(HexPrefix(i)) == ds.source.Body(i)
  }

  /** The complete database file. */
  ghost function FullFile(ds: Data): seq<Byte> { EncodeAll(AllRecords(ds, 0, ds.limit)) }

  /** compute_start_index. */
  ghost function StartIndex(lastPrefix: nat): nat { (lastPrefix + 1) % SIZE_T }

  /** The completeness test on the record of entry `j` of file `i`: the characters before the last colon of the file
      against the record's own suffix. For sha1t64 these are the last 11 of 35 characters against the first 11. */
  ghost predicate LooksComplete(ds: Data, i: nat, j: nat)
    requires ds.WellFormed() && i < ds.limit && j < |ds.source.entries(i)|
  {
    var es := ds.source.entries(i);
    es[|es| - 1].suffix[ds.PublishedSize() - ds.SuffixSize()..] == Kept(es[j], ds.SuffixSize())
  }

  /** The first `k` records end with record `j` of file `i`. */
  ghost predicate EndsIn(ds: Data, k: nat, i: nat, j: nat) {
    i < ds.limit && j < |ds.source.entries(i)| && k == |AllRecords(ds, 0, i)| + j + 1
  }

  lemma TakeRecords(ds: Data, k: nat, i: nat, j: nat)
    requires ds.WellFormed() && EndsIn(ds, k, i, j)
    ensures k <= |AllRecords(ds, 0, ds.limit)| && j < |FileRecords(ds, i)|
    ensures AllRecords(ds, 0, ds.limit)[..k] == AllRecords(ds, 0, i) + FileRecords(ds, i)[..j + 1]
  {
    hide FileRecords;
    FileRecordsLength(ds, i);
    AllRecordsSplit(ds, 0, i + 1, ds.limit);
    assert AllRecords(ds, 0, i + 1) == AllRecords(ds, 0, i) + FileRecords(ds, i);
  }

  lemma {:induction false} LastWithHashIs(db: seq<Pw>, hash: seq<Byte>, p: nat)
    requires p < |db| && db[p].hash == hash && forall q :: p < q < |db| ==> db[q].hash != hash
    ensures LastWithHash(db, hash) == Some(p)
  {
    if p < |db| - 1 { LastWithHashIs(db[..|db| - 1], hash, p); }
  }

  /** A file's first record is found where the file begins. */
  lemma FirstRecordFound(ds: Data, i: nat, j: nat)
    requires ds.WellFormed() && i < ds.limit && j < |ds.source.entries(i)| && j < |FileRecords(ds, i)|
    ensures LastWithHash(AllRecords(ds, 0, i) + FileRecords(ds, i)[..j + 1], FileRecords(ds, i)[0].hash)
         == Some(|AllRecords(ds, 0, i)|)
  {
    hide FileRecords, HashText, HexPrefix, Kept;
    var before, file, es := AllRecords(ds, 0, i), FileRecords(ds, i), ds.source.entries(i);
    var db := before + file[..j + 1];
    forall q | |before| < q < |db| ensures db[q].hash != file[0].hash {
      var m := q - |before|;
      assert db[q] == file[m];
      RecordFacts(ds, i, 0);
      RecordFacts(ds, i, m);
      var x, y := Kept(es[0], ds.SuffixSize()), Kept(es[m], ds.SuffixSize());
      assert x != y;
      assert (HexPrefix(i) + x)[|HexPrefix(i)|..] == x && (HexPrefix(i) + y)[|HexPrefix(i)|..] == y;
    }
    LastWithHashIs(db, file[0].hash, |before|);
  }

  /** The same frame, seen through fewer characters. */
  lemma CloserFrame(body: string, p: nat, first: string, last: string, size: nat)
    requires Framed(body, p, first, last) && size <= |last|
    ensures FindLastOf(body, ':') == Some(p)
    ensures size <= p && body[p - size..p] == last[|last| - size..] && body[..size] == first[..size]
  {
    assert body[p - size..p] == body[p - |last|..p][|last| - size..];
    assert body[..size] == body[..|first|][..size];
  }

  lemma FileSizes(ds: Data, i: nat, j: nat)
    requires ds.WellFormed() && i < ds.limit && j < |ds.source.entries(i)|
    ensures ValidFile(ds.source.entries(i), ds.PublishedSize())
    ensures var es := ds.source.entries(i); |es[j].suffix| == |es[|es| - 1].suffix| == ds.PublishedSize()
  {
  }

  lemma KeptTexts(ds: Data, i: nat, j: nat)
    requires ds.WellFormed() && i < ds.limit && j < |ds.source.entries(i)|
    ensures var es, size := ds.source.entries(i), ds.SuffixSize();
      && size <= |es[0].suffix| && size <= |es[|es| - 1].suffix| && es[0].suffix[..size] == Kept(es[0], size)
      && (es[|es| - 1].suffix[|es[|es| - 1].suffix| - size..] == Kept(es[j], size) <==> LooksComplete(ds, i, j))
  {
    FileSizes(ds, i, j);
    FileSizes(ds, i, 0);
    hide ValidFile, Distinct;
  }

  /** The texts the decision compares. */
  lemma LastFile(ds: Data, fetch: string -> string, i: nat, j: nat) returns (p: nat)
    requires ds.WellFormed() && Serves(ds, fetch) && i < ds.limit && j < |ds.source.entries(i)|
    ensures var body, size := fetch(HexPrefix(i)), ds.SuffixSize();
      && FindLastOf(body, ':') == Some(p) && size <= p
      && (body[p - size..p] == Kept(ds.source.entries(i)[j], size) <==> LooksComplete(ds, i, j))
      && body[..size] == Kept(ds.source.entries(i)[0], size)
  {
    var es, size := ds.source.entries(i), ds.SuffixSize();
    assert fetch(HexPrefix(i)) == ds.source.Body(i);
    hide FindLastOf, ValidFile, Distinct, Framed, Kept, LooksComplete, Serves;
    KeptTexts(ds, i, j);
    p := BodyFramed(ds, i);
    CloserFrame(ds.source.Body(i), p, es[0].suffix, es[|es| - 1].suffix, size);
  }

  lemma BodyFramed(ds: Data, i: nat) returns (p: nat)
    requires ds.WellFormed() && i < ds.limit && ds.source.entries(i) != []
    ensures var es := ds.source.entries(i); Framed(ds.source.Body(i), p, es[0].suffix, es[|es| - 1].suffix)
  {
    hide FindLastOf, JoinLines, LineOf, ValidFile, Distinct, Framed;
    var eol := ds.source.Eol();
    p := BodyEnds(ds.source.entries(i), ds.PublishedSize(), eol, if ds.source.trailing then eol else "");
  }

  lemma Decided(ds: Data, fetch: string -> string, i: nat, j: nat)
    requires ds.WellFormed() && Serves(ds, fetch) && i < ds.limit && j < |ds.source.entries(i)|
    requires j < |FileRecords(ds, i)|
    requires AllValid(AllRecords(ds, 0, i) + FileRecords(ds, i)[..j + 1], ds.hashSize)
    ensures Decide(AllRecords(ds, 0, i) + FileRecords(ds, i)[..j + 1], ds.hashSize, fetch)
         == if LooksComplete(ds, i, j) then (Ok(i), None) else (Ok((i - 1) % SIZE_T), Some(|AllRecords(ds, 0, i)|))
  {
    hide FileRecords, HashText, HexPrefix, Kept, FindLastOf, LastWithHash, LooksComplete, FromHex, Decide,
         AllRecords, AllValid, UpperHexText, Distinct, ValidFile;
    var before, file, es := AllRecords(ds, 0, i), FileRecords(ds, i), ds.source.entries(i);
    var db, size := before + file[..j + 1], ds.SuffixSize();
    assert db[|db| - 1] == file[j];
    RecordFacts(ds, i, j);
    RecordFacts(ds, i, 0);
    PrefixFacts(i, i);
    var p := LastFile(ds, fetch, i, j);
    FirstRecordFound(ds, i, j);
    DecisionIs(db, ds.hashSize, fetch, HexPrefix(i), Kept(es[j], size), p, file[0].hash, |before|);
  }

  /** The decision, from what is known of the last record, of the file and of its first record. */
  lemma DecisionIs(db: seq<Pw>, hashSize: nat, fetch: string -> string, prefix: string, suffix: string, p: nat,
      firstHash: seq<Byte>, k: nat)
    requires hashSize >= 3 && AllValid(db, hashSize) && db != []
    requires |prefix| == PREFIX_STR_SIZE && UpperHexText(prefix)
    requires HashText(db[|db| - 1].hash) == prefix + suffix && |firstHash| == hashSize
    requires FindLastOf(fetch(prefix), ':') == Some(p) && SuffixStrSize(hashSize) <= p
    requires HashText(firstHash) == prefix + fetch(prefix)[..SuffixStrSize(hashSize)]
    requires LastWithHash(db, firstHash) == Some(k)
    ensures Decide(db, hashSize, fetch)
         == if fetch(prefix)[p - SuffixStrSize(hashSize)..p] == suffix then (Ok(FromHex(prefix)), None)
            else (Ok((FromHex(prefix) - 1) % SIZE_T), Some(k))
  {
    hide HashText, FindLastOf, LastWithHash, FromHex, ParseHash, AllValid, UpperHexText, HexText;
    HashTextShape(db[|db| - 1].hash);
    assert (prefix + suffix)[..PREFIX_STR_SIZE] == prefix && (prefix + suffix)[PREFIX_STR_SIZE..] == suffix;
    ParseHashText(firstHash, "");
    assert HashText(firstHash) + "" == HashText(firstHash);
  }

  /** The number of whole records on disk after a cut, and where they end. */
  lemma WhereCut(ds: Data, cut: nat) returns (i: nat, j: nat)
    requires ds.WellFormed() && RecordSize(ds.hashSize) <= cut <= |FullFile(ds)|
    ensures EndsIn(ds, cut / RecordSize(ds.hashSize), i, j) && j < |FileRecords(ds, i)|
    ensures Trimmed(FullFile(ds)[..cut], ds.hashSize) == EncodeAll(AllRecords(ds, 0, i) + FileRecords(ds, i)[..j + 1])
  {
    hide FileRecords, EncodeAll, Trimmed;
    var all, size := AllRecords(ds, 0, ds.limit), RecordSize(ds.hashSize);
    AllAreValid(ds, 0, ds.limit);
    CutAndTrim(all, ds.hashSize, cut);
    var k := cut / size;
    Divided(cut, size, 0);
    i, j := LocateRecord(ds, ds.limit, k - 1);
    FileRecordsLength(ds, i);
    TakeRecords(ds, k, i, j);
    TrimmedIs(FullFile(ds)[..cut], ds.hashSize);
    assert FullFile(ds)[..cut][..cut - cut % size] == FullFile(ds)[..cut - cut % size];
  }

  /** What get_last_prefix returns and leaves behind, for a download cut at any byte after its first record. */
  lemma ResumeOutcome(ds: Data, fetch: string -> string, cut: nat) returns (i: nat, j: nat)
    requires ds.WellFormed() && Serves(ds, fetch) && RecordSize(ds.hashSize) <= cut <= |FullFile(ds)|
    ensures EndsIn(ds, cut / RecordSize(ds.hashSize), i, j) && j < |FileRecords(ds, i)|
    ensures GetLastPrefixSpec(FullFile(ds)[..cut], ds.hashSize, fetch)
         == if LooksComplete(ds, i, j) then (Ok(i), EncodeAll(AllRecords(ds, 0, i) + FileRecords(ds, i)[..j + 1]))
            else (Ok((i - 1) % SIZE_T), EncodeAll(AllRecords(ds, 0, i)))
  {
    hide FileRecords, EncodeAll, Trimmed, Decide, LooksComplete, DecodeAll, AllValid, AllRecords;
    i, j := WhereCut(ds, cut);
    TakeRecords(ds, cut / RecordSize(ds.hashSize), i, j);
    var before, db := AllRecords(ds, 0, i), AllRecords(ds, 0, i) + FileRecords(ds, i)[..j + 1];
    AllAreValid(ds, 0, ds.limit);
    ValidTake(AllRecords(ds, 0, ds.limit), ds.hashSize, |db|);
    DecodeEncodeAll(db, ds.hashSize);
    Decided(ds, fetch, i, j);
    EncodeAllTake(db, ds.hashSize, |before|);
    assert db[..|before|] == before;
  }

  lemma ValidTake(rs: seq<Pw>, hashSize: nat, k: nat)
    requires AllValid(rs, hashSize) && k <= |rs|
    ensures AllValid(rs[..k], hashSize)
  {
  }

  /** Resuming gives the uninterrupted file. */
  ghost predicate Exact(ds: Data, start: nat, bytes: seq<Byte>) {
    start <= ds.limit && bytes + EncodeAll(AllRecords(ds, start, ds.limit)) == FullFile(ds)
  }

  lemma ExactFrom(ds: Data, i: nat)
    requires i <= ds.limit
    ensures Exact(ds, i, EncodeAll(AllRecords(ds, 0, i)))
  {
    AllRecordsSplit(ds, 0, i, ds.limit);
    EncodeAllAppend(AllRecords(ds, 0, i), AllRecords(ds, i, ds.limit));
  }

  /** Going on behind a file of which records are missing loses them. */
  lemma NotExactWithGap(ds: Data, i: nat, j: nat)
    requires ds.WellFormed() && i < ds.limit && j + 1 < |ds.source.entries(i)| == |FileRecords(ds, i)|
    ensures !Exact(ds, i + 1, EncodeAll(AllRecords(ds, 0, i) + FileRecords(ds, i)[..j + 1]))
  {
    hide FileRecords, EncodeAll;
    var have, file := AllRecords(ds, 0, i) + FileRecords(ds, i)[..j + 1], FileRecords(ds, i);
    var rest := AllRecords(ds, i + 1, ds.limit);
    AllRecordsSplit(ds, 0, i + 1, ds.limit);
    var all := AllRecords(ds, 0, ds.limit);
    AllAreValid(ds, 0, ds.limit);
    AllAreValid(ds, i + 1, ds.limit);
    assert have == all[..|have|];
    EncodeAllLength(all, ds.hashSize);
    EncodeAllLength(have, ds.hashSize);
    EncodeAllLength(rest, ds.hashSize);
    Shorter(|have|, |rest|, |all|, RecordSize(ds.hashSize));
  }

  lemma Shorter(a: nat, b: nat, c: nat, size: nat)
    requires a + b < c && size > 0
    ensures a * size + b * size < c * size
  {
  }

  /** For every cut and all three record types: resuming is exact if and only if the completeness test, where it
      passes, is right. */
  lemma ResumeExactIff(ds: Data, fetch: string -> string, cut: nat) returns (i: nat, j: nat)
    requires ds.WellFormed() && Serves(ds, fetch) && RecordSize(ds.hashSize) <= cut <= |FullFile(ds)|
    ensures EndsIn(ds, cut / RecordSize(ds.hashSize), i, j)
    ensures GetLastPrefixSpec(FullFile(ds)[..cut], ds.hashSize, fetch).0.Ok?
    ensures var (r, bytes) := GetLastPrefixSpec(FullFile(ds)[..cut], ds.hashSize, fetch);
      Exact(ds, StartIndex(r.value), bytes) <==> (LooksComplete(ds, i, j) ==> j == |ds.source.entries(i)| - 1)
  {
    hide FileRecords, EncodeAll, GetLastPrefixSpec, LooksComplete, Exact;
    i, j := ResumeOutcome(ds, fetch, cut);
    FileRecordsLength(ds, i);
    if !LooksComplete(ds, i, j) {
      assert StartIndex((i - 1) % SIZE_T) == i;
      ExactFrom(ds, i);
    } else if j == |ds.source.entries(i)| - 1 {
      assert FileRecords(ds, i)[..j + 1] == FileRecords(ds, i);
      assert AllRecords(ds, 0, i + 1) == AllRecords(ds, 0, i) + FileRecords(ds, i);
      ExactFrom(ds, i + 1);
    } else {
      NotExactWithGap(ds, i, j);
    }
  }

  /** Wherever the completeness test passes, the file is complete. */
  ghost predicate TestIsRight(ds: Data)
    requires ds.WellFormed()
  {
    forall i, j :: 0 <= i < ds.limit && 0 <= j < |ds.source.entries(i)| && LooksComplete(ds, i, j) ==>
      j == |ds.source.entries(i)| - 1
  }

  /** sha1 and ntlm records keep the whole published suffix, so the test is right. */
  lemma WholeSuffixIsRight(ds: Data)
    requires ds.WellFormed() && (ds.hashSize == 16 || ds.hashSize == 20)
    ensures TestIsRight(ds)
  {
    forall i, j | 0 <= i < ds.limit && 0 <= j < |ds.source.entries(i)| && LooksComplete(ds, i, j)
      ensures j == |ds.source.entries(i)| - 1
    {
      var es := ds.source.entries(i);
      assert ValidEntry(es[j], ds.PublishedSize()) && ValidEntry(es[|es| - 1], ds.PublishedSize());
      assert es[|es| - 1].suffix[0..] == es[|es| - 1].suffix;
    }
  }

  /** Resuming a file of which only the first `cut` bytes are left succeeds and gives the uninterrupted file. */
  ghost predicate ResumesExactly(ds: Data, fetch: string -> string, cut: nat)
    requires ds.hashSize >= 3
  {
    cut <= |FullFile(ds)| ==>
      var (r, bytes) := GetLastPrefixSpec(FullFile(ds)[..cut], ds.hashSize, fetch);
      r.Ok? && Exact(ds, StartIndex(r.value), bytes)
  }

  lemma ResumeExact(ds: Data, fetch: string -> string, cut: nat)
    requires ds.WellFormed() && Serves(ds, fetch) && RecordSize(ds.hashSize) <= cut
    requires TestIsRight(ds)
    ensures ResumesExactly(ds, fetch, cut)
  {
    hide GetLastPrefixSpec, Exact, LooksComplete, FullFile;
    if cut <= |FullFile(ds)| { var i, j := ResumeExactIff(ds, fetch, cut); }
  }

  /** A record belongs to one file. */
  lemma OneFile(ds: Data, k: nat, i: nat, j: nat, i': nat, j': nat)
    requires ds.WellFormed() && EndsIn(ds, k, i, j) && EndsIn(ds, k, i', j')
    ensures i == i' && j == j'
  {
    hide FileRecords;
    if i < i' { RecordsBefore(ds, i, i'); } else if i' < i { RecordsBefore(ds, i', i); }
  }

  lemma RecordsBefore(ds: Data, i: nat, m: nat)
    requires ds.WellFormed() && i < m <= ds.limit
    ensures |AllRecords(ds, 0, i)| + |ds.source.entries(i)| <= |AllRecords(ds, 0, m)|
  {
    hide FileRecords;
    FileRecordsLength(ds, i);
    AllRecordsSplit(ds, 0, i + 1, m);
    assert AllRecords(ds, 0, i + 1) == AllRecords(ds, 0, i) + FileRecords(ds, i);
  }

  /** Resuming is exact after every possible cut if and only if the completeness test is right for the published
      files. */
  lemma AlwaysResumesExactlyIff(ds: Data, fetch: string -> string)
    requires ds.WellFormed() && Serves(ds, fetch)
    ensures TestIsRight(ds) <==> forall cut: nat :: RecordSize(ds.hashSize) <= cut ==> ResumesExactly(ds, fetch, cut)
  {
    hide LooksComplete, ResumesExactly;
    if TestIsRight(ds) {
      forall cut: nat | RecordSize(ds.hashSize) <= cut ensures ResumesExactly(ds, fetch, cut) {
        ResumeExact(ds, fetch, cut);
      }
    } else {
      var i, j :| 0 <= i < ds.limit && 0 <= j < |ds.source.entries(i)| && LooksComplete(ds, i, j)
        && j != |ds.source.entries(i)| - 1;
      FailingCut(ds, fetch, i, j);
    }
  }

  /** Where the test passes too early, the cut right there loses records. */
  lemma FailingCut(ds: Data, fetch: string -> string, i: nat, j: nat)
    requires ds.WellFormed() && Serves(ds, fetch)
    requires i < ds.limit && j < |ds.source.entries(i)| - 1 && LooksComplete(ds, i, j)
    ensures var cut := (|AllRecords(ds, 0, i)| + j + 1) * RecordSize(ds.hashSize);
      RecordSize(ds.hashSize) <= cut && !ResumesExactly(ds, fetch, cut)
  {
    hide FileRecords, EncodeAll, LooksComplete, Exact, GetLastPrefixSpec, AllRecords;
    var k, size := |AllRecords(ds, 0, i)| + j + 1, RecordSize(ds.hashSize);
    TakeRecords(ds, k, i, j);
    AllAreValid(ds, 0, ds.limit);
    EncodeAllTake(AllRecords(ds, 0, ds.limit), ds.hashSize, k);
    Multiples(k, size);
    var i', j' := ResumeExactIff(ds, fetch, k * size);
    OneFile(ds, k, i, j, i', j');
  }

  lemma Multiples(k: nat, size: nat)
    requires k > 0 && size > 0
    ensures size <= k * size && k * size / size == k
  {
    ModIs(k * size, size, k, 0);
  }

  /** Two entries whose texts make the sha1t64 test pass too early: the last 11 characters of the second suffix are the
      first 11 of the first. */
  function UnluckyFile(): seq<Entry> {
    [Entry(seq(35, _ => '0'), 1), Entry(seq(35, i => if i == 0 then 'F' else '0'), 1)] // 000...0:1 and F00...0:1
  }

  function UnluckyData(): Dataset.Data { Dataset.Data.Data(Source((i: nat) => UnluckyFile(), true, false), 8, 1) }

  /** This sha1t64 download, cut after its first record, resumes behind the second, which is lost. */
  lemma Sha1t64ResumeCanLoseRecords(fetch: string -> string)
    requires Serves(UnluckyData(), fetch)
    ensures UnluckyData().WellFormed() && !TestIsRight(UnluckyData())
    ensures !ResumesExactly(UnluckyData(), fetch, RecordSize(8))
  {
    var ds, es := UnluckyData(), UnluckyFile();
    UnluckyIsWellFormed();
    hide ResumesExactly, FullFile;
    assert es[1].suffix[24..] == Kept(es[0], 11);
    assert LooksComplete(ds, 0, 0);
    FailingCut(ds, fetch, 0, 0);
    assert |AllRecords(ds, 0, 0)| == 0;
  }

  lemma UnluckyIsWellFormed()
    ensures UnluckyData().WellFormed()
  {
    var es := UnluckyFile();
    assert Kept(es[0], 11)[0] == '0' && Kept(es[1], 11)[0] == 'F';
  }
}
