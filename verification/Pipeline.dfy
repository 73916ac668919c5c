/** From the protocol to the file on disk: any number of aborted or killed downloads, each resumed by the next. */
module Pipeline {
  import opened Wrappers
  import opened Arithmetic
  import opened Orders
  import opened Bytes
  import opened Codec
  import opened Lines
  import opened Protocol
  import opened Runs
  import opened RecordBytes
  import opened Dataset
  import opened Resume
  import opened Recovery
  import Toc

  /** One run of the downloader: its option, the protocol steps it got to take, and how many bytes of its output had
      reached the disk when it ended (the rest was in the writer's buffer, or the run ended normally). */
  datatype Attempt = Attempt(parallelMax: nat, evs: seq<Event>, reached: nat)

  ghost function ConfigOf(ds: Data, start: nat, parallelMax: nat): Config {
    Config(start, ds.limit, parallelMax, ds.Server())
  }

  /** The bytes of everything the writer was called with. */
  ghost function Output(ds: Data, s: State): seq<Byte> { EncodeAll(ConvertAll(s.written, ds.hashSize)) }

  /** The file after an attempt that started with `kept` and file number `start`; none if it is not a possible run. */
  ghost function AfterAttempt(ds: Data, start: nat, kept: seq<Byte>, att: Attempt): Option<seq<Byte>> {
    match After(ConfigOf(ds, start, att.parallelMax), att.evs)
    case None => None
    case Some(s) => if att.reached <= |Output(ds, s)| then Some(kept + Output(ds, s)[..att.reached]) else None
  }

  /** get_start_index with --resume; none where the program refuses. */
  ghost function Continue(ds: Data, fetch: string -> string, file: seq<Byte>): Option<(nat, seq<Byte>)>
    requires ds.hashSize >= 3
  {
    var (r, kept) := GetLastPrefixSpec(file, ds.hashSize, fetch);
    if r.Err? || ds.limit <= StartIndex(r.value) then None else Some((StartIndex(r.value), kept))
  }

  /** Where the last of several attempts begins: the first from scratch, the others where `--resume` puts them. */
  ghost function Beginning(ds: Data, fetch: string -> string, atts: seq<Attempt>): Option<(nat, seq<Byte>)>
    requires ds.hashSize >= 3 && atts != []
    decreases |atts|, 0
  {
    if |atts| == 1 then Some((0, []))
    else
      match FileAfter(ds, fetch, atts[..|atts| - 1])
      case None => None
      case Some(file) => Continue(ds, fetch, file)
  }

  /** The file after them; none if they are not possible runs. */
  ghost function FileAfter(ds: Data, fetch: string -> string, atts: seq<Attempt>): Option<seq<Byte>>
    requires ds.hashSize >= 3 && atts != []
    decreases |atts|, 1
  {
    match Beginning(ds, fetch, atts)
    case None => None
    case Some((start, kept)) => AfterAttempt(ds, start, kept, atts[|atts| - 1])
  }

  /** Whatever a run has written is a beginning of what it would write in the end. */
  lemma OutputIsABeginning(ds: Data, start: nat, parallelMax: nat, evs: seq<Event>)
    requires ds.WellFormed() && start <= ds.limit && After(ConfigOf(ds, start, parallelMax), evs).Some?
    ensures Output(ds, After(ConfigOf(ds, start, parallelMax), evs).value) <= EncodeAll(AllRecords(ds, start, ds.limit))
    ensures NormalExit(After(ConfigOf(ds, start, parallelMax), evs).value) && parallelMax > 0 ==>
              Output(ds, After(ConfigOf(ds, start, parallelMax), evs).value)
                == EncodeAll(AllRecords(ds, start, ds.limit))
  {
    hide EncodeAll, OutputLines, After, AllRecords;
    var cfg := ConfigOf(ds, start, parallelMax);
    var s := After(cfg, evs).value;
    var lines, records := OutputLines(ds.Server(), start, ds.limit), AllRecords(ds, start, ds.limit);
    WrittenInOrder(cfg, evs);
    OutputIsAllRecords(ds, start, ds.limit);
    assert ConvertAll(s.written, ds.hashSize) == records[..|s.written|];
    AllAreValid(ds, start, ds.limit);
    EncodeAllTake(records, ds.hashSize, |s.written|);
    if NormalExit(s) && parallelMax > 0 { NormalExitComplete(cfg, evs); }
  }

  lemma AttemptExtends(ds: Data, start: nat, kept: seq<Byte>, att: Attempt)
    requires ds.WellFormed() && Exact(ds, start, kept) && AfterAttempt(ds, start, kept, att).Some?
    ensures AfterAttempt(ds, start, kept, att).value <= FullFile(ds)
  {
    hide FullFile, EncodeAll, After, Output;
    OutputIsABeginning(ds, start, att.parallelMax, att.evs);
    var rest := EncodeAll(AllRecords(ds, start, ds.limit));
    var out := Output(ds, After(ConfigOf(ds, start, att.parallelMax), att.evs).value);
    assert out[..att.reached] == rest[..att.reached];
    assert kept + rest == FullFile(ds);
  }

  lemma StartsExact(ds: Data)
    ensures Exact(ds, 0, [])
  {
  }

  lemma TooShortToResume(ds: Data, fetch: string -> string, file: seq<Byte>)
    requires ds.hashSize >= 3 && |file| < RecordSize(ds.hashSize)
    ensures GetLastPrefixSpec(file, ds.hashSize, fetch).0 == Err(EmptyDb)
  {
    TrimmedIs(file, ds.hashSize);
    ModIs(|file|, RecordSize(ds.hashSize), 0, |file|);
    assert Trimmed(file, ds.hashSize) == [];
  }

  /** Resuming from any beginning of the complete file goes on exactly where it should. */
  lemma ContinueIsExact(ds: Data, fetch: string -> string, file: seq<Byte>)
    requires ds.WellFormed() && Serves(ds, fetch) && TestIsRight(ds) && file <= FullFile(ds)
    ensures Continue(ds, fetch, file).Some? ==>
              var (start, kept) := Continue(ds, fetch, file).value;
              start < ds.limit && kept <= file && Exact(ds, start, kept)
    ensures |file| >= RecordSize(ds.hashSize) && Continue(ds, fetch, file).None? ==>
              GetLastPrefixSpec(file, ds.hashSize, fetch).1 == FullFile(ds)
    ensures |file| < RecordSize(ds.hashSize) ==> Continue(ds, fetch, file).None?
  {
    hide GetLastPrefixSpec, FullFile, RecordSize;
    if |file| < RecordSize(ds.hashSize) {
      TooShortToResume(ds, fetch, file);
    } else {
      assert FullFile(ds)[..|file|] == file;
      ResumeExact(ds, fetch, |file|);
      KeptFromTheFront(file, ds.hashSize, fetch);
      NothingLeft(ds);
    }
  }

  lemma NothingLeft(ds: Data)
    ensures forall bytes :: Exact(ds, ds.limit, bytes) ==> bytes == FullFile(ds)
  {
  }

  /** However often a download is aborted or killed and resumed, the file is a beginning of the complete one; no
      record is lost, doubled or out of place. For sha1 and ntlm `TestIsRight` always holds. */
  lemma {:induction false} AlwaysABeginning(ds: Data, fetch: string -> string, atts: seq<Attempt>)
    requires ds.WellFormed() && Serves(ds, fetch) && TestIsRight(ds)
    requires atts != [] && FileAfter(ds, fetch, atts).Some?
    ensures FileAfter(ds, fetch, atts).value <= FullFile(ds)
    ensures Exact(ds, Beginning(ds, fetch, atts).value.0, Beginning(ds, fetch, atts).value.1)
  {
    hide FullFile, AfterAttempt, Continue, Exact, TestIsRight;
    if |atts| == 1 {
      StartsExact(ds);
    } else {
      AlwaysABeginning(ds, fetch, atts[..|atts| - 1]);
      ContinueIsExact(ds, fetch, FileAfter(ds, fetch, atts[..|atts| - 1]).value);
    }
    var (start, kept) := Beginning(ds, fetch, atts).value;
    AttemptExtends(ds, start, kept, atts[|atts| - 1]);
  }

  /** If the last attempt ends normally, with everything flushed, the file is the uninterrupted one. */
  lemma CompleteInTheEnd(ds: Data, fetch: string -> string, atts: seq<Attempt>)
    requires ds.WellFormed() && Serves(ds, fetch) && TestIsRight(ds)
    requires atts != [] && Beginning(ds, fetch, atts).Some?
    requires var att := atts[|atts| - 1];
             var r := After(ConfigOf(ds, Beginning(ds, fetch, atts).value.0, att.parallelMax), att.evs);
             r.Some? && NormalExit(r.value) && att.parallelMax > 0 && att.reached == |Output(ds, r.value)|
    ensures FileAfter(ds, fetch, atts) == Some(FullFile(ds))
  {
    hide FullFile, Output, Continue, NormalExit, After, TestIsRight;
    var att := atts[|atts| - 1];
    var (start, kept) := Beginning(ds, fetch, atts).value;
    var out := Output(ds, After(ConfigOf(ds, start, att.parallelMax), att.evs).value);
    assert out[..att.reached] == out;
    assert FileAfter(ds, fetch, atts) == Some(kept + out);
    AlwaysABeginning(ds, fetch, atts);
    OutputIsABeginning(ds, start, att.parallelMax, att.evs);
  }

  lemma {:induction false} AllAscendingTake(rs: seq<Pw>, k: nat)
    requires StrictlyAscending(rs) && k <= |rs|
    ensures StrictlyAscending(rs[..k])
  {
  }

  lemma AscendingIsSorted(rs: seq<Pw>)
    requires StrictlyAscending(rs)
    ensures SortedBy(PwLess(), rs)
  {
    forall i, j | 0 <= i < j < |rs| ensures !PwLess()(rs[j], rs[i]) {
      assert PwLess()(rs[i], rs[j]);
      LexTrichotomy<Byte>(ByteLess(), rs[i].hash, rs[j].hash);
    }
  }

  /** What is on disk at any time, trimmed to whole records, is a sorted database: searching it, with or without a
      table of contents, and comparing it with a later one are meaningful. */
  lemma FileIsSearchable(ds: Data, fetch: string -> string, atts: seq<Attempt>)
    requires ds.WellFormed() && ds.Ascending() && Serves(ds, fetch) && TestIsRight(ds)
    requires atts != [] && FileAfter(ds, fetch, atts).Some?
    ensures var db := DecodeAll(Trimmed(FileAfter(ds, fetch, atts).value, ds.hashSize), ds.hashSize);
            StrictlyAscending(db) && Toc.SortedDb(db, ds.hashSize)
  {
    hide FileAfter, FullFile, Trimmed, DecodeAll, StrictlyAscending, AllRecords;
    AlwaysABeginning(ds, fetch, atts);
    var k := WholeRecords(ds, FileAfter(ds, fetch, atts).value);
    var all := AllRecords(ds, 0, ds.limit);
    DownloadIsSorted(ds, ds.limit);
    AllAscendingTake(all, k);
    AscendingIsSorted(all[..k]);
    AllAreValid(ds, 0, ds.limit);
  }

  lemma WholeRecords(ds: Data, file: seq<Byte>) returns (k: nat)
    requires ds.WellFormed() && file <= FullFile(ds)
    ensures k <= |AllRecords(ds, 0, ds.limit)|
    ensures DecodeAll(Trimmed(file, ds.hashSize), ds.hashSize) == AllRecords(ds, 0, ds.limit)[..k]
  {
    hide EncodeAll, DecodeAll, Trimmed, AllRecords;
    var all := AllRecords(ds, 0, ds.limit);
    AllAreValid(ds, 0, ds.limit);
    CutAndTrim(all, ds.hashSize, |file|);
    k := |file| / RecordSize(ds.hashSize);
    TrimmedIs(file, ds.hashSize);
    var m := |file| - |file| % RecordSize(ds.hashSize);
    assert file[..m] == FullFile(ds)[..m];
    ValidTake(all, ds.hashSize, k);
    DecodeEncodeAll(all[..k], ds.hashSize);
  }

  /** Searching a database of which no hash occurs twice finds each of its records. */
  lemma SearchFindsRecord(db: seq<Pw>, hashSize: nat, x: nat, needle: Pw)
    requires StrictlyAscending(db) && Toc.SortedDb(db, hashSize) && x < |db| && SameHash(db[x], needle)
    ensures Toc.SearchSpec(db, needle) == Some(db[x])
  {
    hide Toc.FirstNotLess;
    forall j | 0 <= j < x ensures !SameHash(db[j], needle) {
      LexTrichotomy<Byte>(ByteLess(), db[j].hash, db[x].hash);
    }
    Toc.SearchFinds(db, hashSize, needle);
  }

  /** From the published files to the answer of a search: in the complete file every published hash is found, with the
      published count. */
  lemma PublishedCountIsFound(ds: Data, i: nat, k: nat, needle: Pw)
    requires ds.WellFormed() && ds.Ascending() && i < ds.limit && k < |ds.source.entries(i)|
    requires HashText(needle.hash) == HexPrefix(i) + Kept(ds.source.entries(i)[k], ds.SuffixSize())
    ensures |FullFile(ds)| % RecordSize(ds.hashSize) == 0
    ensures Toc.SearchSpec(DecodeAll(FullFile(ds), ds.hashSize), needle)
         == Some(Pw(needle.hash, ds.source.entries(i)[k].count))
  {
    hide EncodeAll, DecodeAll, AllRecords, FileRecords, StrictlyAscending, HexPrefix, HashText, Toc.SearchSpec;
    var all := AllRecords(ds, 0, ds.limit);
    AllAreValid(ds, 0, ds.limit);
    DecodeEncodeAll(all, ds.hashSize);
    DownloadIsSorted(ds, ds.limit);
    AscendingIsSorted(all);
    RecordFacts(ds, i, k);
    SameText(FileRecords(ds, i)[k].hash, needle.hash);
    TakeRecords(ds, |AllRecords(ds, 0, i)| + k + 1, i, k);
    var x := |AllRecords(ds, 0, i)| + k;
    assert all[x] == all[..x + 1][x] == FileRecords(ds, i)[k];
    SearchFindsRecord(all, ds.hashSize, x, needle);
  }

  /** Hashes are determined by their text. */
  lemma SameText(a: seq<Byte>, b: seq<Byte>)
    requires HashText(a) == HashText(b)
    ensures a == b
  {
    hide HashText, ParseHash;
    HashTextShape(a);
    HashTextShape(b);
    ParseHashText(a, "");
    ParseHashText(b, "");
  }
}
