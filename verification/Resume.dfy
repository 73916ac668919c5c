/** src/dnl/resume.cpp: repairing a truncated download and finding where to go on. */
module Resume {
  import opened Wrappers
  import opened Arithmetic
  import opened Bytes
  import opened Codec
  import opened Bodies
  import opened RecordBytes

  datatype ResumeError = EmptyDb | CorruptLastFile | NotHexadecimal | NotFound
  datatype Result<T> = Ok(value: T) | Err(error: ResumeError)

  /** std::size_t arithmetic. */
  const SIZE_T := 0x1_0000_0000_0000_0000

  function FindLastOf(s: string, c: char): (r: Option<nat>)
    ensures r.Some? ==> r.value < |s| && s[r.value] == c
  {
    if s == "" then None else if s[|s| - 1] == c then Some(|s| - 1) else FindLastOf(s[..|s| - 1], c)
  }

  /** The last record with the given hash: what std::find on reverse iterators finds. */
  function LastWithHash(db: seq<Pw>, hash: seq<Byte>): (r: Option<nat>)
    ensures r.Some? ==> r.value < |db|
  {
    if db == [] then None else if db[|db| - 1].hash == hash then Some(|db| - 1) else LastWithHash(db[..|db| - 1], hash)
  }

  /** The file cut back to whole records. */
  function Trimmed(bytes: seq<Byte>, hashSize: nat): (r: seq<Byte>)
    ensures |r| % RecordSize(hashSize) == 0
  {
    Divided(|bytes|, RecordSize(hashSize), 0);
    ModIs(|bytes| - |bytes| % RecordSize(hashSize), RecordSize(hashSize), |bytes| / RecordSize(hashSize), 0);
    bytes[..|bytes| - |bytes| % RecordSize(hashSize)]
  }

  /** get_last_prefix after the tail has been trimmed: the returned prefix and where the file is cut, if it is. */
  ghost function Decide(db: seq<Pw>, hashSize: nat, fetch: string -> string): (Result<nat>, Option<nat>)
    requires hashSize >= 3 && AllValid(db, hashSize)
  {
    if db == [] then (Err(EmptyDb), None)
    else
      HashTextShape(db[|db| - 1].hash);
      var lastHash := HashText(db[|db| - 1].hash);
      var size := SuffixStrSize(hashSize);
      var prefix, suffix := lastHash[..PREFIX_STR_SIZE], lastHash[PREFIX_STR_SIZE..];
      var body := fetch(prefix);
      var colon := FindLastOf(body, ':');
      if colon.None? || colon.value < size then (Err(CorruptLastFile), None)
      else if body[colon.value - size..colon.value] == suffix then (Ok(FromHex(prefix)), None)
      else
        var first := prefix + body[..size];
        if !HexText(first, 2 * hashSize) then (Err(NotHexadecimal), None)
        else
          match LastWithHash(db, ParseHash(first, hashSize))
          case None => (Err(NotFound), None)
          case Some(j) => (Ok((FromHex(prefix) - 1) % SIZE_T), Some(j))
  }

  /** get_last_prefix: what is returned, and the file afterwards. */
  ghost function GetLastPrefixSpec(bytes: seq<Byte>, hashSize: nat, fetch: string -> string): (Result<nat>, seq<Byte>)
    requires hashSize >= 3
  {
    var whole := Trimmed(bytes, hashSize);
    DecodeAllValid(whole, hashSize);
    var (result, cut) := Decide(DecodeAll(whole, hashSize), hashSize, fetch);
    var size := RecordSize(hashSize);
    (result, match cut case None => whole case Some(j) => if j * size <= |whole| then whole[..j * size] else whole)
  }

  lemma DecodeFirst(bytes: seq<Byte>, hashSize: nat)
    requires |bytes| % RecordSize(hashSize) == 0 && bytes != []
    ensures var size := RecordSize(hashSize);
      && 4 <= size <= |bytes| && |bytes[size..]| % size == 0
      && DecodeAll(bytes, hashSize) == [Decode(bytes[..size])] + DecodeAll(bytes[size..], hashSize)
  {
    hide Decode;
    Divided(|bytes|, RecordSize(hashSize), 0);
    SubtractOne(|bytes|, RecordSize(hashSize));
  }

  lemma {:induction false} DecodeAllValid(bytes: seq<Byte>, hashSize: nat)
    requires |bytes| % RecordSize(hashSize) == 0
    ensures AllValid(DecodeAll(bytes, hashSize), hashSize)
    ensures |DecodeAll(bytes, hashSize)| * RecordSize(hashSize) == |bytes|
  {
    if bytes != [] {
      DecodeFirst(bytes, hashSize);
      var size: nat := RecordSize(hashSize);
      DecodeAllValid(bytes[size..], hashSize);
      DecodeValid(bytes[..size]);
      hide DecodeAll, Decode, ValidPw;
      OneMore(|DecodeAll(bytes[size..], hashSize)|, size, |bytes|);
    }
  }

  lemma OneMore(n: nat, size: nat, total: nat)
    requires n * size + size == total
    ensures (n + 1) * size == total
  {
  }

  lemma DecodeValid(b: seq<Byte>)
    requires |b| >= 4
    ensures ValidPw(Decode(b), |b| - 4)
  {
  }

  /** The database file. */
  class DbFile {
    var bytes: seq<Byte>

    /** get_last_prefix. */
    method GetLastPrefix(hashSize: nat, fetch: string -> string) returns (r: Result<nat>)
      requires 3 <= hashSize <= 20
      modifies this
      ensures (r, bytes) == GetLastPrefixSpec(old(bytes), hashSize, fetch)
    {
      hide AllValid, Trimmed, DecodeAll, Decide;
      if |bytes| % RecordSize(hashSize) != 0 {
        bytes := bytes[..|bytes| - |bytes| % RecordSize(hashSize)]; // resize_file
      }
      TrimmedIs(old(bytes), hashSize);
      var db := DecodeAll(bytes, hashSize);
      DecodeAllValid(bytes, hashSize);
      var cut;
      r, cut := DecideOn(db, hashSize, fetch);
      if cut.Some? {
        KeptFits(cut.value, |db|, RecordSize(hashSize));
        bytes := bytes[..cut.value * RecordSize(hashSize)]; // resize_file
      }
    }
  }

  /** The part of get_last_prefix that looks at the records and at the last file. */
  method DecideOn(db: seq<Pw>, hashSize: nat, fetch: string -> string) returns (r: Result<nat>, cut: Option<nat>)
    requires 3 <= hashSize <= 20 && AllValid(db, hashSize)
    ensures (r, cut) == Decide(db, hashSize, fetch)
    ensures cut.Some? ==> cut.value <= |db|
  {
    if db == [] { return Err(EmptyDb), None; }
    var last := db[|db| - 1];
    HashTextShape(last.hash);
    hide HashText, HexText, ParseHash, FromHex, ToChars;
    var text := ToString(last);
    var lastHash := text[..2 * hashSize];
    assert lastHash == HashText(last.hash);
    var suffixSize := SuffixStrSize(hashSize);
    var prefix, suffix := lastHash[..PREFIX_STR_SIZE], lastHash[PREFIX_STR_SIZE..];
    var filebody := fetch(prefix);
    var posColon := FindLastOf(filebody, ':');
    if posColon == None || posColon.value < suffixSize { return Err(CorruptLastFile), None; }
    if filebody[posColon.value - suffixSize..posColon.value] == suffix { return Ok(FromHex(prefix)), None; }
    var first := prefix + filebody[..suffixSize];
    var hexadecimal := AllHex(first, 2 * hashSize);
    if !hexadecimal { return Err(NotHexadecimal), None; }
    var needle := PawnedPw(first, hashSize);
    var found := ReverseFind(db, needle.hash);
    if found < 0 { return Err(NotFound), None; }
    assert first[..PREFIX_STR_SIZE] == prefix;
    return Ok((FromHex(first[..PREFIX_STR_SIZE]) - 1) % SIZE_T), Some(found);
  }

  lemma TrimmedIs(bytes: seq<Byte>, hashSize: nat)
    ensures Trimmed(bytes, hashSize) == bytes[..|bytes| - |bytes| % RecordSize(hashSize)]
    ensures |bytes| % RecordSize(hashSize) == 0 ==> Trimmed(bytes, hashSize) == bytes
  {
  }

  lemma KeptFits(j: nat, n: nat, size: nat)
    requires j <= n
    ensures j * size <= n * size
  {
  }

  method AllHex(text: string, n: nat) returns (r: bool)
    ensures r <==> HexText(text, n)
  {
    if |text| < n { return false; }
    for i := 0 to n
      invariant forall k :: 0 <= k < i ==> IsHex(text[k])
    {
      if !IsHex(text[i]) { return false; }
    }
    return true;
  }

  /** std::find from the back. */
  method ReverseFind(db: seq<Pw>, hash: seq<Byte>) returns (found: int)
    ensures LastWithHash(db, hash) == if found < 0 then None else Some(found)
    ensures found < |db|
  {
    found := |db| - 1;
    assert db[..|db|] == db;
    while found >= 0 && db[found].hash != hash
      invariant -1 <= found < |db|
      invariant LastWithHash(db, hash) == LastWithHash(db[..found + 1], hash)
      decreases found
    {
      assert db[..found + 1][..found] == db[..found];
      found := found - 1;
    }
  }

  // ---------- what the repair does, for every file and every answer of the server ----------

  lemma {:induction false} EncodeDecodeAll(bytes: seq<Byte>, hashSize: nat)
    requires |bytes| % RecordSize(hashSize) == 0
    ensures EncodeAll(DecodeAll(bytes, hashSize)) == bytes
  {
    if bytes != [] {
      DecodeFirst(bytes, hashSize);
      var size: nat := RecordSize(hashSize);
      EncodeDecodeAll(bytes[size..], hashSize);
      DecodeRoundTrip(bytes[..size]);
      hide DecodeAll, Decode, Encode;
      assert bytes == bytes[..size] + bytes[size..];
    }
  }

  /** `p` is the last colon of the text. */
  ghost predicate IsLastColon(s: string, p: nat) {
    p < |s| && s[p] == ':' && forall i :: p < i < |s| ==> s[i] != ':'
  }

  /** `j` is the last record with the hash. */
  ghost predicate IsLastWith(db: seq<Pw>, hash: seq<Byte>, j: nat) {
    j < |db| && db[j].hash == hash && forall k :: j < k < |db| ==> db[k].hash != hash
  }

  lemma {:induction false} NoColon(s: string, from: nat)
    ensures FindLastOf(s, ':').None? || FindLastOf(s, ':').value < from <==>
              forall i :: from <= i < |s| ==> s[i] != ':'
  {
    if s != "" && s[|s| - 1] != ':' { NoColon(s[..|s| - 1], from); }
  }

  lemma {:induction false} LastWithHashFinds(db: seq<Pw>, hash: seq<Byte>)
    ensures match LastWithHash(db, hash)
            case None => forall k :: 0 <= k < |db| ==> db[k].hash != hash
            case Some(j) => IsLastWith(db, hash, j)
  {
    if db != [] { LastWithHashFinds(db[..|db| - 1], hash); }
  }

  /** The records the file holds. */
  ghost function Records(bytes: seq<Byte>, hashSize: nat): (db: seq<Pw>)
    ensures AllValid(db, hashSize)
  {
    DecodeAllValid(Trimmed(bytes, hashSize), hashSize);
    DecodeAll(Trimmed(bytes, hashSize), hashSize)
  }

  /** The file afterwards, by its records. */
  lemma LeftBehind(bytes: seq<Byte>, hashSize: nat, fetch: string -> string)
    requires hashSize >= 3
    ensures var (r, left) := GetLastPrefixSpec(bytes, hashSize, fetch); var db := Records(bytes, hashSize);
      var (result, cut) := Decide(db, hashSize, fetch);
      && r == result && (cut.Some? ==> cut.value <= |db|)
      && left == EncodeAll(if cut.Some? && cut.value <= |db| then db[..cut.value] else db)
  {
    hide Decide, Trimmed, EncodeAll, DecodeAll;
    var whole, db := Trimmed(bytes, hashSize), Records(bytes, hashSize);
    EncodeDecodeAll(whole, hashSize);
    DecodeAllValid(whole, hashSize);
    CutInside(db, hashSize, fetch);
    var cut := Decide(db, hashSize, fetch).1;
    if cut.Some? { EncodeAllTake(db, hashSize, cut.value); }
  }

  lemma CutInside(db: seq<Pw>, hashSize: nat, fetch: string -> string)
    requires hashSize >= 3 && AllValid(db, hashSize)
    ensures var (r, cut) := Decide(db, hashSize, fetch);
      && (cut.Some? ==> cut.value <= |db| && r.Ok?) && (r == Err(EmptyDb) <==> db == [])
  {
    hide FindLastOf, LastWithHash, HashText, FromHex, ParseHash, HexText;
  }

  /** Only whole records are kept, from the front, and an error cuts off no more than that takes. An empty file is an
      error of its own. */
  lemma ErrorsKeepTheRecords(bytes: seq<Byte>, hashSize: nat, fetch: string -> string)
    requires hashSize >= 3
    ensures var (r, left) := GetLastPrefixSpec(bytes, hashSize, fetch); var db := Records(bytes, hashSize);
      && |db| == |bytes| / (hashSize + 4) && EncodeAll(db) <= bytes
      && (r.Err? ==> left == EncodeAll(db)) && (r == Err(EmptyDb) <==> db == [])
      && exists k :: 0 <= k <= |db| && left == EncodeAll(db[..k])
  {
    hide Decide, EncodeAll, DecodeAll, GetLastPrefixSpec;
    var whole, db := Trimmed(bytes, hashSize), Records(bytes, hashSize);
    LeftBehind(bytes, hashSize, fetch);
    CutInside(db, hashSize, fetch);
    EncodeDecodeAll(whole, hashSize);
    DecodeAllValid(whole, hashSize);
    Divided(|bytes|, hashSize + 4, 0);
    SameCount(|db|, |bytes| / (hashSize + 4), hashSize + 4);
    var cut := Decide(db, hashSize, fetch).1;
    var k := if cut.Some? then cut.value else |db|;
    assert db[..|db|] == db;
    assert GetLastPrefixSpec(bytes, hashSize, fetch).1 == EncodeAll(db[..k]);
  }

  lemma KeptFromTheFront(bytes: seq<Byte>, hashSize: nat, fetch: string -> string)
    requires hashSize >= 3
    ensures GetLastPrefixSpec(bytes, hashSize, fetch).1 <= bytes
  {
    hide EncodeAll, GetLastPrefixSpec;
    ErrorsKeepTheRecords(bytes, hashSize, fetch);
    var db, left := Records(bytes, hashSize), GetLastPrefixSpec(bytes, hashSize, fetch).1;
    var k :| 0 <= k <= |db| && left == EncodeAll(db[..k]);
    EncodeAllTake(db, hashSize, k);
    assert left == EncodeAll(db)[..|left|] == bytes[..|left|];
  }

  lemma SameCount(m: nat, n: nat, size: nat)
    requires size > 0 && m * size == n * size
    ensures m == n
  {
  }

  /** The five characters the server is asked for. */
  ghost function AskedFor(db: seq<Pw>): (prefix: string)
    requires db != [] && |db[|db| - 1].hash| >= 3
    ensures |prefix| == 5 && UpperHexText(prefix)
  {
    HashTextShape(db[|db| - 1].hash);
    HashText(db[|db| - 1].hash)[..5]
  }

  /** The answer ends with the last record's suffix. */
  ghost predicate EndsWithLast(db: seq<Pw>, hashSize: nat, body: string, p: nat)
    requires hashSize >= 3 && AllValid(db, hashSize) && db != [] && 2 * hashSize - 5 <= p < |body|
  {
    AskedFor(db) + body[p - (2 * hashSize - 5)..p] == HashText(db[|db| - 1].hash)
  }

  /** The text of the hash the answer begins with. */
  ghost function FirstText(db: seq<Pw>, hashSize: nat, body: string): string
    requires hashSize >= 3 && AllValid(db, hashSize) && db != [] && 2 * hashSize - 5 <= |body|
  {
    AskedFor(db) + body[..2 * hashSize - 5]
  }

  /** What is to come of an answer whose last colon is at `p`. If it ends with the last record the file is complete.
      Otherwise the hash that the answer begins with is looked for from the back: where it is found the file is to be
      cut, and the number before that of the answer returned; if no record has it, or if that is no hash, it is an
      error. */
  ghost predicate Repaired(r: Result<nat>, left: seq<Byte>, db: seq<Pw>, hashSize: nat, body: string, p: nat)
    requires hashSize >= 3 && AllValid(db, hashSize) && db != [] && 2 * hashSize - 5 <= p < |body|
  {
    var number, first := FromHex(AskedFor(db)), FirstText(db, hashSize, body);
    if EndsWithLast(db, hashSize, body, p) then r == Ok(number) && left == EncodeAll(db)
    else if !HexText(first, 2 * hashSize) then r == Err(NotHexadecimal)
    else
      && (r == Err(NotFound) <==> forall k :: 0 <= k < |db| ==> db[k].hash != ParseHash(first, hashSize))
      && forall j: nat :: IsLastWith(db, ParseHash(first, hashSize), j) ==>
           && left == EncodeAll(db[..j])
           && r == Ok(if number == 0 then 0xFFFF_FFFF_FFFF_FFFF else number - 1)
  }

  /** For every file and every answer: without a colon behind a whole suffix it is the error of a corrupt last file,
      and no other answer is. */
  lemma CorruptIff(bytes: seq<Byte>, hashSize: nat, fetch: string -> string)
    requires hashSize >= 3 && Records(bytes, hashSize) != []
    ensures var body := fetch(AskedFor(Records(bytes, hashSize)));
      GetLastPrefixSpec(bytes, hashSize, fetch).0 == Err(CorruptLastFile) <==>
        forall i :: 2 * hashSize - 5 <= i < |body| ==> body[i] != ':'
  {
    hide GetLastPrefixSpec, EncodeAll, DecodeAll, Records, FindLastOf, LastWithHash, FromHex, ParseHash, HexText;
    LeftBehind(bytes, hashSize, fetch);
    NoColon(fetch(AskedFor(Records(bytes, hashSize))), 2 * hashSize - 5);
  }

  /** For every file and every answer with such a colon. */
  lemma AnswerLaw(bytes: seq<Byte>, hashSize: nat, fetch: string -> string, p: nat)
    requires hashSize >= 3 && Records(bytes, hashSize) != []
    requires 2 * hashSize - 5 <= p && IsLastColon(fetch(AskedFor(Records(bytes, hashSize))), p)
    ensures var (r, left) := GetLastPrefixSpec(bytes, hashSize, fetch);
      var db := Records(bytes, hashSize);
      Repaired(r, left, db, hashSize, fetch(AskedFor(db)), p)
  {
    hide GetLastPrefixSpec, EncodeAll, DecodeAll, Records, FindLastOf, LastWithHash, FromHex, ParseHash, HexText;
    var db := Records(bytes, hashSize);
    LeftBehind(bytes, hashSize, fetch);
    FindLastIs(fetch(AskedFor(db)), ':', p);
    DecisionLaw(db, hashSize, fetch, p);
  }

  lemma DecisionLaw(db: seq<Pw>, hashSize: nat, fetch: string -> string, p: nat)
    requires hashSize >= 3 && AllValid(db, hashSize) && db != []
    requires 2 * hashSize - 5 <= p && FindLastOf(fetch(AskedFor(db)), ':') == Some(p)
    ensures var (r, cut) := Decide(db, hashSize, fetch);
      (cut.Some? ==> cut.value <= |db|) &&
      Repaired(r, EncodeAll(if cut.Some? then db[..cut.value] else db), db, hashSize, fetch(AskedFor(db)), p)
  {
    hide EncodeAll, FindLastOf, LastWithHash, FromHex, ParseHash, HexText, HashText, IsLastWith, Decide, AskedFor,
         UpperHexText, EndsWithLast, FirstText;
    DecisionAt(db, hashSize, fetch, p);
    var first := FirstText(db, hashSize, fetch(AskedFor(db)));
    if HexText(first, 2 * hashSize) { TheLastWith(db, ParseHash(first, hashSize)); }
  }

  lemma DecisionAt(db: seq<Pw>, hashSize: nat, fetch: string -> string, p: nat)
    requires hashSize >= 3 && AllValid(db, hashSize) && db != []
    requires 2 * hashSize - 5 <= p && FindLastOf(fetch(AskedFor(db)), ':') == Some(p)
    ensures var body, number := fetch(AskedFor(db)), FromHex(AskedFor(db));
      var first := FirstText(db, hashSize, body);
      Decide(db, hashSize, fetch) ==
        if EndsWithLast(db, hashSize, body, p) then (Ok(number), None)
        else if !HexText(first, 2 * hashSize) then (Err(NotHexadecimal), None)
        else match LastWithHash(db, ParseHash(first, hashSize))
             case None => (Err(NotFound), None)
             case Some(j) => (Ok(if number == 0 then 0xFFFF_FFFF_FFFF_FFFF else number - 1), Some(j))
  {
    hide FindLastOf, LastWithHash, ParseHash, HexText, HashText;
    HashTextShape(db[|db| - 1].hash);
    WholeSuffix(db, hashSize, fetch(AskedFor(db)), p);
    FromHexBound(AskedFor(db));
    assert Pow16(5) == 0x10_0000 by { assert Pow16(3) == 0x1000; }
    hide FromHex;
  }

  lemma {:induction false} FromHexBound(s: string)
    requires UpperHexText(s)
    ensures FromHex(s) < Pow16(|s|)
  {
    if s != "" { FromHexBound(s[..|s| - 1]); }
  }

  lemma TheLastWith(db: seq<Pw>, hash: seq<Byte>)
    ensures LastWithHash(db, hash) == None <==> forall k :: 0 <= k < |db| ==> db[k].hash != hash
    ensures forall j: nat :: IsLastWith(db, hash, j) <==> LastWithHash(db, hash) == Some(j)
  {
    LastWithHashFinds(db, hash);
  }

  lemma WholeSuffix(db: seq<Pw>, hashSize: nat, body: string, p: nat)
    requires hashSize >= 3 && AllValid(db, hashSize) && db != [] && 2 * hashSize - 5 <= p < |body|
    ensures |HashText(db[|db| - 1].hash)| == 2 * hashSize
    ensures EndsWithLast(db, hashSize, body, p) <==>
              body[p - (2 * hashSize - 5)..p] == HashText(db[|db| - 1].hash)[5..]
  {
    var text, suffix := HashText(db[|db| - 1].hash), body[p - (2 * hashSize - 5)..p];
    HashTextShape(db[|db| - 1].hash);
    assert text == AskedFor(db) + text[5..];
    if AskedFor(db) + suffix == text { assert (AskedFor(db) + suffix)[5..] == suffix; }
  }

  // ---------- what the published files look like to the repair ----------

  lemma {:induction false} FindLastIs(s: string, c: char, p: nat)
    requires p < |s| && s[p] == c && forall i :: p < i < |s| ==> s[i] != c
    ensures FindLastOf(s, c) == Some(p)
  {
    if p < |s| - 1 { FindLastIs(s[..|s| - 1], c, p); }
  }

  /** `p` is the last colon of `body`, `last` stands right before it and `first` at the front. */
  ghost predicate Framed(body: string, p: nat, first: string, last: string) {
    && |first| == |last| <= p && FindLastOf(body, ':') == Some(p)
    && body[p - |last|..p] == last && body[..|first|] == first
  }

  /** The last colon of a file body comes right behind the suffix of its last entry; the first suffix starts it. */
  lemma {:induction false} BodyEnds(es: seq<Entry>, published: nat, eol: string, tail: string) returns (p: nat)
    requires ValidFile(es, published) && (eol == "\r\n" || eol == "\n") && (tail == "" || tail == eol)
    ensures Framed(JoinLines(es, eol) + tail, p, es[0].suffix, es[|es| - 1].suffix)
  {
    hide LineOf, FindLastOf, Framed;
    if |es| == 1 {
      p := published;
      LastColon(es[0], published, tail);
      assert JoinLines(es, eol) + tail == LineOf(es[0]) + tail;
    } else {
      var b := JoinLines(es[1..], eol) + tail;
      var q := BodyEnds(es[1..], published, eol, tail);
      FramedBehind(es[0], eol, b, q, es[1].suffix, es[|es| - 1].suffix);
      assert JoinLines(es, eol) + tail == (LineOf(es[0]) + eol) + b;
      p := |LineOf(es[0]) + eol| + q;
    }
  }

  lemma FramedBehind(e: Entry, eol: string, b: string, q: nat, first: string, last: string)
    requires Framed(b, q, first, last) && |e.suffix| == |last|
    ensures Framed((LineOf(e) + eol) + b, |LineOf(e) + eol| + q, e.suffix, last)
  {
    var a := LineOf(e) + eol;
    ColonLater(a, b, q);
    assert a[..|e.suffix|] == e.suffix;
    assert (a + b)[..|e.suffix|] == e.suffix;
  }

  lemma LastColon(e: Entry, published: nat, tail: string)
    requires ValidEntry(e, published) && forall i :: 0 <= i < |tail| ==> tail[i] != ':'
    ensures var body := LineOf(e) + tail;
            Framed(body, published, e.suffix, e.suffix)
  {
    hide DecNat;
    var body, digits := LineOf(e) + tail, DecNat(e.count);
    DecNatCanonical(e.count);
    assert body == e.suffix + ":" + digits + tail;
    forall i | published < i < |body| ensures body[i] != ':' {
      if i < published + 1 + |digits| {
        assert body[i] == digits[i - published - 1] && IsDigit(digits[i - published - 1]);
      } else {
        assert body[i] == tail[i - published - 1 - |digits|];
      }
    }
    FindLastIs(body, ':', published);
  }

  lemma {:induction false} FindLastBound(s: string, c: char, i: nat)
    requires i < |s| && s[i] == c
    ensures FindLastOf(s, c).Some? && i <= FindLastOf(s, c).value
  {
    if s[|s| - 1] != c { FindLastBound(s[..|s| - 1], c, i); }
  }

  lemma {:induction false} ColonLater(a: string, b: string, q: nat)
    requires FindLastOf(b, ':') == Some(q)
    ensures FindLastOf(a + b, ':') == Some(|a| + q)
  {
    assert (a + b)[|a| + q] == ':';
    forall i | |a| + q < i < |a + b| ensures (a + b)[i] != ':' {
      if b[i - |a|] == ':' { FindLastBound(b, ':', i - |a|); }
    }
    FindLastIs(a + b, ':', |a| + q);
  }
}
