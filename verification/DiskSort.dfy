/** External merge sort of include/flat_file.hpp: chunk, sort, k-way merge through a priority queue. */
module DiskSort {
  import opened Orders
  import opened Heap
  import opened FlatFile

  datatype FileName = Source(name: string) | Partial(name: string, chunk: nat) | Sorted(name: string)

  /** The directory the sort works in. */
  class Disk<T> {
    var files: map<FileName, seq<T>>
  }

  /** The buffer size a file_writer gets by default, and the one merged chunks are read with. */
  const DEFAULT_BUFFER := 1000

  // ---------- cutting into sorted chunks ----------

  function ChunkSize(records: nat, maxMemory: nat, recordSize: nat): nat
    requires recordSize > 0
  {
    Least(records, maxMemory / recordSize)
  }

  ghost function Concat<T>(parts: seq<seq<T>>): seq<T> {
    if parts == [] then [] else parts[0] + Concat(parts[1..])
  }

  lemma {:induction false} ConcatAppend<T>(parts: seq<seq<T>>, last: seq<T>)
    ensures Concat(parts + [last]) == Concat(parts) + last
  {
    if parts == [] {
      assert parts + [last] == [last];
    } else {
      assert (parts + [last])[1..] == parts[1..] + [last];
      ConcatAppend(parts[1..], last);
    }
  }

  /** ceil(records / chunkSize) chunks: each but the last is full and none starts past the end. */
  lemma ChunkCount(records: nat, chunkSize: nat, chunk: nat)
    requires records > 0 && chunkSize > 0
    requires chunk <= NumberOfChunks(records, chunkSize)
    ensures chunk < NumberOfChunks(records, chunkSize) <==> chunk * chunkSize < records
  {
    var q, r := records / chunkSize, records % chunkSize;
    assert records == q * chunkSize + r;
    if chunk < q {
      assert (chunk + 1) * chunkSize <= q * chunkSize;
    } else if chunk > q {
      assert chunk * chunkSize == q * chunkSize + chunkSize;
    }
  }

  function NumberOfChunks(records: nat, chunkSize: nat): nat
    requires chunkSize > 0
  {
    records / chunkSize + (if records % chunkSize != 0 then 1 else 0)
  }

  ghost predicate GoodChunk<T(!new)>(lt: (T, T) -> bool, unsorted: seq<T>, chunk: seq<T>, limit: nat) {
    0 < |chunk| <= limit && SortedBy(lt, chunk) && multiset(chunk) == multiset(unsorted)
  }

  ghost predicate SameElsewhere<T>(before: map<FileName, seq<T>>, after: map<FileName, seq<T>>, names: seq<FileName>) {
    forall f :: f !in names ==>
      (if f in before then f in after && after[f] == before[f] else f !in after)
  }

  function PartialNames(name: string, n: nat): (r: seq<FileName>)
    ensures |r| == n && forall i :: 0 <= i < n ==> r[i] == Partial(name, i)
  {
    seq(n, (i: nat) => Partial(name, i))
  }

  /** Writes one in-memory chunk to a new file through a file_writer. */
  method WriteFile<T(0)>(disk: Disk<T>, name: FileName, records: seq<T>)
    modifies disk
    ensures disk.files == old(disk.files)[name := records]
  {
    var os := WriteAll(records, DEFAULT_BUFFER);
    disk.files := disk.files[name := os.contents];
  }

  /** std::copy from the database into memory. */
  method CopyRange<T(0)>(db: Database<T>, start: nat, end: nat) returns (objs: seq<T>)
    requires db.Valid() && start <= end <= |db.file|
    modifies db, db.buf
    ensures db.Valid() && objs == db.file[start..end]
  {
    objs := [];
    for i := start to end
      modifies db, db.buf
      invariant db.Valid() && objs == db.file[start..i]
    {
      var r := db.GetRecord(i);
      objs := objs + [r.value];
    }
  }

  /** Where chunk number `chunk` begins, counted from the first record of the range. */
  function Cut(total: nat, chunkSize: nat, chunk: nat): nat {
    Least(chunk * chunkSize, total)
  }

  /** The bounds the loop computes for a chunk are two consecutive cuts. */
  lemma CutBounds(total: nat, chunkSize: nat, chunk: nat)
    requires total > 0 && chunkSize > 0 && chunk < NumberOfChunks(total, chunkSize)
    ensures chunk * chunkSize == Cut(total, chunkSize, chunk) < total
    ensures Cut(total, chunkSize, chunk + 1) == chunk * chunkSize + Least(chunkSize, total - chunk * chunkSize)
  {
    ChunkCount(total, chunkSize, chunk);
    assert (chunk + 1) * chunkSize == chunk * chunkSize + chunkSize;
  }

  lemma FullUnlessLast(total: nat, chunkSize: nat, chunk: nat)
    requires total > 0 && chunkSize > 0 && chunk + 1 < NumberOfChunks(total, chunkSize)
    ensures chunk * chunkSize + chunkSize < total
  {
    ChunkCount(total, chunkSize, chunk + 1);
    assert (chunk + 1) * chunkSize == chunk * chunkSize + chunkSize;
  }

  /** Reads, sorts and writes one chunk. */
  method WriteSortedChunk<T(0,!new), K(!new)>(disk: Disk<T>, db: Database<T>, file: FileName, start: nat, end: nat,
      comp: (K, K) -> bool, proj: T -> K)
    requires db.Valid() && start < end <= |db.file| && StrictWeakOrder(comp)
    modifies disk, db, db.buf
    ensures db.Valid()
    ensures file in disk.files && disk.files == old(disk.files)[file := disk.files[file]]
    ensures GoodChunk(Projected(comp, proj), db.file[start..end], disk.files[file], end - start)
  {
    var objs := CopyRange(db, start, end);
    ProjectedOrder(comp, proj);
    SortSorts(Projected(comp, proj), objs);
    WriteFile(disk, file, Sort(Projected(comp, proj), objs));
  }

  /** sort_into_chunks: `pieces` are the consecutive input ranges, one per chunk file. */
  method SortIntoChunks<T(0,!new), K(!new)>(disk: Disk<T>, db: Database<T>, name: string, first: nat, last: nat,
      comp: (K, K) -> bool, proj: T -> K, maxMemory: nat, recordSize: nat)
    returns (names: seq<FileName>, ghost pieces: seq<seq<T>>)
    requires db.Valid() && first < last <= |db.file|
    requires StrictWeakOrder(comp)
    requires 0 < recordSize <= maxMemory
    modifies disk, db, db.buf
    ensures db.Valid() && |names| > 0
    ensures Chunked(Projected(comp, proj), db.file[first..last], maxMemory / recordSize, name,
                    old(disk.files), disk.files, names, pieces)
    ensures |pieces| == |names|
    ensures forall i :: 0 <= i < |pieces| - 1 ==> |pieces[i]| == Least(last - first, maxMemory / recordSize)
  {
    hide StrictWeakOrder, NumberOfChunks, Cut, Chunked, FullButLast, GoodChunk;
    var total := last - first;
    var chunkSize := ChunkSize(total, maxMemory, recordSize);
    var limit := maxMemory / recordSize;
    assert limit > 0;
    ghost var lt := Projected(comp, proj);
    ghost var input := db.file[first..last];
    var count := NumberOfChunks(total, chunkSize);
    names, pieces := [], [];
    CutEnds(total, chunkSize);
    ChunkedNothing(lt, input, limit, name, disk.files);
    NoneTooShort<T>(chunkSize, count);
    for chunk := 0 to count
      modifies disk, db, db.buf
      invariant db.Valid() && |names| == chunk == |pieces| && Cut(total, chunkSize, chunk) <= total
      invariant FullButLast(pieces, chunkSize, count)
      invariant Chunked(lt, input[..Cut(total, chunkSize, chunk)], limit, name,
                        old(disk.files), disk.files, names, pieces)
    {
      CutBounds(total, chunkSize, chunk);
      if chunk + 1 < count { FullUnlessLast(total, chunkSize, chunk); }
      var start := chunk * chunkSize;
      var end := start + Least(chunkSize, total - start);
      ghost var before := disk.files;
      WriteSortedChunk(disk, db, Partial(name, chunk), first + start, first + end, comp, proj);
      SliceOfSlice(db.file, first, last, start, end);
      ChunkedOneMore(lt, input, start, end, limit, name, old(disk.files), before, disk.files, names, pieces);
      FullOneMore(pieces, input[start..end], chunkSize, count);
      names, pieces := names + [Partial(name, chunk)], pieces + [input[start..end]];
    }
    assert input[..total] == input;
    FullPieces(pieces, chunkSize);
  }

  /** Of `count` pieces every one but the last is full. */
  ghost predicate FullButLast<T>(pieces: seq<seq<T>>, chunkSize: nat, count: nat) {
    forall i :: 0 <= i < |pieces| && i + 1 < count ==> |pieces[i]| == chunkSize
  }

  lemma NoneTooShort<T>(chunkSize: nat, count: nat)
    ensures FullButLast<T>([], chunkSize, count)
  {
  }

  lemma FullOneMore<T>(pieces: seq<seq<T>>, piece: seq<T>, chunkSize: nat, count: nat)
    requires FullButLast(pieces, chunkSize, count) && (|pieces| + 1 < count ==> |piece| == chunkSize)
    ensures FullButLast(pieces + [piece], chunkSize, count)
  {
  }

  lemma FullPieces<T>(pieces: seq<seq<T>>, chunkSize: nat)
    requires FullButLast(pieces, chunkSize, |pieces|)
    ensures forall i :: 0 <= i < |pieces| - 1 ==> |pieces[i]| == chunkSize
  {
  }

  /** The state of the directory when the chunk files `names` hold, sorted, the consecutive `pieces` of `input`. */
  ghost predicate Chunked<T(!new)>(lt: (T, T) -> bool, input: seq<T>, limit: nat, name: string,
      before: map<FileName, seq<T>>, after: map<FileName, seq<T>>, names: seq<FileName>, pieces: seq<seq<T>>)
  {
    && |pieces| == |names| && names == PartialNames(name, |names|)
    && Concat(pieces) == input
    && (forall i :: 0 <= i < |names| ==> names[i] in after && GoodChunk(lt, pieces[i], after[names[i]], limit))
    && SameElsewhere(before, after, names)
  }

  lemma ChunkedNothing<T(!new)>(lt: (T, T) -> bool, input: seq<T>, limit: nat, name: string,
      files: map<FileName, seq<T>>)
    ensures Chunked(lt, input[..0], limit, name, files, files, [], [])
  {
  }

  lemma ChunkedOneMore<T(!new)>(lt: (T, T) -> bool, input: seq<T>, start: nat, end: nat, limit: nat, name: string,
      base: map<FileName, seq<T>>, before: map<FileName, seq<T>>, after: map<FileName, seq<T>>,
      names: seq<FileName>, pieces: seq<seq<T>>)
    requires start <= end <= |input| && end - start <= limit
    requires Chunked(lt, input[..start], limit, name, base, before, names, pieces)
    requires var file := Partial(name, |names|);
             file in after && after == before[file := after[file]]
             && GoodChunk(lt, input[start..end], after[file], end - start)
    ensures Chunked(lt, input[..end], limit, name, base, after,
                    names + [Partial(name, |names|)], pieces + [input[start..end]])
  {
    ConcatGrows(pieces, input, start, end);
    var file := Partial(name, |names|);
    forall i | 0 <= i < |names| ensures names[i] != file && after[names[i]] == before[names[i]] { }
  }

  lemma SliceOfSlice<T>(s: seq<T>, lo: nat, hi: nat, a: nat, b: nat)
    requires lo <= hi <= |s| && a <= b <= hi - lo
    ensures s[lo..hi][a..b] == s[lo + a..lo + b]
  {
    var t, u := s[lo..hi], s[lo + a..lo + b];
    forall i | 0 <= i < b - a ensures t[a..b][i] == u[i] {
      assert t[a..b][i] == t[a + i] == s[lo + (a + i)];
    }
    assert t[a..b] == u;
  }

  lemma ConcatGrows<T>(parts: seq<seq<T>>, input: seq<T>, start: nat, end: nat)
    requires start <= end <= |input| && Concat(parts) == input[..start]
    ensures Concat(parts + [input[start..end]]) == input[..end]
  {
    ConcatAppend(parts, input[start..end]);
  }

  lemma CutEnds(total: nat, chunkSize: nat)
    requires total > 0 && chunkSize > 0
    ensures NumberOfChunks(total, chunkSize) > 0
    ensures Cut(total, chunkSize, 0) == 0 && Cut(total, chunkSize, NumberOfChunks(total, chunkSize)) == total
  {
  }

  // ---------- merging ----------

  /** An element of the merge's priority queue: a record and the chunk it came from. */
  datatype Head<T> = Head(value: T, idx: nat)

  ghost predicate Counters<T>(files: seq<seq<T>>, cnt: seq<nat>) {
    |cnt| == |files| && forall k :: 0 <= k < |files| ==> cnt[k] <= |files[k]|
  }

  /** What has not been written yet when the first `cnt[k]` records of each chunk have. */
  ghost function Pending<T>(files: seq<seq<T>>, cnt: seq<nat>): multiset<T>
    requires Counters(files, cnt)
  {
    if files == [] then multiset{} else multiset(files[0][cnt[0]..]) + Pending(files[1..], cnt[1..])
  }

  lemma {:induction false} PendingStep<T>(files: seq<seq<T>>, cnt: seq<nat>, k: nat)
    requires Counters(files, cnt) && k < |files| && cnt[k] < |files[k]|
    ensures Counters(files, cnt[k := cnt[k] + 1])
    ensures Pending(files, cnt) == Pending(files, cnt[k := cnt[k] + 1]) + multiset{files[k][cnt[k]]}
  {
    var next := cnt[k := cnt[k] + 1];
    if k == 0 {
      assert files[0][cnt[0]..] == [files[0][cnt[0]]] + files[0][next[0]..];
      assert next[1..] == cnt[1..];
    } else {
      PendingStep(files[1..], cnt[1..], k - 1);
      assert next[1..] == cnt[1..][k - 1 := cnt[k] + 1];
    }
  }

  lemma {:induction false} PendingNothing<T>(files: seq<seq<T>>, cnt: seq<nat>)
    requires Counters(files, cnt) && forall k :: 0 <= k < |files| ==> cnt[k] == |files[k]|
    ensures Pending(files, cnt) == multiset{}
  {
    if files != [] { PendingNothing(files[1..], cnt[1..]); }
  }

  lemma {:induction false} PendingEverything<T>(files: seq<seq<T>>, cnt: seq<nat>)
    requires Counters(files, cnt) && forall k :: 0 <= k < |files| ==> cnt[k] == 0
    ensures Pending(files, cnt) == multiset(Concat(files))
  {
    if files != [] {
      PendingEverything(files[1..], cnt[1..]);
      assert files[0][cnt[0]..] == files[0];
    }
  }

  /** Exactly one head per chunk that is not used up, and it is that chunk's next record. */
  ghost predicate HeadsMatch<T>(files: seq<seq<T>>, cnt: seq<nat>, heads: multiset<Head<T>>)
    requires Counters(files, cnt)
  {
    && (forall h :: h in heads ==> h.idx < |files| && cnt[h.idx] < |files[h.idx]|)
    && (forall h :: h in heads ==> h.value == files[h.idx][cnt[h.idx]] && heads[h] == 1)
    && (forall k :: 0 <= k < |files| && cnt[k] < |files[k]| ==> Head(files[k][cnt[k]], k) in heads)
  }

  /** Nothing pending is smaller than anything already written. */
  ghost predicate AllAbove<T>(lt: (T, T) -> bool, files: seq<seq<T>>, cnt: seq<nat>, out: seq<T>)
    requires Counters(files, cnt)
  {
    forall k, q, o :: 0 <= k < |files| && cnt[k] <= q < |files[k]| && 0 <= o < |out| ==> !lt(files[k][q], out[o])
  }

  ghost predicate AllSorted<T>(lt: (T, T) -> bool, files: seq<seq<T>>) {
    forall k :: 0 <= k < |files| ==> SortedBy(lt, files[k])
  }

  /** Writing a minimal head keeps the output sorted and below everything still to come. */
  lemma WriteMinimum<T(!new)>(lt: (T, T) -> bool, files: seq<seq<T>>, cnt: seq<nat>, heads: multiset<Head<T>>,
      out: seq<T>, top: Head<T>)
    requires StrictWeakOrder(lt) && AllSorted(lt, files)
    requires Counters(files, cnt) && HeadsMatch(files, cnt, heads) && AllAbove(lt, files, cnt, out) && SortedBy(lt, out)
    requires top in heads && forall h :: h in heads ==> !lt(h.value, top.value)
    ensures var next := cnt[top.idx := cnt[top.idx] + 1];
            Counters(files, next) && AllAbove(lt, files, next, out + [top.value])
    ensures SortedBy(lt, out + [top.value])
  {
    var next := cnt[top.idx := cnt[top.idx] + 1];
    forall k, q | 0 <= k < |files| && next[k] <= q < |files[k]| ensures !lt(files[k][q], top.value) {
      var head := files[k][cnt[k]];
      assert Head(head, k) in heads;
      if q > cnt[k] { assert !lt(files[k][q], head); }
      NotGreaterChains(lt, top.value, head, files[k][q]);
    }
  }

  ghost function Footprint<T(0)>(dbs: seq<Database<T>>): set<object> {
    (set i | 0 <= i < |dbs| :: dbs[i] as object) + (set i | 0 <= i < |dbs| :: dbs[i].buf as object)
  }

  /** The databases of the merge, all open on their chunk files and none sharing state with another. */
  ghost predicate AllOpen<T(0)>(dbs: seq<Database<T>>, files: seq<seq<T>>)
    reads dbs, set i | 0 <= i < |dbs| :: dbs[i].buf
  {
    && |dbs| == |files|
    && (forall i :: 0 <= i < |dbs| ==> dbs[i].Valid() && dbs[i].file == files[i])
    && (forall i, j :: 0 <= i < j < |dbs| ==> dbs[i] != dbs[j] && dbs[i].buf != dbs[j].buf)
  }

  lemma NoneOpen<T(0)>()
    ensures AllOpen<T>([], []) && Footprint<T>([]) == {}
  {
  }

  lemma InFootprint<T(0)>(dbs: seq<Database<T>>, i: nat)
    requires i < |dbs|
    ensures dbs[i] in Footprint(dbs) && dbs[i].buf in Footprint(dbs)
  {
  }

  lemma FootprintOneMore<T(0)>(dbs: seq<Database<T>>, db: Database<T>)
    ensures Footprint(dbs + [db]) == Footprint(dbs) + {db, db.buf}
  {
    var all := dbs + [db];
    InFootprint(all, |dbs|);
    forall x | x in Footprint(dbs) ensures x in Footprint(all) {
      var i :| 0 <= i < |dbs| && (x == dbs[i] || x == dbs[i].buf);
      InFootprint(all, i);
    }
  }

  lemma AllOpenOneMore<T(0)>(dbs: seq<Database<T>>, files: seq<seq<T>>, db: Database<T>)
    requires AllOpen(dbs, files) && db.Valid() && db !in Footprint(dbs) && db.buf !in Footprint(dbs)
    ensures AllOpen(dbs + [db], files + [db.file])
  {
  }

  method OpenAll<T(0)>(disk: Disk<T>, names: seq<FileName>, ghost files: seq<seq<T>>) returns (dbs: seq<Database<T>>)
    requires |files| == |names|
    requires forall i :: 0 <= i < |names| ==> names[i] in disk.files && disk.files[names[i]] == files[i]
    ensures AllOpen(dbs, files) && fresh(Footprint(dbs)) && |dbs| == |files|
  {
    hide AllOpen, Footprint;
    dbs := [];
    NoneOpen<T>();
    ghost var owned: set<object> := {};
    for i := 0 to |names|
      invariant Footprint(dbs) == owned && |dbs| == i && AllOpen(dbs, files[..i]) && fresh(Footprint(dbs))
    {
      var db := new Database<T>(disk.files[names[i]], DEFAULT_BUFFER);
      AllOpenOneMore(dbs, files[..i], db);
      FootprintOneMore(dbs, db);
      assert files[..i + 1] == files[..i] + [db.file];
      dbs, owned := dbs + [db], owned + {db, db.buf};
    }
    assert files[..|names|] == files;
  }

  method ReadFrom<T(0)>(dbs: seq<Database<T>>, ghost files: seq<seq<T>>, k: nat, pos: nat) returns (v: T)
    requires AllOpen(dbs, files) && k < |dbs| && pos < |files[k]|
    modifies Footprint(dbs)
    ensures AllOpen(dbs, files) && v == files[k][pos]
  {
    var r := dbs[k].GetRecord(pos);
    v := r.value;
  }

  /** The comparator of the merge's queue. Negated, so that the queue's "largest" is the smallest record;
      the negation of a strict comparator is not strict, which the heap theorems allow for. */
  function QueueLess<T>(lt: (T, T) -> bool): (Head<T>, Head<T>) -> bool {
    (a: Head<T>, b: Head<T>) => !lt(a.value, b.value)
  }

  function HeadLess<T>(lt: (T, T) -> bool): (Head<T>, Head<T>) -> bool {
    Projected(lt, (h: Head<T>) => h.value)
  }

  lemma NegatedIsBetween<T(!new)>(lt: (T, T) -> bool)
    requires StrictWeakOrder(lt)
    ensures Between(HeadLess(lt), QueueLess(lt))
  {
    ProjectedOrder(lt, (h: Head<T>) => h.value);
    forall a: Head<T>, b: Head<T> | lt(b.value, a.value) ensures QueueLess(lt)(a, b) {
      assert lt(b.value, a.value) && lt(a.value, b.value) ==> lt(b.value, b.value);
    }
  }

  method PrimeQueue<T(0,!new)>(lt: (T, T) -> bool, dbs: seq<Database<T>>, ghost files: seq<seq<T>>)
    returns (heads: seq<Head<T>>, current: seq<nat>)
    requires StrictWeakOrder(lt) && AllOpen(dbs, files) && |dbs| == |files|
    requires forall k :: 0 <= k < |files| ==> files[k] != []
    modifies Footprint(dbs)
    ensures AllOpen(dbs, files) && IsHeap(HeadLess(lt), heads)
    ensures |current| == |files| && forall k :: 0 <= k < |files| ==> current[k] == 1
    ensures HeadsMatch(files, seq(|files|, _ => 0), multiset(heads))
  {
    hide StrictWeakOrder, Between, IsHeap, AllOpen, Footprint, HeadLess, QueueLess;
    NegatedIsBetween(lt);
    heads, current := [], [];
    EmptyIsHeap(HeadLess(lt));
    for i := 0 to |dbs|
      modifies Footprint(dbs)
      invariant AllOpen(dbs, files) && IsHeap(HeadLess(lt), heads)
      invariant |current| == i && forall k :: 0 <= k < i ==> current[k] == 1
      invariant forall h :: h in multiset(heads) ==> h.idx < i && h.value == files[h.idx][0] && multiset(heads)[h] == 1
      invariant forall k :: 0 <= k < i ==> Head(files[k][0], k) in multiset(heads)
    {
      var v := ReadFrom(dbs, files, i, 0);
      heads := Push(HeadLess(lt), QueueLess(lt), heads, Head(v, i));
      current := current + [1];
    }
  }

  /** The heads after the top of chunk `k` has been replaced by that chunk's next record, if any. */
  lemma RefillMatches<T>(files: seq<seq<T>>, cnt: seq<nat>, heads: multiset<Head<T>>, top: Head<T>,
      rest: multiset<Head<T>>)
    requires Counters(files, cnt) && HeadsMatch(files, cnt, heads) && heads == rest + multiset{top}
    ensures var k, next := top.idx, cnt[top.idx := cnt[top.idx] + 1];
            Counters(files, next) &&
            HeadsMatch(files, next, if next[k] < |files[k]| then rest + multiset{Head(files[k][next[k]], k)} else rest)
  {
  }

  /** The merge's loop invariant: `out` holds the `cnt[k]` first records of every chunk, in order. */
  ghost predicate Merging<T>(lt: (T, T) -> bool, files: seq<seq<T>>, cnt: seq<nat>, heads: multiset<Head<T>>,
      out: seq<T>)
  {
    && Counters(files, cnt)
    && HeadsMatch(files, cnt, heads)
    && AllAbove(lt, files, cnt, out)
    && SortedBy(lt, out)
    && multiset(out) + Pending(files, cnt) == multiset(Concat(files))
  }

  lemma MergingStarts<T(!new)>(lt: (T, T) -> bool, files: seq<seq<T>>, heads: multiset<Head<T>>)
    requires HeadsMatch(files, seq(|files|, _ => 0), heads)
    ensures Counters(files, seq(|files|, _ => 0))
    ensures Merging(lt, files, seq(|files|, _ => 0), heads, [])
  {
    PendingEverything(files, seq(|files|, _ => 0));
  }

  ghost function Left<T>(files: seq<seq<T>>, cnt: seq<nat>): nat {
    if Counters(files, cnt) then |Pending(files, cnt)| else 0
  }

  lemma MergingStep<T(!new)>(lt: (T, T) -> bool, files: seq<seq<T>>, cnt: seq<nat>, heads: multiset<Head<T>>,
      out: seq<T>, top: Head<T>, rest: multiset<Head<T>>)
    requires StrictWeakOrder(lt) && AllSorted(lt, files) && Merging(lt, files, cnt, heads, out)
    requires heads == rest + multiset{top} && forall h :: h in heads ==> !lt(h.value, top.value)
    ensures top.idx < |files| == |cnt| && cnt[top.idx] < |files[top.idx]|
    ensures var k, next := top.idx, cnt[top.idx := cnt[top.idx] + 1];
            Merging(lt, files, next, if next[k] < |files[k]| then rest + multiset{Head(files[k][next[k]], k)} else rest,
                    out + [top.value])
            && Left(files, next) < Left(files, cnt)
  {
    hide StrictWeakOrder, AllSorted, AllAbove, SortedBy;
    assert top in heads;
    assert multiset(out + [top.value]) == multiset(out) + multiset{top.value};
    WriteMinimum(lt, files, cnt, heads, out, top);
    RefillMatches(files, cnt, heads, top, rest);
    PendingStep(files, cnt, top.idx);
  }

  lemma MergingEnds<T(!new)>(lt: (T, T) -> bool, files: seq<seq<T>>, cnt: seq<nat>, out: seq<T>)
    requires Merging(lt, files, cnt, multiset{}, out)
    ensures SortedBy(lt, out) && multiset(out) == multiset(Concat(files))
  {
    PendingNothing(files, cnt);
  }

  /** A chunk's iterator is one past its head, and at the end once the chunk is used up. */
  ghost predicate Positions<T>(files: seq<seq<T>>, cnt: seq<nat>, current: seq<nat>) {
    && |current| == |cnt| == |files|
    && forall k :: 0 <= k < |files| ==> current[k] == Least(cnt[k] + 1, |files[k]|)
  }

  lemma PositionsStart<T>(files: seq<seq<T>>, cnt: seq<nat>, current: seq<nat>)
    requires |current| == |cnt| == |files|
    requires forall k :: 0 <= k < |files| ==> files[k] != [] && cnt[k] == 0 && current[k] == 1
    ensures Positions(files, cnt, current)
  {
  }

  /** Replaces the head just taken from chunk `k` by that chunk's next record, if it has one. */
  method Refill<T(0,!new)>(lt: (T, T) -> bool, dbs: seq<Database<T>>, ghost files: seq<seq<T>>, rest: seq<Head<T>>,
      positions: seq<nat>, k: nat, ghost before: seq<nat>) returns (heads: seq<Head<T>>, current: seq<nat>)
    requires StrictWeakOrder(lt) && IsHeap(HeadLess(lt), rest)
    requires AllOpen(dbs, files) && |dbs| == |files| && k < |files|
    requires Positions(files, before, positions) && before[k] < |files[k]|
    modifies Footprint(dbs)
    ensures AllOpen(dbs, files) && IsHeap(HeadLess(lt), heads)
    ensures Positions(files, before[k := before[k] + 1], current)
    ensures var n := before[k] + 1;
            multiset(heads)
              == if n < |files[k]| then multiset(rest) + multiset{Head(files[k][n], k)} else multiset(rest)
  {
    hide StrictWeakOrder, Between, IsHeap, HeadLess, QueueLess;
    heads, current := rest, positions;
    if current[k] != |dbs[k].file| {
      var v := ReadFrom(dbs, files, k, current[k]);
      NegatedIsBetween(lt);
      heads := Push(HeadLess(lt), QueueLess(lt), heads, Head(v, k));
      current := current[k := current[k] + 1];
    }
  }

  /** One round of the merge: write the smallest head, refill from its chunk. */
  method MergeOnce<T(0,!new)>(lt: (T, T) -> bool, dbs: seq<Database<T>>, ghost files: seq<seq<T>>,
      writer: StreamWriter<T>, heads: seq<Head<T>>, current: seq<nat>, ghost cnt: seq<nat>)
    returns (heads': seq<Head<T>>, current': seq<nat>, ghost cnt': seq<nat>)
    requires StrictWeakOrder(lt) && AllSorted(lt, files) && heads != []
    requires AllOpen(dbs, files) && |dbs| == |files| && writer.Valid()
    requires {writer, writer.buf, writer.db} !! Footprint(dbs)
    requires IsHeap(HeadLess(lt), heads) && Positions(files, cnt, current)
    requires Merging(lt, files, cnt, multiset(heads), writer.Accepted())
    modifies Footprint(dbs), writer, writer.buf, writer.db
    ensures AllOpen(dbs, files) && writer.Valid()
    ensures IsHeap(HeadLess(lt), heads') && Positions(files, cnt', current')
    ensures Merging(lt, files, cnt', multiset(heads'), writer.Accepted())
    ensures Left(files, cnt') < Left(files, cnt)
  {
    hide StrictWeakOrder, Between, IsHeap, HeadLess, QueueLess, Merging, AllSorted, Positions, Left;
    var top, rest := Pop(HeadLess(lt), QueueLess(lt), heads) by { NegatedIsBetween(lt); }
    HeadOrder(lt, multiset(heads), top);
    ghost var out := writer.Accepted();
    MergingStep(lt, files, cnt, multiset(heads), out, top, multiset(rest));
    heads', current' := Refill(lt, dbs, files, rest, current, top.idx, cnt);
    cnt' := cnt[top.idx := cnt[top.idx] + 1];
    writer.Write(top.value);
  }

  /** The main loop of merge_sorted_chunks. */
  method MergeLoop<T(0,!new)>(lt: (T, T) -> bool, dbs: seq<Database<T>>, ghost files: seq<seq<T>>,
      writer: StreamWriter<T>)
    requires StrictWeakOrder(lt) && AllSorted(lt, files) && forall k :: 0 <= k < |files| ==> files[k] != []
    requires AllOpen(dbs, files) && |dbs| == |files| && writer.Valid() && writer.Accepted() == []
    requires {writer, writer.buf, writer.db} !! Footprint(dbs)
    modifies Footprint(dbs), writer, writer.buf, writer.db
    ensures writer.Valid()
    ensures SortedBy(lt, writer.Accepted()) && multiset(writer.Accepted()) == multiset(Concat(files))
  {
    hide StrictWeakOrder, IsHeap, AllOpen, HeadLess, Merging, AllSorted, Positions, SortedBy;
    var heads, current := PrimeQueue(lt, dbs, files);
    ghost var cnt: seq<nat> := seq(|files|, _ => 0);
    MergingStarts(lt, files, multiset(heads));
    PositionsStart(files, cnt, current);
    while heads != []
      modifies Footprint(dbs), writer, writer.buf, writer.db
      invariant AllOpen(dbs, files) && writer.Valid()
      invariant IsHeap(HeadLess(lt), heads) && Positions(files, cnt, current)
      invariant Merging(lt, files, cnt, multiset(heads), writer.Accepted())
      decreases Left(files, cnt)
    {
      heads, current, cnt := MergeOnce(lt, dbs, files, writer, heads, current, cnt);
    }
    MergingEnds(lt, files, cnt, writer.Accepted());
  }

  lemma HeadOrder<T(!new)>(lt: (T, T) -> bool, heads: multiset<Head<T>>, top: Head<T>)
    requires forall h :: h in heads ==> !HeadLess(lt)(h, top)
    ensures forall h :: h in heads ==> !lt(h.value, top.value)
  {
  }

  /** merge_sorted_chunks: the merged file is a sorted arrangement of the chunks' records. */
  method MergeSortedChunks<T(0,!new)>(disk: Disk<T>, names: seq<FileName>, target: FileName, lt: (T, T) -> bool,
      ghost files: seq<seq<T>>)
    requires StrictWeakOrder(lt) && |files| == |names| && target !in names
    requires forall i :: 0 <= i < |names| ==> names[i] in disk.files && disk.files[names[i]] == files[i]
    requires AllSorted(lt, files) && forall k :: 0 <= k < |files| ==> files[k] != []
    modifies disk
    ensures target in disk.files && SortedBy(lt, disk.files[target])
    ensures multiset(disk.files[target]) == multiset(Concat(files))
    ensures disk.files == (old(disk.files) - (set f | f in names))[target := disk.files[target]]
  {
    hide StrictWeakOrder, AllSorted, AllOpen;
    var dbs := OpenAll(disk, names, files);
    var os := new OStream<T>();
    var writer := new StreamWriter<T>(os, DEFAULT_BUFFER);
    MergeLoop(lt, dbs, files, writer);
    writer.Flush();
    disk.files := disk.files[target := os.contents] - (set f | f in names);
  }

  lemma {:induction false} SortingKeepsConcat<T(!new)>(lt: (T, T) -> bool, pieces: seq<seq<T>>, chunks: seq<seq<T>>,
      limit: nat)
    requires |pieces| == |chunks|
    requires forall i :: 0 <= i < |pieces| ==> GoodChunk(lt, pieces[i], chunks[i], limit)
    ensures multiset(Concat(chunks)) == multiset(Concat(pieces))
  {
    if pieces != [] { SortingKeepsConcat(lt, pieces[1..], chunks[1..], limit); }
  }

  /** disksort_range: the sorted file holds exactly the records of the range, in order; no chunk file is left
      behind and every other file is untouched. */
  method DisksortRange<T(0,!new), K(!new)>(disk: Disk<T>, db: Database<T>, name: string, first: nat, last: nat,
      comp: (K, K) -> bool, proj: T -> K, maxMemory: nat, recordSize: nat) returns (result: FileName)
    requires db.Valid() && first < last <= |db.file|
    requires StrictWeakOrder(comp)
    requires 0 < recordSize <= maxMemory
    modifies disk, db, db.buf
    ensures db.Valid() && result == Sorted(name) && result in disk.files
    ensures SortedBy(Projected(comp, proj), disk.files[result])
    ensures multiset(disk.files[result]) == multiset(db.file[first..last])
    ensures forall f :: f in disk.files && f != result ==> f in old(disk.files) && disk.files[f] == old(disk.files)[f]
    ensures forall f :: f in old(disk.files) && !(f.Partial? && f.name == name) ==> f in disk.files
  {
    hide StrictWeakOrder, Projected;
    ghost var lt := Projected(comp, proj);
    ProjectedOrder(comp, proj);
    var names, pieces := SortIntoChunks(disk, db, name, first, last, comp, proj, maxMemory, recordSize);
    ghost var chunks := ChunksUsable(lt, db.file[first..last], maxMemory / recordSize, name,
                                     old(disk.files), disk.files, names, pieces);
    result := Sorted(name);
    if |names| == 1 {
      assert chunks == [chunks[0]] && Concat(chunks) == chunks[0] + Concat([]);
      disk.files := disk.files[result := disk.files[names[0]]] - {names[0]};
    } else {
      MergeSortedChunks(disk, names, result, Projected(comp, proj), chunks);
    }
  }

  /** What the merge needs to know about freshly written chunks. */
  lemma ChunksUsable<T(!new)>(lt: (T, T) -> bool, input: seq<T>, limit: nat, name: string,
      before: map<FileName, seq<T>>, after: map<FileName, seq<T>>, names: seq<FileName>, pieces: seq<seq<T>>)
    returns (chunks: seq<seq<T>>)
    requires Chunked(lt, input, limit, name, before, after, names, pieces)
    ensures |chunks| == |names|
    ensures forall i :: 0 <= i < |names| ==> names[i] in after && after[names[i]] == chunks[i] && chunks[i] != []
    ensures AllSorted(lt, chunks) && multiset(Concat(chunks)) == multiset(input)
    ensures names == PartialNames(name, |names|) && SameElsewhere(before, after, names)
  {
    chunks := seq(|names|, i requires 0 <= i < |names| => after[names[i]]);
    SortingKeepsConcat(lt, pieces, chunks, limit);
  }
}
