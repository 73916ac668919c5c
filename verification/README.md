# Verified model of the "have I been pwned" downloader and its tools

A Dafny 4.11 project that models the core of the C++ repository and proves what that core is meant to keep. Check it
with `dafny verify dfyconfig.toml`.

## What is modelled

**Downloading.** `Protocol` is a labelled transition system: thirteen kinds of atomic step of the requests thread and
the queue thread, over the download slots, the local batch, the message queue, the process queue and the lines written
so far. The network is the only source of nondeterminism. `Runs` proves what holds of every sequence of steps: each
index in exactly one place, order, completeness of a normal exit, a decreasing measure, absence of deadlock. `Session`
is the program itself, a class with the globals of the two source files and methods for their functions; each method
is proved to take exactly the protocol steps it appends to the object's trace, so every theorem about runs is one
about the class.

**The file that comes out.** `Bodies` and `Dataset` describe the published files and the records made of them,
`RecordBytes` the bytes on disk, `Resume` the `--resume` repair as a method on the file, `Recovery` when that repair is
exact, and `Pipeline` puts everything together: any number of aborted or killed downloads, each resumed by the next,
always leave a beginning of the complete file, which is sorted and searchable.

**flat_file.** `FlatFile` has the buffered writer, the windowed reader and its iterator with the cached pointer;
`DiskSort` the external merge sort on top of `Heap`, the binary heap of the standard library, proved for comparators
that are only "not greater" because the merge passes a negated, non-strict one.

**Searching, comparing, hashing.** `Toc` (the table of contents against a search of the whole file), `Diff`
(hunks, and the loop on plain positions), `DiffSeen` and `DiffFiles` (what the loop sees through windows and cached
pointers, and the loop with its iterators), `DiffOutcome` (whether it then refuses or finishes with wrong hunks),
`TopN`, `ArrCmp` (chunked comparison), `Codec` (records, their text and their order), `Md4` against `Md4Spec`, which is
written from RFC 1320, and `Md4Vectors`, its test vectors.

`Orders`, `Bytes`, `Lines`, `Arithmetic` and `Wrappers` hold what the others share.

## What the proofs found

- `run_diff` dereferences an iterator again after looking at the record behind it. When that record is the first of
  the next window, and that window is a whole one, a pointer cached before denotes the record one window further on.
  On the side of NEW the pointer is cached by the deletion test, unless OLD ends at that record; and on both sides by
  std::mismatch, if the library's mismatch dereferences the very iterators it returns. The standard leaves that open
  (some implementations dereference copies), so everything is proved for both, as the parameter `caches`. The method
  `DiffFiles.RunDiffOn` computes exactly `DiffSeen.FilesDiff`. On sorted databases the program finishes with hunks that
  turn OLD into NEW if and only if the intended diff exists and none of its hunks lies where a pointer is off
  (`DiffSeen.IsADiffIff`). For every window size and either kind of mismatch there are databases, differing in one
  record, for which it does not: with copies it finishes with another record in the place of the new one, otherwise it
  refuses (`DiffOutcome.OneNewRecordAtWindowEnd`). With windows as the program opens them, of one size and more than one
  record, it finishes exactly when the rounds of the intended diff meet `DiffOutcome.Finishes`, and refuses otherwise
  (`DiffOutcome.FinishesIff`, `DiffOutcome.WrongHunksIff`). With copies that means: exactly when the intended diff
  exists and none of its updates lies where a pointer is off. With copies, then, it never finishes where it should
  refuse, and its hunks are wrong exactly when, besides, one of the inserts lies there
  (`DiffOutcome.WithCopiesFinishesIff`, `DiffOutcome.WrongWithCopiesIff`). With iterators that have cached a pointer it
  can finish, with wrong hunks, where it should refuse, at every window size of at least two records
  (`DiffOutcome.WrongHunksInsteadOfRefusal`). Databases of less than two windows are always compared as intended.
- Resuming a sha1t64 download compares the last 11 characters of a 35-character suffix with the first 11 of another.
  It is exact for every cut if and only if that comparison never succeeds on an incomplete file
  (`Recovery.AlwaysResumesExactlyIff`); a concrete download that loses a record is
  `Recovery.Sha1t64ResumeCanLoseRecords`. For sha1 and ntlm it is always exact.
- With `--parallel-max 0` the program ends normally and has written nothing. A normal exit means a complete file exactly
  when at least one parallel request is allowed or the range is empty (`Runs.NormalExitComplete`).
- The top-N file is determined by the database exactly when its first N records, by count and hash, have one count per
  hash (`TopN.TopNUniqueIff`); a database with no hash twice has exactly one (`TopN.NoHashTwiceOneTopN`).
- The repository's README speaks of 5 retries; the code has 10, and the model follows the code.

## Model

| member | source | states |
|---|---|---|
| Protocol.StepKeepsInv | src/dnl/requests.cpp:98-166 | whatever step either thread takes keeps the invariant: slots within the limit and holding what the network sent, every index requested and not yet written in exactly one slot or queue, completed downloads with the server's body, output whole files in order |
| Protocol.Reachable | src/dnl/queuemgt.cpp:167-214 | so every state any run can reach satisfies it |
| Protocol.FillKeepsInv | src/dnl/requests.cpp:98-102 | refilling adds consecutive new indices up to both limits and loses nothing |
| Protocol.DoneOkKeepsInv | src/dnl/requests.cpp:115-123 | a finished transfer moves from its slot to the batch with the server's whole body |
| Protocol.DrainKeepsInv | src/dnl/queuemgt.cpp:179-191 | taking over messages and testing for the end neither loses nor doubles a download |
| Protocol.WriteTopKeepsInv | src/dnl/queuemgt.cpp:198-207 | writing the top when it is next in order extends the output by exactly that file |
| Runs.Partition | src/dnl/requests.cpp:98-166 | in every reachable state each index is written, in a slot, or once in exactly one of the three queues, and slots never exceed the maximum |
| Runs.WrittenInOrder | src/dnl/queuemgt.cpp:102-123 | at every moment of every run, aborted or not, the output is a beginning of the complete output, made of whole files unless the writer failed inside one |
| Runs.NormalExitComplete | src/dnl/queuemgt.cpp:188-191 | a normal exit has written start..limit if and only if a parallel request is allowed or there is nothing to write |
| Runs.NoParallelRequestsExitsEmpty | src/dnl/requests.cpp:99-101 | the run that ends normally with nothing written when none is allowed |
| Runs.BufferIsLastAttempt | src/dnl/requests.cpp:132-138 | every buffer, in a slot or queued, is exactly the bytes of the last attempt; a failed attempt leaves no trace |
| Runs.StepDecreases | src/dnl/queuemgt.cpp:170-210 | every step but the arrival of bytes decreases a measure |
| Runs.RunsAreBounded | src/dnl/requests.cpp:293-301 | so a run takes at most 41 steps per file and 8 more |
| Runs.RestMeansWaiting | src/dnl/queuemgt.cpp:199-202 | once the last download has been announced and drained, the queue thread never waits with something left to write: no stuck gap |
| Runs.Progress | src/dnl/queuemgt.cpp:170-210 | no deadlock: while a thread is alive some step is possible |
| Runs.MaximalRuns | src/dnl/queuemgt.cpp:219-269 | a run that can go no further has ended both threads, normally with everything written unless one of them threw |
| Runs.AtMostElevenAttempts | include/dnl/shared.hpp:47 | ten retries: a failed transfer is tried again exactly if it has failed less than ten times before, and stops the program exactly if it has failed ten times; no index fails more than eleven times |
| Session.Downloader.AddDownload | src/dnl/requests.cpp:75-96 | inserts a fresh download with ten retries, or refuses a taken index and changes nothing |
| Session.Downloader.FillDownloadQueue | src/dnl/requests.cpp:98-102 | the loop over slots and next_index is the protocol's Fill step |
| Session.Downloader.WriteDataCurlCb | src/dnl/requests.cpp:192-198 | appends the received bytes to one buffer |
| Session.Downloader.ProcessCurlDoneMsg | src/dnl/requests.cpp:104-139 | into the batch, another attempt with an empty buffer, or a throw exactly when no retry is left |
| Session.Downloader.EnqueueDownloadsForWriting | src/dnl/queuemgt.cpp:140-151 | one message per non-empty batch |
| Session.Downloader.ReadMessages | src/dnl/requests.cpp:150-161 | the batch of a round is exactly the successes reported; a throw names the transfer that had no retry left |
| Session.Downloader.ProcessCurlMessages | src/dnl/requests.cpp:141-166 | a round is the reported transfers in order, then one message and one refill; with a stop requested it only throws |
| Session.NothingToFill | src/dnl/requests.cpp:165 | a round that reports nothing finds nothing to refill |
| Session.Downloader.FinishedDownloads | src/dnl/queuemgt.cpp:154-163 | announces the end, with no slot in use |
| Session.Downloader.BringMessages | src/dnl/queuemgt.cpp:171-193 | all messages into the priority queue in one critical section, and the exit test |
| Session.EmplaceAll | src/dnl/queuemgt.cpp:183-185 | the queue stays a heap and gains exactly the message's downloads |
| Session.Downloader.WriteLines | src/dnl/queuemgt.cpp:102-123 | the writer is called with exactly the prefixed non-empty lines, in order, or with as many as it takes before throwing |
| Session.Downloader.WriteTopFile | src/dnl/queuemgt.cpp:199-206 | what is popped is the download just written, the one with the least index |
| Session.Downloader.WriteReady | src/dnl/queuemgt.cpp:198-208 | writes on until the next index is not in the queue |
| Session.Downloader.StopQueue | src/dnl/queuemgt.cpp:174-177 | a requested stop ends the waiting thread |
| Bodies.FileLinesOfBody | src/dnl/queuemgt.cpp:109-116 | every line of a published file is written once, in order; CR LF or LF, with or without a last line end |
| Lines.LineByLine | src/dnl/queuemgt.cpp:109-120 | for any body: an end of line splits it, only empty lines are left out, and a line loses exactly the carriage returns at its end |
| Bodies.PrefixFacts | include/dnl/shared.hpp:39-40 | for indices below 0x100000 prefixes are five upper-case digits, stand for their index, and are ordered as their indices |
| Codec.PawnedPw | include/hibp.hpp:53-72 | the constructor's loop and index arithmetic read the record the text stands for |
| Codec.ToString | include/hibp.hpp:100-111 | the moving pointer writes the record's text and never leaves the 60-character buffer |
| Codec.ParseRender | include/hibp.hpp:53-111 | parsing what was printed gives the record back, for every hash size and int32 count |
| Codec.RenderParse | include/hibp.hpp:53-111 | printing what was parsed gives a canonical line back |
| Codec.Sha1LineAsSha1t64 | include/hibp.hpp:63-68 | a full sha1 line read as sha1t64 is the sha1 record cut to eight bytes, count included |
| Codec.HashAlone | include/hibp.hpp:61-71 | a hash without a count, as in a search, reads as count -1 |
| Codec.NoCount | include/hibp.hpp:61-71 | so does one followed by something that is not a number, or by one that is no int32 |
| Codec.FromToChars | include/hibp.hpp:70-108 | decimal counts survive the round trip, the extreme ones included |
| Codec.NibbleRoundTrip | include/hibp.hpp:21-41 | nibbles and hexadecimal characters of either case |
| Codec.HexOrder | include/hibp.hpp:74-85 | upper-case text and bytes are ordered alike |
| Codec.PwLessIsOrder | include/hibp.hpp:74-98 | the record order is a strict weak order whose ties are equal hashes |
| ArrCmp.NextSize | include/arrcmp.hpp:119-126 | the next chunk fits the rest of the array and the machine |
| ArrCmp.NextSizeIsLargest | include/arrcmp.hpp:112-126 | it is the largest power of two the machine compares at once that fits |
| ArrCmp.ChunksCover | include/arrcmp.hpp:243-254 | the chunk sizes sum to N and each is a width the machine has, for 64, 32, 16 and 8 bytes |
| ArrCmp.VectorCmpIsDiffer | include/arrcmp.hpp:159-183 | direct and complemented masks both mark exactly the differing bytes |
| ArrCmp.FirstSetBit | include/arrcmp.hpp:196-199 | counting trailing zeros finds the first of them |
| ArrCmp.ChunkIsLex | include/arrcmp.hpp:187-223 | one chunk, as a number or by its first difference, is decided lexicographically |
| ArrCmp.ThreeWayIsLex | include/arrcmp.hpp:187-204 | array_compare with three_way is the lexicographic order, for every length and width |
| ArrCmp.ThreeWayIntHasSign | include/arrcmp.hpp:135-151 | with three_way_int it has that order's sign and fits an int |
| ArrCmp.EqualIsEquality | include/arrcmp.hpp:225-241 | with equal it is equality |
| ArrCmp.RecordOperators | include/hibp.hpp:74-98 | so the record operators that use it are hash order and hash equality |
| Bytes.BigEndianOrder | include/bytearray_cast.hpp:32-47 | comparing the big-endian numbers is comparing the bytes |
| RecordBytes.CountRoundTrip | include/hibp.hpp:118 | the four count bytes give the count back |
| RecordBytes.RecordLayout | include/hibp.hpp:117-118 | a record is its hash, byte by byte, and then its count modulo 2^32, low byte first |
| RecordBytes.DecodeRoundTrip | include/flat_file.hpp:130-131 | whatever bytes are read as a record, writing it gives them back |
| RecordBytes.DecodeEncodeAll | include/flat_file.hpp:56-65 | records written as bytes are read back unchanged |
| RecordBytes.EncodeAllTake | include/flat_file.hpp:128-131 | position times record size is where a record begins |
| RecordBytes.CutAndTrim | src/dnl/resume.cpp:21-26 | a file cut at any byte and trimmed holds a beginning of its records |
| FlatFile.StreamWriter.Write | include/flat_file.hpp:48-54 | accepted records are those before plus this one, whatever is flushed on the way |
| FlatFile.StreamWriter.Flush | include/flat_file.hpp:56-65 | everything accepted is in the stream |
| FlatFile.Database.Locate | include/flat_file.hpp:121-137 | when the window is kept or replaced, what it then covers, and which requests fail |
| FlatFile.Database.GetRecord | include/flat_file.hpp:121-137 | the record at that position, for every earlier access and buffer size |
| FlatFile.Database.Back | include/flat_file.hpp:142 | the last record, or a failure exactly for an empty file |
| FlatFile.ConstIterator.Deref | include/flat_file.hpp:209-215 | the record at the iterator's position if no refill has happened since the pointer was cached; otherwise whatever lies in that slot now |
| FlatFile.WriteThenRead | include/flat_file.hpp:41-160 | records written with one buffer size and read with another, in any order, come back unchanged |
| FlatFile.PeekNext | include/flat_file.hpp:173-215 | what a look at the next record does to a pointer already cached: it denotes the record one window further on exactly at the end of a window followed by a whole one |
| Heap.TopIsMinimumOfAll | include/flat_file.hpp:287-292 | the top of a heap is a minimum |
| Heap.Push | include/flat_file.hpp:296 | push keeps the heap and adds one element, for any comparator between strict and non-strict |
| Heap.Pop | include/flat_file.hpp:302-305 | pop keeps the heap and removes a minimum, under the same comparators |
| DiskSort.NegatedIsBetween | include/flat_file.hpp:287-290 | the negated comparator of the merge is one of those |
| DiskSort.ChunkCount | include/flat_file.hpp:225-227 | the rounded-up quotient numbers exactly the chunks that start inside the input |
| DiskSort.SortIntoChunks | include/flat_file.hpp:218-260 | the chunk files hold, each sorted, non-empty and within the limit, consecutive pieces that concatenate to the input; every piece but the last is full |
| DiskSort.WriteMinimum | include/flat_file.hpp:301-305 | writing a minimal head keeps the output sorted and below everything to come |
| DiskSort.MergingStep | include/flat_file.hpp:301-310 | one round keeps the merge's invariant and shrinks what is pending |
| DiskSort.MergeSortedChunks | include/flat_file.hpp:262-313 | the merged file is a sorted arrangement of the chunks' records; the chunk files are gone and nothing else has changed |
| DiskSort.DisksortRange | include/flat_file.hpp:315-334 | for every strict weak order, projection and memory limit the result is a sorted permutation of the range and the directory is otherwise as before |
| Dataset.OutputIsAllRecords | app/hibp_download.cpp:67-74 | what the protocol hands to the writer, converted, is the records of the files in order |
| Dataset.RecordFacts | src/dnl/queuemgt.cpp:111-115 | each record has the hash that its file's prefix and its line's suffix spell, and the published count |
| Dataset.ConvertCount | include/hibp.hpp:61-71 | the count is the one behind the colon, for all three record types, also where a sha1 line is read as sha1t64 |
| Dataset.DownloadIsSorted | src/dnl/queuemgt.cpp:109-118 | if every body ascends by suffix, the whole download is strictly ascending under the record order |
| Resume.DbFile.GetLastPrefix | src/dnl/resume.cpp:20-82 | result and file afterwards: trimmed tail, completeness test, cut back to the file's first record, and each way to fail |
| Resume.DecideOn | src/dnl/resume.cpp:28-81 | the decision on the records and the last file |
| Resume.ErrorsKeepTheRecords | src/dnl/resume.cpp:21-26 | for every file and every answer: what is left is a beginning of the file's whole records, all of them after an error, and an empty file is an error |
| Resume.CorruptIff | src/dnl/resume.cpp:40-43 | it is the error of a corrupt last file exactly if the answer has no colon with a whole suffix in front |
| Resume.AnswerLaw | src/dnl/resume.cpp:45-81 | any other answer: complete if it ends with the last record; otherwise the file is cut at the last record with the hash the answer begins with and the number before is returned, or it is NotFound exactly if no record has that hash |
| Resume.ReverseFind | src/dnl/resume.cpp:63-69 | the backward search finds the last record with that hash, if any |
| Resume.BodyEnds | src/dnl/resume.cpp:38-46 | in a published file the last colon stands right behind the last suffix |
| Recovery.ResumeOutcome | src/dnl/resume.cpp:20-82 | for a download cut at any byte behind its first record: what is returned and what is left |
| Recovery.ResumeExactIff | app/hibp_download.cpp:77-80 | resuming there gives the uninterrupted file if and only if the completeness test, where it passes, is right; prefix 0 minus one plus one included |
| Recovery.AlwaysResumesExactlyIff | app/hibp_download.cpp:82-101 | it does for every cut if and only if the test is right for the published files |
| Recovery.WholeSuffixIsRight | src/dnl/resume.cpp:45-48 | for sha1 and ntlm it always is |
| Recovery.Sha1t64ResumeCanLoseRecords | src/dnl/resume.cpp:45-48 | a sha1t64 download that loses a record |
| Pipeline.OutputIsABeginning | app/hibp_download.cpp:67-74 | the bytes a run has produced are a beginning of what it should produce, all of it after a normal exit |
| Pipeline.ContinueIsExact | app/hibp_download.cpp:82-101 | resuming from any beginning of the complete file goes on where it should, before the limit, or refuses a complete or record-less one |
| Pipeline.AlwaysABeginning | app/hibp_download.cpp:103-130 | after any number of aborted, killed and resumed attempts the file is a beginning of the complete one |
| Pipeline.CompleteInTheEnd | app/hibp_download.cpp:103-130 | if the last attempt ends normally it is the complete one |
| Pipeline.FileIsSearchable | src/srv/server.cpp:48-56 | and at every time, trimmed to whole records, it is a strictly sorted database as searches require |
| Pipeline.PublishedCountIsFound | src/srv/server.cpp:46-59 | in the complete file the search for any published hash returns the published count |
| Toc.SmallerPrefix | src/toc.cpp:32-36 | byte order implies prefix order |
| Toc.PrefixBits | src/toc.cpp:33-36 | the prefix, bit by bit: the first bits of the first four bytes, whatever their number |
| Toc.TwentyBits | src/toc.cpp:42 | with 20 bits it is the number the first five characters of the hash spell, that of the published file |
| Toc.Table.Build | src/toc.cpp:38-88 | succeeds if and only if every prefix up to the last record's occurs; entries are then the first positions; at most n + entries records are looked at |
| Toc.FindPrefix | src/toc.cpp:71-73 | the first record from there on with the prefix |
| Toc.LowerBound | src/toc.cpp:120 | splits the range into smaller and not smaller records |
| Toc.SearchFinds | src/srv/server.cpp:52-55 | searching the whole file finds a record exactly when one has the hash, and the first such |
| Toc.FullSearch | src/srv/server.cpp:52-55 | the server's search without a table is that search |
| Toc.Chapter | src/toc.cpp:116-121 | everything before the needle's chapter is smaller, everything behind is not |
| Toc.TocSearch | src/toc.cpp:108-125 | with an exact table the answer is that of the whole-file search, for every needle and number of bits |
| Diff.RunDiff | src/diffutils.cpp:36-81 | the loop, with every dereference read as the record at its position, computes the intended diff, the one the next two rows are about |
| Diff.PatchGivesNew | src/diffutils.cpp:37-81 | for any two databases: if it finishes, applying the hunks to OLD gives NEW, and positions never decrease |
| Diff.RefusedIff | src/diffutils.cpp:36-81 | on ascending databases it refuses exactly when an old hash is missing from NEW, or two new records fall directly before one old record, or one falls directly before an old record whose count changed |
| Diff.WhichError | src/diffutils.cpp:53-76 | which of the three errors it is: at the first old record with something unsupported, by what is next in NEW behind the partner of the old record before |
| Diff.StoredDiffIff | src/diffutils.cpp:16-26 | on ascending databases the diff with its positions cut to 32 bits can be applied and gives NEW if and only if every position is below 2^32 |
| DiffFiles.ReadBoth | src/diffutils.cpp:38-39 | one comparison of std::mismatch, through the iterators it returns or through copies: what is read, and which pointers are left |
| DiffFiles.MismatchOn | src/diffutils.cpp:38-39 | std::mismatch, of either kind, finds the first difference behind what has been dealt with |
| DiffFiles.DeletionTest | src/diffutils.cpp:58-61 | the deletion test is right, and leaves the new iterator with a pointer if OLD goes on |
| DiffFiles.InsertTest | src/diffutils.cpp:63-64 | the insert test compares what the old pointer shows by then, and what both iterators show behind it |
| DiffFiles.RoundOn | src/diffutils.cpp:53-79 | a round decides exactly as `DiffSeen.RoundAt` says |
| DiffFiles.RunDiffOn | src/diffutils.cpp:29-81 | for any two files, windows and either kind of std::mismatch the result is exactly `DiffSeen.FilesDiff` |
| DiffSeen.SameWhenClear | src/diffutils.cpp:37-81 | for any two databases: if no round of the intended diff, the refusing one included, meets a pointer that is off, the result is the intended one, hunks or refusal |
| DiffSeen.SmallIsClear | src/diffutils.cpp:31-32 | below two windows none does |
| DiffSeen.LeftBehind | src/diffutils.cpp:72-79 | once NEW has been read past an old hash, the rest of NEW cannot come out any more |
| DiffSeen.RebuildsNewIff | src/diffutils.cpp:37-81 | on ascending databases, from any pair of positions: finishing with hunks that rebuild NEW is the same as the intended diff existing and no round meeting a pointer that is off |
| DiffSeen.ClearIffSafe | src/diffutils.cpp:63-79 | where the intended diff exists, that condition is one on its hunks |
| DiffSeen.IsADiffIff | src/diffutils.cpp:29-81 | the whole program: it finishes with a diff if and only if the intended diff exists and none of its hunks lies where a pointer is off |
| DiffOutcome.FinishesIff | src/diffutils.cpp:29-81 | on ascending databases, with windows as they are opened and either kind of std::mismatch: the program finishes, from any pair of positions, if and only if in the intended diff every insert meets an old pointer that is not off, every update no pointer that is off or two that show one hash, and a refused replacement, if it comes to one, gets through in one of two ways; in all other cases it refuses |
| DiffOutcome.TooFewStop | src/diffutils.cpp:37-81 | the reason for most of those refusals: with fewer new than old records before a hash both have, the loop cannot reach it |
| DiffOutcome.WrongHunksIff | src/diffutils.cpp:29-81 | it finishes with hunks that do not rebuild NEW if and only if it finishes and the intended diff is a refusal or has a hunk where a pointer is off |
| DiffOutcome.WithCopiesFinishesIff | src/diffutils.cpp:38-79 | where std::mismatch dereferences copies it finishes, from any pair of positions, if and only if the intended diff exists and none of its updates lies where a pointer is off; what is to be refused is refused |
| DiffOutcome.WrongWithCopiesIff | src/diffutils.cpp:63-70 | its hunks are then wrong if and only if, besides, one of the inserts does |
| DiffOutcome.OneNewRecordAtWindowEnd | src/diffutils.cpp:63-67 | for every window size, databases that differ in one record and for which no diff comes out: with copies the insert holds the record one window further on, with iterators of equal windows the program refuses |
| DiffOutcome.WrongHunksInsteadOfRefusal | src/diffutils.cpp:72-79 | for every window size of at least two records and iterators that cache: databases to be refused, and the wrong hunks the program finishes with |
| TopN.MoreCommonIsTotal | app/hibp_topn.cpp:105-109 | the selection's comparator orders any two different records |
| TopN.SelectionIsUnique | app/hibp_topn.cpp:104-109 | so there is only one selection of N, and it is the first N of the sorted database |
| TopN.MostCommonAreKept | app/hibp_topn.cpp:104-109 | only records of the database are kept, and what is left out is less common than what is kept, or as common with no smaller hash |
| TopN.PartialSortCopy | app/hibp_topn.cpp:104-109 | the bounded heap holds that selection |
| TopN.BuildTopN | app/hibp_topn.cpp:89-128 | refuses exactly when N is not smaller than the database; otherwise writes exactly those N records by hash |
| TopN.TopNUniqueIff | app/hibp_topn.cpp:104-120 | the output is determined by the database if and only if its first N records by count and hash have one count per hash |
| TopN.NoHashTwiceOneTopN | app/hibp_topn.cpp:104-120 | a database with no hash twice has exactly one top-N file |
| Md4.FastFIsF | src/md4.c:47 | the optimised F is that of RFC 1320, section 3.4 |
| Md4.FastGIsG | src/md4.c:48 | so is the optimised G |
| Md4.StepIsOp | src/md4.c:54-56 | STEP, with its mask, is one operation of the standard |
| Md4.FourSteps | src/md4.c:113-170 | four steps with fixed registers are four operations with rotating roles |
| Md4.Block | src/md4.c:107-172 | the 48 steps and the final additions are the standard's three rounds |
| Md4.Context.constructor | src/md4.c:183-192 | the initial buffer of section 3.3 |
| Md4.Context.Body | src/md4.c:93-181 | the do-while loop is a fold over 64-byte blocks |
| Md4.Context.Update | src/md4.c:194-226 | afterwards the context stands for the longer message: counter, registers and buffered rest |
| Md4.CounterStep | src/md4.c:199-202 | the split counter is the length modulo 2^61 after any update, carries included |
| Md4.LengthBytes | src/md4.c:253-255 | the eight bytes written encode 8 * length modulo 2^64 |
| Md4.FinalBlocks | src/md4.c:240-255 | the last one or two blocks are the rest of the message and the padding of sections 3.1 and 3.2 |
| Md4.Context.Final | src/md4.c:234-265 | returns the digest of everything hashed and wipes the context |
| Md4.DigestOfPieces | src/md4.c:183-265 | however a message is cut into updates, the digest is that of RFC 1320 |
| Md4Spec.PaddedLength | src/md4.c:240-257 | the padded message is a whole number of blocks, longer by 9 to 72 bytes |
| Md4Spec.LittleEndianValue | src/md4.c:228-232 | the bytes written for a number stand for it, low byte first |
| Md4Spec.OutputWords | src/md4.c:260-263 | the digest is the four registers in order, each as a word is read |
| Md4Spec.SquareRoots | src/md4.c:130-169 | the constants of rounds 2 and 3 are the square roots of 2 and 3, times 2^30 and cut off |
| Md4Vectors.DigestOfNothing | src/md4.c:93-265 | the digest of the empty message is that of RFC 1320, appendix A.5 |
| Md4Vectors.DigestOfAlphabet | src/md4.c:93-265 | so is that of the 62 letters and digits, a message of two blocks |

## Left out

- curl, libevent, sockets, URLs and HTTP codes: a transfer ends well, fails, or fails for good, at any time and in any order. A transfer is assumed to end well only after the server's whole body has arrived, and the event loop to return only when no slot is in use.
- The mutex, condition variable and stop tokens: each critical section, and each stretch between two of them that the other thread cannot observe, is one atomic step; a requested stop takes effect at the source's own tests for it.
- Downloads of an aborted batch are lost in the source and in the model; for aborted runs only the order and wholeness of what was written is claimed.
- Runs.Progress: says that a step is possible, not that the network takes it; a transfer that never ends is the environment's.
- A start index above the limit: `get_start_index` refuses it, and the protocol is stated for start <= limit.
- Pipeline.AlwaysABeginning: needs the server to send the same bodies again, files that are not empty, and no hash twice in one file; at least one whole record must be left for a resumed attempt to begin, as `db.back()` needs one.
- Dataset.DownloadIsSorted: the order of each published body is assumed, as the program does.
- Hash text that is not hexadecimal: the constructor asserts against it (a precondition here); in the repair, where the text comes from the network, it is the error NotHexadecimal.
- Md4.Context.Final: `block[]`, a scratch array of the context used on some machines only, is not part of this model.
- Diff.RunDiff: reads every dereference as the record at that position; `DiffFiles.RunDiffOn` is the loop with its cached pointers.
- DiffOutcome.FinishesIff: says that the program refuses, not with which of its errors; where a pointer is off that is whatever `DiffSeen.FilesDiff` gives. Two files opened with windows of different sizes, or of one record, are not covered by it; run_diff opens both with 2730 or 3276 records.
- DiffFiles.RunDiffOn: the order in which the two arguments of a comparison are evaluated is not modelled; they belong to different files, so it makes no difference.
- FlatFile.Database.Locate: after a read beyond the end of the file the source's stream stays in its failed state, so that every later refill throws as well; the model's file stays readable.
- FlatFile.Database.GetRecord: files are sequences of whole records of one size; I/O errors other than reading past the end are not modelled, and move construction and assignment are not either.
- DiskSort.SortIntoChunks: at least one record and memory for one, since the source divides by the chunk size; std::sort, parallel or not, is replaced by a verified insertion sort.
- Heap.Adjust: follows the sift-down to a leaf and back up that standard libraries use; another algorithm with the same contract would do.
- Toc.Table.Build: for 1 to 31 bits; the options allow 15 to 25, and 32 bits would wrap the prefix arithmetic. Saving, loading and time stamps of the table are not modelled.
- Logging, progress, command line parsing, the REST server's routing, text output, the binary fuse filters, SHA1 and the UTF-8 to UTF-16 conversion, which are plumbing or foreign code.
- `hibp_dupes`, `is_valid_hash`, URL builders and option checks, which would only add easy members.
