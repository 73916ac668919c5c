/** The download protocol of src/dnl/requests.cpp and src/dnl/queuemgt.cpp as a labelled transition system.

    Two threads share a locked message queue. Each event below is one atomic step: everything a thread does
    between two points at which the other can observe it. The network is the source of nondeterminism; the
    bytes it has delivered for the current attempt of each download are part of the state (`wire`). */
module Protocol {
  import opened Wrappers
  import opened Lines

  datatype Config = Config(start: nat, limit: nat, parallelMax: nat, server: nat -> string)

  datatype Download = Download(index: nat, buffer: string, retriesLeft: nat)

  const MAX_RETRIES := 10

  /** The requests thread: inside the event loop, reading finished transfers, refilling slots, or gone. */
  datatype Requests = Idle | Reading | Filling | Finished | Threw

  /** The queue thread: blocked on the condition variable, writing without the lock, or gone. */
  datatype Queue = Waiting | Writing | Exited | Stopped | Failed

  datatype State = State(
    slots: map<nat, Download>, wire: map<nat, string>, batch: seq<Download>, nextIndex: nat, requests: Requests,
    msgQueue: seq<seq<Download>>, finishedDls: bool,
    processQueue: multiset<Download>, nextProcess: nat, queue: Queue, written: seq<string>)

  datatype Event =
    | Data(i: nat, bytes: string)  // write_data_curl_cb
    | DoneOk(i: nat)               // a transfer ended well: into the batch
    | DoneFail(i: nat)             // it did not: buffer cleared, one retry fewer
    | HardFail(i: nat)             // it did not and no retry is left: the thread throws
    | Flush                        // the batch, if any, becomes a message
    | Fill                         // fill_download_queue
    | Finish                       // the event loop returned; finished_downloads
    | Bail                         // the writer failed: process_curl_messages throws
    | Drain                        // all messages into the process queue, then the exit test
    | WriteTop(top: Download)      // one file written
    | WriteFails(top: Download, lines: nat) // the writer throws after some lines of a file
    | Rest                         // nothing more to write for now
    | Stop                         // stop requested while waiting

  function NewDownload(i: nat): Download { Download(i, "", MAX_RETRIES) }

  predicate IsTop(q: multiset<Download>, d: Download) {
    d in q && forall e :: e in q ==> d.index <= e.index
  }

  /** fill_download_queue: new downloads until all slots are taken or the limit is reached. */
  function FillSlots(cfg: Config, s: State): (t: State)
    requires s.nextIndex <= cfg.limit
    decreases cfg.limit - s.nextIndex
  {
    if |s.slots| == cfg.parallelMax || s.nextIndex == cfg.limit then s
    else FillSlots(cfg, AddDownload(s))
  }

  function AddDownload(s: State): State {
    var i := s.nextIndex;
    s.(slots := s.slots[i := NewDownload(i)], wire := s.wire[i := ""], nextIndex := i + 1)
  }

  function Flatten(q: seq<seq<Download>>): multiset<Download> {
    if q == [] then multiset{} else Flatten(q[..|q| - 1]) + multiset(q[|q| - 1])
  }

  /** The prefixed lines of files a..b. */
  function OutputLines(server: nat -> string, a: nat, b: nat): seq<string>
    requires a <= b
  {
    if a == b then [] else OutputLines(server, a, b - 1) + FileLines(HexPrefix(b - 1), server(b - 1))
  }

  function Init(cfg: Config): State {
    State(map[], map[], [], cfg.start, Filling, [], false, multiset{}, cfg.start, Waiting, [])
  }

  // ---------- the steps ----------

  /** A transfer can be reported on from inside the event loop, unless the writer has failed, or in the same round. */
  predicate CanReport(s: State, i: nat) {
    i in s.slots && i in s.wire && (s.requests == Reading || (s.requests == Idle && s.queue != Failed))
  }

  ghost predicate Enabled(cfg: Config, s: State, e: Event) {
    match e
    case Data(i, _) => i in s.slots && i in s.wire && s.requests == Idle
    case DoneOk(i) => CanReport(s, i) && s.wire[i] == cfg.server(i)
    case DoneFail(i) => CanReport(s, i) && s.slots[i].retriesLeft > 0
    case HardFail(i) => CanReport(s, i) && s.slots[i].retriesLeft == 0
    case Flush => s.requests == Reading
    case Fill => s.requests == Filling && s.nextIndex <= cfg.limit
    case Finish => s.requests == Idle && s.slots == map[]
    case Bail => s.requests == Idle && s.queue == Failed
    case Drain => s.queue == Waiting && s.requests != Threw && (s.msgQueue != [] || s.finishedDls)
    case WriteTop(top) => s.queue == Writing && IsTop(s.processQueue, top) && top.index == s.nextProcess
    case WriteFails(top, n) => s.queue == Writing && IsTop(s.processQueue, top) && top.index == s.nextProcess
                               && n < |FileLines(HexPrefix(top.index), top.buffer)|
    case Rest => s.queue == Writing &&
                 (s.processQueue == multiset{} || exists d :: IsTop(s.processQueue, d) && d.index != s.nextProcess)
    case Stop => s.queue == Waiting && s.requests == Threw
  }

  function Received(s: State, i: nat, bytes: string): State
    requires i in s.slots && i in s.wire
  {
    var dl := s.slots[i];
    s.(slots := s.slots[i := dl.(buffer := dl.buffer + bytes)], wire := s.wire[i := s.wire[i] + bytes])
  }

  function Batched(s: State, i: nat): State
    requires i in s.slots
  {
    s.(slots := s.slots - {i}, wire := s.wire - {i}, batch := s.batch + [s.slots[i]], requests := Reading)
  }

  function Retried(s: State, i: nat): State
    requires i in s.slots && s.slots[i].retriesLeft > 0
  {
    var dl := s.slots[i];
    s.(slots := s.slots[i := dl.(buffer := "", retriesLeft := dl.retriesLeft - 1)], wire := s.wire[i := ""],
       requests := Reading)
  }

  function Flushed(s: State): State {
    s.(msgQueue := if s.batch == [] then s.msgQueue else s.msgQueue + [s.batch], batch := [], requests := Filling)
  }

  function Drained(s: State): State {
    var q := s.processQueue + Flatten(s.msgQueue);
    s.(msgQueue := [], processQueue := q, queue := if s.finishedDls && q == multiset{} then Exited else Writing)
  }

  function Wrote(s: State, top: Download): State {
    s.(written := s.written + FileLines(HexPrefix(top.index), top.buffer),
       processQueue := s.processQueue - multiset{top}, nextProcess := s.nextProcess + 1)
  }

  function WroteSome(s: State, top: Download, n: nat): State
    requires n <= |FileLines(HexPrefix(top.index), top.buffer)|
  {
    s.(written := s.written + FileLines(HexPrefix(top.index), top.buffer)[..n], queue := Failed)
  }

  ghost function Apply(cfg: Config, s: State, e: Event): State
    requires Enabled(cfg, s, e)
  {
    match e
    case Data(i, bytes) => Received(s, i, bytes)
    case DoneOk(i) => Batched(s, i)
    case DoneFail(i) => Retried(s, i)
    case HardFail(_) => s.(requests := Threw, batch := [])
    case Flush => Flushed(s)
    case Fill => FillSlots(cfg, s).(requests := Idle)
    case Finish => s.(finishedDls := true, requests := Finished)
    case Bail => s.(requests := Threw)
    case Drain => Drained(s)
    case WriteTop(top) => Wrote(s, top)
    case WriteFails(top, n) => WroteSome(s, top, n)
    case Rest => s.(queue := Waiting)
    case Stop => s.(queue := Stopped)
  }

  /** The state after a sequence of events, if each was possible when its turn came. */
  ghost function After(cfg: Config, evs: seq<Event>): Option<State> {
    if evs == [] then Some(Init(cfg))
    else
      var last := |evs| - 1;
      match After(cfg, evs[..last])
      case None => None
      case Some(s) => if Enabled(cfg, s, evs[last]) then Some(Apply(cfg, s, evs[last])) else None
  }

  // ---------- the invariant ----------

  /** Completed downloads that are not yet written, wherever they are. */
  function Completed(s: State): multiset<Download> {
    multiset(s.batch) + Flatten(s.msgQueue) + s.processQueue
  }

  /** Downloads in slots: each buffer holds exactly what the server sent in the current attempt. */
  ghost predicate SlotsOk(cfg: Config, slots: map<nat, Download>, wire: map<nat, string>, lo: nat, hi: nat) {
    && |slots| <= cfg.parallelMax
    && wire.Keys == slots.Keys
    && (forall i :: i in slots ==> lo <= i < hi)
    && (forall i :: i in slots ==> slots[i].index == i && slots[i].retriesLeft <= MAX_RETRIES)
    && (forall i :: i in slots ==> slots[i].buffer == wire[i])
  }

  /** Completed downloads: each index at most once, never also in a slot, each with the server's body. */
  ghost predicate CompletedOk(cfg: Config, m: multiset<Download>, lo: nat, hi: nat, inSlots: set<nat>) {
    && (forall d :: d in m ==> lo <= d.index < hi && d.index !in inSlots)
    && (forall d :: d in m ==> m[d] == 1 && d.buffer == cfg.server(d.index))
    && (forall d, e :: d in m && e in m && d.index == e.index ==> d == e)
  }

  ghost predicate HasIndex(m: multiset<Download>, i: nat) {
    exists d :: d in m && d.index == i
  }

  /** No index is lost: from the next one to write to the next one to request, each is in a slot or completed. */
  ghost predicate NoneLost(m: multiset<Download>, lo: nat, hi: nat, inSlots: set<nat>) {
    forall i :: lo <= i < hi ==> i in inSlots || HasIndex(m, i)
  }

  ghost predicate WrittenOk(cfg: Config, s: State)
    requires cfg.start <= s.nextProcess
  {
    var whole := OutputLines(cfg.server, cfg.start, s.nextProcess);
    if s.queue == Failed
    then s.nextProcess < cfg.limit && whole <= s.written <= OutputLines(cfg.server, cfg.start, s.nextProcess + 1)
    else s.written == whole
  }

  ghost predicate ControlOk(cfg: Config, s: State) {
    && (s.requests != Reading ==> s.batch == [])
    && (s.requests == Idle || s.requests == Finished ==> s.nextIndex == cfg.limit || |s.slots| == cfg.parallelMax)
    && (s.finishedDls <==> s.requests == Finished)
    && (s.finishedDls ==> s.slots == map[])
    && (forall k :: 0 <= k < |s.msgQueue| ==> s.msgQueue[k] != [])
    && (s.queue == Exited ==> s.finishedDls && s.msgQueue == [] && s.processQueue == multiset{})
  }

  ghost predicate Inv(cfg: Config, s: State) {
    && cfg.start <= s.nextProcess <= s.nextIndex <= cfg.limit
    && SlotsOk(cfg, s.slots, s.wire, s.nextProcess, s.nextIndex)
    && CompletedOk(cfg, Completed(s), s.nextProcess, s.nextIndex, s.slots.Keys)
    && (s.requests != Threw ==> NoneLost(Completed(s), s.nextProcess, s.nextIndex, s.slots.Keys))
    && WrittenOk(cfg, s)
    && ControlOk(cfg, s)
  }

  // ---------- each step keeps the invariant ----------

  lemma FlattenAppend(q: seq<seq<Download>>, m: seq<Download>)
    ensures Flatten(q + [m]) == Flatten(q) + multiset(m)
  {
  }

  lemma AddToSlots(cfg: Config, slots: map<nat, Download>, wire: map<nat, string>, lo: nat, hi: nat)
    requires SlotsOk(cfg, slots, wire, lo, hi) && |slots| != cfg.parallelMax && lo <= hi
    ensures hi !in slots
    ensures SlotsOk(cfg, slots[hi := NewDownload(hi)], wire[hi := ""], lo, hi + 1)
  {
  }

  lemma RangeGrows(cfg: Config, m: multiset<Download>, lo: nat, hi: nat, inSlots: set<nat>)
    requires CompletedOk(cfg, m, lo, hi, inSlots)
    ensures CompletedOk(cfg, m, lo, hi + 1, inSlots + {hi})
    ensures NoneLost(m, lo, hi, inSlots) ==> NoneLost(m, lo, hi + 1, inSlots + {hi})
  {
  }

  /** Changing what a slot holds changes neither the set of slots nor their number. */
  lemma ChangeSlot(cfg: Config, slots: map<nat, Download>, wire: map<nat, string>, lo: nat, hi: nat, d: Download)
    requires SlotsOk(cfg, slots, wire, lo, hi) && d.index in slots && d.retriesLeft <= MAX_RETRIES
    ensures slots[d.index := d].Keys == slots.Keys && |slots[d.index := d]| == |slots|
    ensures SlotsOk(cfg, slots[d.index := d], wire[d.index := d.buffer], lo, hi)
  {
  }

  lemma AddDownloadKeepsInv(cfg: Config, s: State)
    requires Inv(cfg, s) && s.requests == Filling
    requires |s.slots| != cfg.parallelMax && s.nextIndex != cfg.limit
    ensures s.nextIndex !in s.slots
    ensures Inv(cfg, AddDownload(s))
  {
    hide SlotsOk, CompletedOk, NoneLost, OutputLines, Flatten, FileLines;
    AddToSlots(cfg, s.slots, s.wire, s.nextProcess, s.nextIndex);
    RangeGrows(cfg, Completed(s), s.nextProcess, s.nextIndex, s.slots.Keys);
    assert Completed(AddDownload(s)) == Completed(s);
    assert AddDownload(s).slots.Keys == s.slots.Keys + {s.nextIndex};
  }

  lemma {:induction false} FillKeepsInv(cfg: Config, s: State)
    requires Inv(cfg, s) && s.requests == Filling
    ensures Inv(cfg, FillSlots(cfg, s).(requests := Idle))
    decreases cfg.limit - s.nextIndex
  {
    if |s.slots| == cfg.parallelMax || s.nextIndex == cfg.limit {
      assert Completed(s.(requests := Idle)) == Completed(s);
    } else {
      AddDownloadKeepsInv(cfg, s);
      FillKeepsInv(cfg, AddDownload(s));
    }
  }

  lemma RemoveFromSlots(cfg: Config, slots: map<nat, Download>, wire: map<nat, string>, lo: nat, hi: nat, i: nat)
    requires SlotsOk(cfg, slots, wire, lo, hi) && i in slots
    ensures SlotsOk(cfg, slots - {i}, wire - {i}, lo, hi)
    ensures (slots - {i}).Keys == slots.Keys - {i}
    ensures slots[i].index == i && lo <= i < hi && i in wire && slots[i].buffer == wire[i]
  {
  }

  /** A transfer moves from its slot to the batch; its buffer is the whole body. */
  lemma DoneOkKeepsInv(cfg: Config, s: State, i: nat)
    requires Inv(cfg, s) && CanReport(s, i) && s.wire[i] == cfg.server(i)
    ensures Inv(cfg, Batched(s, i))
  {
    hide CompletedOk, NoneLost, Flatten, OutputLines, SlotsOk;
    var t := Batched(s, i);
    var d := s.slots[i];
    RemoveFromSlots(cfg, s.slots, s.wire, s.nextProcess, s.nextIndex, i);
    assert Completed(t) == Completed(s) + multiset{d};
    MoveToCompleted(cfg, Completed(s), s.nextProcess, s.nextIndex, s.slots.Keys, d);
  }

  lemma MoveToCompleted(cfg: Config, m: multiset<Download>, lo: nat, hi: nat, inSlots: set<nat>, d: Download)
    requires CompletedOk(cfg, m, lo, hi, inSlots)
    requires d.index in inSlots && lo <= d.index < hi && d.buffer == cfg.server(d.index)
    ensures CompletedOk(cfg, m + multiset{d}, lo, hi, inSlots - {d.index})
    ensures NoneLost(m, lo, hi, inSlots) ==> NoneLost(m + multiset{d}, lo, hi, inSlots - {d.index})
  {
  }

  lemma DoneFailKeepsInv(cfg: Config, s: State, i: nat)
    requires Inv(cfg, s) && CanReport(s, i) && s.slots[i].retriesLeft > 0
    ensures Inv(cfg, Retried(s, i))
  {
    hide CompletedOk, NoneLost, OutputLines, Flatten, FileLines;
    var t := Retried(s, i);
    ChangeSlot(cfg, s.slots, s.wire, s.nextProcess, s.nextIndex, t.slots[i]);
    assert Completed(t) == Completed(s);
  }

  lemma DataKeepsInv(cfg: Config, s: State, i: nat, bytes: string)
    requires Inv(cfg, s) && i in s.slots && i in s.wire && s.requests == Idle
    ensures Inv(cfg, Received(s, i, bytes))
  {
    hide CompletedOk, NoneLost, OutputLines, Flatten, FileLines;
    var t := Received(s, i, bytes);
    ChangeSlot(cfg, s.slots, s.wire, s.nextProcess, s.nextIndex, t.slots[i]);
    assert Completed(t) == Completed(s);
  }

  /** Throwing loses the batch and nothing else. */
  lemma HardFailKeepsInv(cfg: Config, s: State)
    requires Inv(cfg, s) && (s.requests == Reading || s.requests == Idle)
    ensures Inv(cfg, s.(requests := Threw, batch := []))
  {
    hide CompletedOk, NoneLost, Flatten, OutputLines, SlotsOk;
    var t := s.(requests := Threw, batch := []);
    FewerCompleted(cfg, Completed(s), Completed(t), s.nextProcess, s.nextIndex, s.slots.Keys);
  }

  lemma FewerCompleted(cfg: Config, m: multiset<Download>, n: multiset<Download>, lo: nat, hi: nat, inSlots: set<nat>)
    requires CompletedOk(cfg, m, lo, hi, inSlots) && n <= m
    ensures CompletedOk(cfg, n, lo, hi, inSlots)
  {
  }

  lemma FlushKeepsInv(cfg: Config, s: State)
    requires Inv(cfg, s) && s.requests == Reading
    ensures Inv(cfg, Flushed(s))
  {
    hide CompletedOk, NoneLost, OutputLines, SlotsOk, FileLines;
    assert Completed(Flushed(s)) == Completed(s) by { FlushMovesBatch(s); }
    hide Completed;
  }

  lemma FlushMovesBatch(s: State)
    ensures Completed(Flushed(s)) == Completed(s)
  {
    FlattenAppend(s.msgQueue, s.batch);
  }

  lemma DrainKeepsInv(cfg: Config, s: State)
    requires Inv(cfg, s) && s.queue == Waiting
    ensures Inv(cfg, Drained(s))
  {
    hide CompletedOk, NoneLost, OutputLines, SlotsOk;
    DrainMovesMessages(s);
    hide Completed;
  }

  lemma DrainMovesMessages(s: State)
    ensures Completed(Drained(s)) == Completed(s)
  {
  }

  lemma InProcessQueue(cfg: Config, s: State, d: Download)
    requires Inv(cfg, s) && d in s.processQueue
    ensures d in Completed(s) && s.nextProcess <= d.index < s.nextIndex
    ensures d.index !in s.slots && d.buffer == cfg.server(d.index)
  {
  }

  lemma SlotsAbove(cfg: Config, slots: map<nat, Download>, wire: map<nat, string>, lo: nat, hi: nat)
    requires SlotsOk(cfg, slots, wire, lo, hi) && lo !in slots
    ensures SlotsOk(cfg, slots, wire, lo + 1, hi)
  {
  }

  lemma OutputOneMore(server: nat -> string, a: nat, b: nat)
    requires a <= b
    ensures OutputLines(server, a, b + 1) == OutputLines(server, a, b) + FileLines(HexPrefix(b), server(b))
  {
  }

  /** Only the file that is next in index order is written, and it leaves the process queue. */
  lemma WriteTopKeepsInv(cfg: Config, s: State, top: Download)
    requires Inv(cfg, s) && s.queue == Writing && top in s.processQueue && top.index == s.nextProcess
    ensures Inv(cfg, Wrote(s, top))
  {
    hide CompletedOk, NoneLost, Flatten, FileLines, SlotsOk, OutputLines, HexPrefix;
    var t := Wrote(s, top);
    InProcessQueue(cfg, s, top);
    assert Completed(t) == Completed(s) - multiset{top};
    MoveToWritten(cfg, Completed(s), s.nextProcess, s.nextIndex, s.slots.Keys, top);
    SlotsAbove(cfg, s.slots, s.wire, s.nextProcess, s.nextIndex);
    OutputOneMore(cfg.server, cfg.start, s.nextProcess);
  }

  lemma MoveToWritten(cfg: Config, m: multiset<Download>, lo: nat, hi: nat, inSlots: set<nat>, d: Download)
    requires CompletedOk(cfg, m, lo, hi, inSlots) && d in m && d.index == lo
    ensures lo < hi && CompletedOk(cfg, m - multiset{d}, lo + 1, hi, inSlots)
    ensures NoneLost(m, lo, hi, inSlots) ==> NoneLost(m - multiset{d}, lo + 1, hi, inSlots)
  {
  }

  lemma WriteFailsKeepsInv(cfg: Config, s: State, top: Download, n: nat)
    requires Inv(cfg, s) && s.queue == Writing && top in s.processQueue && top.index == s.nextProcess
    requires n <= |FileLines(HexPrefix(top.index), top.buffer)|
    ensures Inv(cfg, WroteSome(s, top, n))
  {
  }

  lemma ControlStepKeepsInv(cfg: Config, s: State, e: Event)
    requires Inv(cfg, s) && Enabled(cfg, s, e) && (e.Finish? || e.Bail? || e.Rest? || e.Stop?)
    ensures Inv(cfg, Apply(cfg, s, e))
  {
  }

  lemma StepKeepsInv(cfg: Config, s: State, e: Event)
    requires Inv(cfg, s) && Enabled(cfg, s, e)
    ensures Inv(cfg, Apply(cfg, s, e))
  {
    hide Inv;
    match e
    case Data(i, bytes) => DataKeepsInv(cfg, s, i, bytes);
    case DoneOk(i) => DoneOkKeepsInv(cfg, s, i);
    case DoneFail(i) => DoneFailKeepsInv(cfg, s, i);
    case HardFail(i) => HardFailKeepsInv(cfg, s);
    case Flush => FlushKeepsInv(cfg, s);
    case Fill => FillStepKeepsInv(cfg, s);
    case Drain => DrainKeepsInv(cfg, s);
    case WriteTop(top) => WriteTopKeepsInv(cfg, s, top);
    case WriteFails(top, n) => WriteFailsKeepsInv(cfg, s, top, n);
    case Finish => ControlStepKeepsInv(cfg, s, e);
    case Bail => ControlStepKeepsInv(cfg, s, e);
    case Rest => ControlStepKeepsInv(cfg, s, e);
    case Stop => ControlStepKeepsInv(cfg, s, e);
  }

  lemma FillStepKeepsInv(cfg: Config, s: State)
    requires Inv(cfg, s) && Enabled(cfg, s, Fill)
    ensures Inv(cfg, Apply(cfg, s, Fill))
  {
    FillKeepsInv(cfg, s);
  }

  lemma {:induction false} Reachable(cfg: Config, evs: seq<Event>)
    requires cfg.start <= cfg.limit && After(cfg, evs).Some?
    ensures Inv(cfg, After(cfg, evs).value)
  {
    if evs == [] {
      assert Completed(Init(cfg)) == multiset{};
    } else {
      var last := |evs| - 1;
      Reachable(cfg, evs[..last]);
      StepKeepsInv(cfg, After(cfg, evs[..last]).value, evs[last]);
    }
  }
}
