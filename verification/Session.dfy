/** The downloader as the program runs it: the globals of src/dnl/requests.cpp and src/dnl/queuemgt.cpp and the
    functions that update them. `trace` records the protocol steps taken so far; `Valid` says that the fields are the
    state the protocol reaches by exactly those steps, so whatever holds of every run holds here. */
module Session {
  import opened Wrappers
  import opened Heap
  import opened Lines
  import opened Protocol

  /** process_queue_compare, and the order it puts on top. */
  function ByIndex(): (Download, Download) -> bool { (a: Download, b: Download) => a.index < b.index }

  function ProcessQueueCompare(): (Download, Download) -> bool { (a: Download, b: Download) => a.index > b.index }

  lemma IndexOrder()
    ensures Between(ByIndex(), ProcessQueueCompare())
  {
  }

  /** A finished transfer as curl reports it; `ok` stands for CURLE_OK with response code 200. */
  datatype CurlDone = CurlDone(index: nat, ok: bool)

  /** The protocol steps of a round in which no transfer fails for good. */
  function Reported(done: seq<CurlDone>): seq<Event> {
    if done == [] then []
    else
      var last := done[|done| - 1];
      Reported(done[..|done| - 1]) + [if last.ok then DoneOk(last.index) else DoneFail(last.index)]
  }

  lemma AfterStep(cfg: Config, trace: seq<Event>, s: State, e: Event)
    requires After(cfg, trace) == Some(s) && Enabled(cfg, s, e)
    ensures After(cfg, trace + [e]) == Some(Apply(cfg, s, e))
  {
  }

  lemma InvBounds(cfg: Config, s: State)
    requires Inv(cfg, s)
    ensures s.nextIndex <= cfg.limit
  {
  }

  lemma FillContinues(cfg: Config, s: State)
    requires s.nextIndex < cfg.limit && |s.slots| != cfg.parallelMax
    ensures FillSlots(cfg, s) == FillSlots(cfg, Protocol.AddDownload(s))
  {
  }

  lemma FillStops(cfg: Config, s: State)
    requires s.nextIndex <= cfg.limit && (|s.slots| == cfg.parallelMax || s.nextIndex == cfg.limit)
    ensures FillSlots(cfg, s) == s
  {
  }

  /** Inside the event loop the slots are as full as they can be. */
  lemma NothingToFill(cfg: Config, trace: seq<Event>, s: State)
    requires cfg.start <= cfg.limit && After(cfg, trace) == Some(s) && s.requests == Idle
    ensures s.nextIndex <= cfg.limit && FillSlots(cfg, s) == s
  {
    Reachable(cfg, trace);
    assert s.slots == map[] ==> |s.slots| == 0;
  }

  lemma AfterWriteTop(cfg: Config, trace: seq<Event>, s: State, top: Download)
    requires After(cfg, trace) == Some(s) && s.queue == Writing
    requires IsTop(s.processQueue, top) && top.index == s.nextProcess
    ensures After(cfg, trace + [WriteTop(top)]) == Some(Wrote(s, top))
  {
  }

  lemma AfterWriteFails(cfg: Config, trace: seq<Event>, s: State, top: Download, n: nat)
    requires After(cfg, trace) == Some(s) && s.queue == Writing
    requires IsTop(s.processQueue, top) && top.index == s.nextProcess
    requires n < |FileLines(HexPrefix(top.index), top.buffer)|
    ensures After(cfg, trace + [WriteFails(top, n)]) == Some(WroteSome(s, top, n))
  {
    AfterStep(cfg, trace, s, WriteFails(top, n));
  }

  lemma NoLines(prefix: string)
    ensures FileLines(prefix, "") == []
  {
  }

  lemma FlattenNone()
    ensures Flatten([]) == multiset{}
  {
  }

  /** Moves the downloads of one message into the priority queue. */
  method EmplaceAll(queue: seq<Download>, msg: seq<Download>) returns (r: seq<Download>)
    requires IsHeap(ByIndex(), queue)
    ensures IsHeap(ByIndex(), r) && multiset(r) == multiset(queue) + multiset(msg)
  {
    hide IsHeap, Between;
    IndexOrder();
    r := queue;
    for k := 0 to |msg|
      invariant IsHeap(ByIndex(), r) && multiset(r) == multiset(queue) + multiset(msg[..k])
    {
      assert msg[..k + 1] == msg[..k] + [msg[k]];
      r := Push(ByIndex(), ProcessQueueCompare(), r, msg[k]);
    }
    assert msg[..|msg|] == msg;
  }

  class Downloader {
    const cfg: Config
    // requests.cpp
    var downloadSlots: map<nat, Download>
    var nextIndex: nat
    // queuemgt.cpp
    var msgQueue: seq<seq<Download>>
    var finishedDls: bool
    var processQueue: seq<Download>
    var nextProcess: nat
    /** The lines the writer has been called with. */
    var written: seq<string>
    // where the threads are, what the network has delivered, and how it came to this
    ghost var requests: Requests
    ghost var queue: Queue
    ghost var wire: map<nat, string>
    ghost var trace: seq<Event>

    /** The protocol state; `batch` is the message being put together, a local variable of the program. */
    ghost function View(batch: seq<Download>): State
      reads this
    {
      State(downloadSlots, wire, batch, nextIndex, requests, msgQueue, finishedDls,
            multiset(processQueue), nextProcess, queue, written)
    }

    ghost predicate Valid(batch: seq<Download>)
      reads this
    {
      && cfg.start <= cfg.limit
      && After(cfg, trace) == Some(View(batch))
      && IsHeap(ByIndex(), processQueue)
    }

    constructor (cfg: Config)
      requires cfg.start <= cfg.limit
      ensures this.cfg == cfg && Valid([]) && trace == [] && requests == Filling && queue == Waiting
    {
      this.cfg := cfg;
      downloadSlots, wire, nextIndex := map[], map[], cfg.start;
      msgQueue, finishedDls, processQueue, nextProcess, written := [], false, [], cfg.start, [];
      requests, queue, trace := Filling, Waiting, [];
    }

    // ---------- the requests thread ----------

    /** add_download: false where the source throws, which no reachable state allows. */
    method AddDownload(index: nat) returns (inserted: bool)
      modifies this`downloadSlots, this`wire
      ensures inserted <==> index !in old(downloadSlots)
      ensures inserted ==> downloadSlots == old(downloadSlots)[index := NewDownload(index)]
      ensures inserted ==> downloadSlots[index] == Download(index, "", 10)
      ensures inserted ==> wire == old(wire)[index := ""]
      ensures !inserted ==> downloadSlots == old(downloadSlots) && wire == old(wire)
    {
      inserted := index !in downloadSlots;
      if inserted {
        downloadSlots := downloadSlots[index := Download(index, "", MAX_RETRIES)];
        wire := wire[index := ""];
      }
    }

    /** fill_download_queue. */
    method FillDownloadQueue()
      requires Valid([]) && requests == Filling
      modifies this`downloadSlots, this`wire, this`nextIndex, this`requests, this`trace
      ensures Valid([]) && requests == Idle && trace == old(trace) + [Fill]
    {
      hide Inv, After, IsHeap, FillSlots;
      ghost var s := View([]);
      Reachable(cfg, trace);
      InvBounds(cfg, s);
      while |downloadSlots| != cfg.parallelMax && nextIndex != cfg.limit
        modifies this`downloadSlots, this`wire, this`nextIndex
        invariant nextIndex <= cfg.limit && Inv(cfg, View([])) && requests == Filling
        invariant FillSlots(cfg, View([])) == FillSlots(cfg, s)
        decreases cfg.limit - nextIndex
      {
        ghost var before := View([]);
        AddDownloadKeepsInv(cfg, before);
        FillContinues(cfg, before);
        var inserted := AddDownload(nextIndex);
        assert inserted;
        nextIndex := nextIndex + 1;
        assert View([]) == Protocol.AddDownload(before);
      }
      FillStops(cfg, View([]));
      AfterStep(cfg, trace, s, Fill);
      requests, trace := Idle, trace + [Fill];
    }

    /** write_data_curl_cb. */
    method WriteDataCurlCb(i: nat, bytes: string)
      requires Valid([]) && requests == Idle && i in downloadSlots && i in wire
      modifies this`downloadSlots, this`wire, this`trace
      ensures Valid([]) && trace == old(trace) + [Data(i, bytes)]
      ensures var dl := old(downloadSlots)[i];
              downloadSlots == old(downloadSlots)[i := dl.(buffer := dl.buffer + bytes)]
    {
      AfterStep(cfg, trace, View([]), Data(i, bytes));
      var dl := downloadSlots[i];
      downloadSlots := downloadSlots[i := dl.(buffer := dl.buffer + bytes)];
      wire, trace := wire[i := wire[i] + bytes], trace + [Data(i, bytes)];
    }

    /** process_curl_done_msg: into the batch, another attempt, or a throw (which loses the batch). */
    method ProcessCurlDoneMsg(done: CurlDone, batch: seq<Download>) returns (newBatch: seq<Download>, threw: bool)
      requires Valid(batch) && CanReport(View(batch), done.index)
      requires done.ok ==> wire[done.index] == cfg.server(done.index)
      modifies this`downloadSlots, this`wire, this`requests, this`trace
      ensures Valid(newBatch)
      ensures trace == old(trace) + [if done.ok then DoneOk(done.index)
                                     else if threw then HardFail(done.index) else DoneFail(done.index)]
      ensures threw <==> !done.ok && old(downloadSlots)[done.index].retriesLeft == 0
      ensures requests == if threw then Threw else Reading
      ensures done.ok ==> newBatch == batch + [old(downloadSlots)[done.index]]
      ensures forall j :: j != done.index ==> (j in downloadSlots <==> j in old(downloadSlots))
      ensures forall j :: j != done.index ==> (j in wire <==> j in old(wire))
      ensures forall j :: j != done.index && j in wire ==> wire[j] == old(wire)[j]
    {
      var i := done.index;
      var dl := downloadSlots[i];
      if done.ok {
        AfterStep(cfg, trace, View(batch), DoneOk(i));
        downloadSlots := downloadSlots - {i};
        wire, requests, trace := wire - {i}, Reading, trace + [DoneOk(i)];
        return batch + [dl], false;
      }
      if dl.retriesLeft == 0 {
        AfterStep(cfg, trace, View(batch), HardFail(i));
        requests, trace := Threw, trace + [HardFail(i)];
        return [], true;
      }
      AfterStep(cfg, trace, View(batch), DoneFail(i));
      downloadSlots := downloadSlots[i := dl.(buffer := "", retriesLeft := dl.retriesLeft - 1)];
      wire, requests, trace := wire[i := ""], Reading, trace + [DoneFail(i)];
      return batch, false;
    }

    /** enqueue_downloads_for_writing, one critical section; an empty batch is not sent. */
    method EnqueueDownloadsForWriting(batch: seq<Download>)
      requires Valid(batch) && requests == Reading
      modifies this`msgQueue, this`requests, this`trace
      ensures Valid([]) && requests == Filling && trace == old(trace) + [Flush]
    {
      AfterStep(cfg, trace, View(batch), Flush);
      if batch != [] {
        msgQueue := msgQueue + [batch];
      }
      requests, trace := Filling, trace + [Flush];
    }

    /** The loop of process_curl_messages: `messages` is the batch it puts together. */
    method ReadMessages(done: seq<CurlDone>) returns (messages: seq<Download>, threw: bool)
      requires Valid([]) && requests == Idle && queue != Failed
      requires forall k :: 0 <= k < |done| ==> done[k].index in downloadSlots && done[k].index in wire
      requires forall j, k :: 0 <= j < k < |done| ==> done[j].index != done[k].index
      requires forall k :: 0 <= k < |done| && done[k].ok ==> wire[done[k].index] == cfg.server(done[k].index)
      modifies this`downloadSlots, this`wire, this`requests, this`trace
      ensures Valid(messages)
      ensures threw ==> requests == Threw
      ensures threw ==> exists k :: 0 <= k < |done| && !done[k].ok
                                    && trace == old(trace) + Reported(done[..k]) + [HardFail(done[k].index)]
      ensures !threw ==> trace == old(trace) + Reported(done)
      ensures !threw ==> if |done| == 0 then requests == Idle && messages == [] else requests == Reading
    {
      hide After, IsHeap, Inv;
      messages, threw := [], false;
      for k := 0 to |done|
        modifies this`downloadSlots, this`wire, this`requests, this`trace
        invariant Valid(messages) && (if k == 0 then requests == Idle && messages == [] else requests == Reading)
        invariant forall j :: k <= j < |done| ==> done[j].index in downloadSlots && done[j].index in wire
        invariant forall j :: k <= j < |done| ==> wire[done[j].index] == old(wire)[done[j].index]
        invariant trace == old(trace) + Reported(done[..k]) && !threw
      {
        messages, threw := ProcessCurlDoneMsg(done[k], messages);
        if threw { return; }
        assert done[..k + 1][..k] == done[..k];
      }
      assert done[..|done|] == done;
    }

    /** process_curl_messages, for the transfers curl reports in this round, if any: each has a slot, none is reported
        twice, and a success has delivered the whole body. With none reported the slots are still as full as they can
        be, so fill_download_queue adds nothing. */
    method ProcessCurlMessages(stopRequested: bool, done: seq<CurlDone>) returns (threw: bool)
      requires Valid([]) && requests == Idle
      requires stopRequested <==> queue == Failed
      requires forall k :: 0 <= k < |done| ==> done[k].index in downloadSlots && done[k].index in wire
      requires forall j, k :: 0 <= j < k < |done| ==> done[j].index != done[k].index
      requires forall k :: 0 <= k < |done| && done[k].ok ==> wire[done[k].index] == cfg.server(done[k].index)
      modifies this`downloadSlots, this`wire, this`nextIndex, this`msgQueue, this`requests, this`trace
      ensures threw ==> exists rest :: Valid(rest) && requests == Threw
      ensures !threw ==> Valid([]) && requests == Idle
      ensures stopRequested ==> threw && trace == old(trace) + [Bail]
      ensures !stopRequested && !threw ==>
                trace == old(trace) + Reported(done) + if |done| == 0 then [] else [Flush, Fill]
      ensures !stopRequested && threw ==>
                exists k :: 0 <= k < |done| && !done[k].ok
                            && trace == old(trace) + Reported(done[..k]) + [HardFail(done[k].index)]
    {
      hide After, IsHeap, Inv, FillSlots;
      if stopRequested {
        AfterStep(cfg, trace, View([]), Bail);
        requests, trace := Threw, trace + [Bail];
        assert Valid([]);
        return true;
      }
      var messages;
      messages, threw := ReadMessages(done);
      if threw { return true; }
      if |done| == 0 {
        NothingToFill(cfg, trace, View([]));
        return false;
      }
      EnqueueDownloadsForWriting(messages);
      FillDownloadQueue();
      return false;
    }

    /** finished_downloads, after the event loop has returned. */
    method FinishedDownloads()
      requires Valid([]) && requests == Idle && downloadSlots == map[]
      modifies this`finishedDls, this`requests, this`trace
      ensures Valid([]) && requests == Finished && trace == old(trace) + [Finish]
    {
      AfterStep(cfg, trace, View([]), Finish);
      finishedDls := true;
      requests, trace := Finished, trace + [Finish];
    }

    // ---------- the queue thread ----------

    /** The critical section of service_queue: true where the thread exits normally. `batch` is whatever the requests
        thread has put together in the meantime. */
    method BringMessages(ghost batch: seq<Download>) returns (exit: bool)
      requires Valid(batch) && queue == Waiting && requests != Threw && (msgQueue != [] || finishedDls)
      modifies this`msgQueue, this`processQueue, this`queue, this`trace
      ensures Valid(batch) && trace == old(trace) + [Drain] && msgQueue == []
      ensures exit <==> queue == Exited
      ensures !exit ==> queue == Writing
    {
      hide After, IsHeap, Flatten;
      ghost var s := View(batch);
      ghost var all := s.processQueue + Flatten(msgQueue);
      while msgQueue != []
        modifies this`msgQueue, this`processQueue
        invariant IsHeap(ByIndex(), processQueue)
        invariant multiset(processQueue) + Flatten(msgQueue) == all
        decreases |msgQueue|
      {
        var msg := msgQueue[0];
        FlattenFirst(msgQueue);
        processQueue := EmplaceAll(processQueue, msg);
        msgQueue := msgQueue[1..];
      }
      FlattenNone();
      assert multiset(processQueue) == all;
      EmptyHeap(processQueue);
      exit := finishedDls && msgQueue == [] && processQueue == [];
      AfterStep(cfg, trace, s, Drain);
      queue, trace := if exit then Exited else Writing, trace + [Drain];
    }

    /** write_lines: one call of the writer per non-empty line. It accepts `capacity` more lines, then throws. */
    method WriteLines(prefix: string, body: string, capacity: nat) returns (left: nat, threw: bool)
      modifies this`written
      ensures var lines := FileLines(prefix, body);
              threw == (capacity < |lines|)
              && written == old(written) + (if threw then lines[..capacity] else lines)
              && left == (if threw then 0 else capacity - |lines|)
    {
      hide FileLines, StripCr;
      ghost var lines, done: seq<string> := FileLines(prefix, body), [];
      NoLines(prefix);
      var ss := body;
      left := capacity;
      while ss != ""
        modifies this`written
        invariant written == old(written) + done && |done| + left == capacity
        invariant lines == done + FileLines(prefix, ss)
        decreases |ss|
      {
        FirstLine(prefix, ss);
        var n := LineEnd(ss);
        var line := ss[..n];
        ss := if n < |ss| then ss[n + 1..] else "";
        if line != "" {
          var prefixedLine := StripCr(prefix + line);
          if left == 0 {
            assert lines == done + ([prefixedLine] + FileLines(prefix, ss));
            return 0, true;
          }
          written := written + [prefixedLine];
          done, left := done + [prefixedLine], left - 1;
        }
      }
      threw := false;
    }

    /** The lock-free part of service_queue: writes every file that is next in order. */
    method WriteReady(ghost batch: seq<Download>, capacity: nat) returns (threw: bool)
      requires Valid(batch) && queue == Writing
      modifies this`processQueue, this`nextProcess, this`written, this`queue, this`trace
      ensures Valid(batch) && old(trace) <= trace
      ensures queue == if threw then Failed else Waiting
      ensures !threw ==> forall d :: d in processQueue ==> d.index != nextProcess
    {
      hide After, IsHeap;
      var left := capacity;
      while processQueue != [] && processQueue[0].index == nextProcess
        modifies this`processQueue, this`nextProcess, this`written, this`queue, this`trace
        invariant Valid(batch) && queue == Writing && old(trace) <= trace
        decreases |processQueue|
      {
        left, threw := WriteTopFile(batch, left);
        if threw { return; }
      }
      NothingReady(cfg, trace, View(batch), processQueue);
      AfterStep(cfg, trace, View(batch), Rest);
      queue, trace := Waiting, trace + [Rest];
      return false;
    }

    /** One file: its lines, then off the queue; or a writer exception in the middle of it. */
    method WriteTopFile(ghost batch: seq<Download>, capacity: nat) returns (left: nat, threw: bool)
      requires Valid(batch) && queue == Writing && processQueue != [] && processQueue[0].index == nextProcess
      modifies this`processQueue, this`nextProcess, this`written, this`queue, this`trace
      ensures Valid(batch)
      ensures var top := old(processQueue)[0];
              trace == old(trace) + [if threw then WriteFails(top, capacity) else WriteTop(top)]
      ensures !threw ==> |processQueue| == |old(processQueue)| - 1
      ensures queue == if threw then Failed else Writing
    {
      hide After, IsHeap, Between, FileLines, HexPrefix, Apply, Enabled, IsTop;
      var top := processQueue[0];
      TopOfHeap(processQueue);
      ghost var s := View(batch);
      left, threw := WriteLines(HexPrefix(top.index), top.buffer, capacity);
      if threw {
        AfterWriteFails(cfg, trace, s, top, capacity);
        queue, trace := Failed, trace + [WriteFails(top, capacity)];
      } else {
        IndexOrder();
        var _, rest := Pop(ByIndex(), ProcessQueueCompare(), processQueue);
        AfterWriteTop(cfg, trace, s, top);
        assert multiset(rest) == s.processQueue - multiset{top};
        processQueue, nextProcess, trace := rest, nextProcess + 1, trace + [WriteTop(top)];
      }
    }

    /** The stop token: the waiting thread leaves without an exception of its own. */
    method StopQueue(ghost batch: seq<Download>)
      requires Valid(batch) && queue == Waiting && requests == Threw
      modifies this`queue, this`trace
      ensures Valid(batch) && queue == Stopped && trace == old(trace) + [Stop]
    {
      AfterStep(cfg, trace, View(batch), Stop);
      queue, trace := Stopped, trace + [Stop];
    }
  }

  lemma FlattenFirst(q: seq<seq<Download>>)
    requires q != []
    ensures Flatten(q) == multiset(q[0]) + Flatten(q[1..])
  {
    if |q| > 1 {
      FlattenFirst(q[..|q| - 1]);
      assert q[..|q| - 1][1..] == q[1..][..|q| - 2];
    }
  }

  lemma EmptyHeap(c: seq<Download>)
    ensures c == [] <==> multiset(c) == multiset{}
  {
  }

  lemma TopOfHeap(c: seq<Download>)
    requires IsHeap(ByIndex(), c) && c != []
    ensures IsTop(multiset(c), c[0])
  {
    IndexOrder();
    TopIsMinimumOfAll(ByIndex(), c);
    forall e | e in multiset(c) ensures c[0].index <= e.index {
      assert !ByIndex()(e, c[0]);
    }
  }

  lemma NothingReady(cfg: Config, trace: seq<Event>, s: State, c: seq<Download>)
    requires cfg.start <= cfg.limit && After(cfg, trace) == Some(s) && s.processQueue == multiset(c)
    requires IsHeap(ByIndex(), c) && (c != [] ==> c[0].index != s.nextProcess)
    ensures s.processQueue == multiset{} || exists d :: IsTop(s.processQueue, d) && d.index != s.nextProcess
    ensures forall d :: d in c ==> d.index != s.nextProcess
  {
    if c != [] {
      TopOfHeap(c);
      Reachable(cfg, trace);
      InProcessQueue(cfg, s, c[0]);
      forall d | d in c ensures d.index != s.nextProcess { assert d in multiset(c); }
    }
  }
}
