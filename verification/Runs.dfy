/** What holds of every run of the download protocol: nothing lost, order kept, and an end. */
module Runs {
  import opened Wrappers
  import opened Lines
  import opened Protocol

  // ---------- safety ----------

  /** Every index requested so far is in exactly one place: written, in a slot, or once in one of the three queues. */
  lemma Partition(cfg: Config, evs: seq<Event>, i: nat)
    requires cfg.start <= cfg.limit && After(cfg, evs).Some?
    ensures var s := After(cfg, evs).value;
      && |s.slots| <= cfg.parallelMax
      && (i < s.nextProcess || i >= s.nextIndex ==> i !in s.slots && !HasIndex(Completed(s), i))
      && (i in s.slots ==> !HasIndex(Completed(s), i))
      && (forall d, e :: d in Completed(s) && e in Completed(s) && d.index == i == e.index ==> d == e)
      && (forall d :: d in Completed(s) && d.index == i ==>
            multiset(s.batch)[d] + Flatten(s.msgQueue)[d] + s.processQueue[d] == 1)
      && (s.requests != Threw && s.nextProcess <= i < s.nextIndex ==> i in s.slots || HasIndex(Completed(s), i))
  {
    Reachable(cfg, evs);
  }

  lemma {:induction false} OutputPrefix(server: nat -> string, a: nat, b: nat, c: nat)
    requires a <= b <= c
    ensures OutputLines(server, a, b) <= OutputLines(server, a, c)
  {
    if b < c { OutputPrefix(server, a, b, c - 1); }
  }

  lemma {:induction false} OutputSplit(server: nat -> string, a: nat, b: nat, c: nat)
    requires a <= b <= c
    ensures OutputLines(server, a, c) == OutputLines(server, a, b) + OutputLines(server, b, c)
  {
    if b < c { OutputSplit(server, a, b, c - 1); }
  }

  /** At every moment of every run, aborted or not, the output is a beginning of the complete output; and it
      consists of whole files unless the writer itself failed inside one. */
  lemma WrittenInOrder(cfg: Config, evs: seq<Event>)
    requires cfg.start <= cfg.limit && After(cfg, evs).Some?
    ensures var s := After(cfg, evs).value;
      && s.written <= OutputLines(cfg.server, cfg.start, cfg.limit)
      && cfg.start <= s.nextProcess <= cfg.limit
      && (s.queue != Failed ==> s.written == OutputLines(cfg.server, cfg.start, s.nextProcess))
  {
    hide After, CompletedOk, SlotsOk, NoneLost, ControlOk, OutputLines;
    Reachable(cfg, evs);
    var s := After(cfg, evs).value;
    OutputPrefix(cfg.server, cfg.start, s.nextProcess, cfg.limit);
    if s.queue == Failed { OutputPrefix(cfg.server, cfg.start, s.nextProcess + 1, cfg.limit); }
  }

  /** run() returns normally when neither thread threw. */
  ghost predicate NormalExit(s: State) { s.requests == Finished && s.queue == Exited }

  lemma {:induction false} NoSlotsNoRequests(cfg: Config, evs: seq<Event>)
    requires cfg.start <= cfg.limit && cfg.parallelMax == 0 && After(cfg, evs).Some?
    ensures After(cfg, evs).value.nextIndex == cfg.start
  {
    if evs != [] {
      hide Inv, Enabled, Flatten, FillSlots;
      var before, e := evs[..|evs| - 1], evs[|evs| - 1];
      NoSlotsNoRequests(cfg, before);
      Reachable(cfg, before);
      NoSlotsStep(cfg, After(cfg, before).value, e);
    }
  }

  lemma NoSlotsStep(cfg: Config, s: State, e: Event)
    requires Inv(cfg, s) && Enabled(cfg, s, e) && cfg.parallelMax == 0
    ensures Apply(cfg, s, e).nextIndex == s.nextIndex
  {
    if e.Fill? { assert |s.slots| == 0; }
  }

  /** A normal exit means the whole range was written, exactly when at least one parallel request is allowed;
      the option's value is not checked, and with none allowed nothing is downloaded and nothing reported. */
  lemma NormalExitComplete(cfg: Config, evs: seq<Event>)
    requires cfg.start <= cfg.limit && After(cfg, evs).Some? && NormalExit(After(cfg, evs).value)
    ensures var all := OutputLines(cfg.server, cfg.start, cfg.limit);
      After(cfg, evs).value.written == all <==> cfg.parallelMax > 0 || all == []
  {
    Reachable(cfg, evs);
    var s := After(cfg, evs).value;
    if cfg.parallelMax == 0 {
      NoSlotsNoRequests(cfg, evs);
    } else {
      assert s.nextIndex == cfg.limit && Completed(s) == multiset{};
      assert !HasIndex(Completed(s), s.nextProcess);
    }
  }

  /** The concrete failing run: with no parallel requests allowed the program ends normally with no output. */
  lemma NoParallelRequestsExitsEmpty(cfg: Config)
    requires cfg.start <= cfg.limit && cfg.parallelMax == 0
    ensures After(cfg, [Fill, Finish, Drain]).Some?
    ensures var s := After(cfg, [Fill, Finish, Drain]).value; NormalExit(s) && s.written == []
  {
    var s0 := Init(cfg);
    assert [Fill, Finish, Drain][..2] == [Fill, Finish] && [Fill, Finish][..1] == [Fill] && [Fill][..0] == [];
    assert After(cfg, []) == Some(s0);
    assert After(cfg, [Fill]) == Some(s0.(requests := Idle));
    assert After(cfg, [Fill, Finish]) == Some(s0.(requests := Finished, finishedDls := true));
  }

  /** The bytes delivered for `i` since its last failed attempt. */
  ghost function LastAttempt(evs: seq<Event>, i: nat): string {
    if evs == [] then ""
    else
      var before, e := evs[..|evs| - 1], evs[|evs| - 1];
      if e.Data? && e.i == i then LastAttempt(before, i) + e.bytes
      else if e.DoneFail? && e.i == i then ""
      else LastAttempt(before, i)
  }

  ghost predicate BuffersAre(s: State, evs: seq<Event>) {
    && (forall i :: i in s.slots ==> s.slots[i].buffer == LastAttempt(evs, i))
    && (forall d :: d in Completed(s) ==> d.buffer == LastAttempt(evs, d.index))
    && (forall i :: i >= s.nextIndex ==> LastAttempt(evs, i) == "")
  }

  lemma {:induction false} FillOnlyAdds(cfg: Config, s: State, evs: seq<Event>)
    requires s.nextIndex <= cfg.limit && BuffersAre(s, evs)
    ensures BuffersAre(FillSlots(cfg, s).(requests := Idle), evs)
    decreases cfg.limit - s.nextIndex
  {
    if |s.slots| == cfg.parallelMax || s.nextIndex == cfg.limit {
      assert Completed(s.(requests := Idle)) == Completed(s);
    } else {
      assert Completed(AddDownload(s)) == Completed(s);
      FillOnlyAdds(cfg, AddDownload(s), evs);
    }
  }

  /** Steps that deliver no bytes and clear no buffer leave every last attempt as it was. */
  lemma SameAttempts(s: State, before: seq<Event>, e: Event)
    requires !e.Data? && !e.DoneFail? && BuffersAre(s, before)
    ensures BuffersAre(s, before + [e])
  {
  }

  /** Moving or dropping downloads does not change their buffers. */
  lemma BuffersMove(s: State, t: State, evs: seq<Event>)
    requires BuffersAre(s, evs) && t.nextIndex == s.nextIndex
    requires forall i :: i in t.slots ==> i in s.slots && t.slots[i] == s.slots[i]
    requires forall d :: d in Completed(t) ==> d in Completed(s) || (d.index in s.slots && d == s.slots[d.index])
    ensures BuffersAre(t, evs)
  {
  }

  lemma AttemptChanges(before: seq<Event>, e: Event, i: nat)
    requires e.Data? || e.DoneFail?
    ensures LastAttempt(before + [e], i) ==
      if i != e.i then LastAttempt(before, i) else if e.Data? then LastAttempt(before, i) + e.bytes else ""
  {
  }

  lemma ChangedSlotBuffers(s: State, t: State, before: seq<Event>, e: Event)
    requires BuffersAre(s, before)
    requires e.Data? || e.DoneFail?
    requires e.i in s.slots && e.i < s.nextIndex && !HasIndex(Completed(s), e.i)
    requires t.slots.Keys == s.slots.Keys && t.nextIndex == s.nextIndex && Completed(t) == Completed(s)
    requires forall i :: i in s.slots && i != e.i ==> t.slots[i] == s.slots[i]
    requires t.slots[e.i].buffer == if e.Data? then s.slots[e.i].buffer + e.bytes else ""
    ensures BuffersAre(t, before + [e])
  {
    hide Completed, LastAttempt;
    forall i { AttemptChanges(before, e, i); }
    forall d | d in Completed(s) ensures d.index != e.i { assert !(d.index == e.i); }
  }

  lemma SlotIsNotCompleted(cfg: Config, s: State, i: nat)
    requires Inv(cfg, s) && i in s.slots
    ensures i < s.nextIndex && !HasIndex(Completed(s), i) && s.slots[i].index == i
  {
  }

  lemma StepKeepsBuffers(cfg: Config, s: State, before: seq<Event>, e: Event)
    requires Inv(cfg, s) && Enabled(cfg, s, e) && BuffersAre(s, before)
    ensures BuffersAre(Apply(cfg, s, e), before + [e])
  {
    hide Inv, BuffersAre, Completed, FillSlots;
    if e.Data? || e.DoneFail? {
      SlotIsNotCompleted(cfg, s, e.i);
      assert Completed(Apply(cfg, s, e)) == Completed(s) by { CompletedSame(s, Apply(cfg, s, e)); }
      ChangedSlotBuffers(s, Apply(cfg, s, e), before, e);
    } else if e.Fill? {
      FillOnlyAdds(cfg, s, before);
      SameAttempts(Apply(cfg, s, e), before, e);
    } else {
      if e.DoneOk? { DoneOkMoves(cfg, s, e.i); } else { MoveOnly(cfg, s, e); }
      BuffersMove(s, Apply(cfg, s, e), before);
      SameAttempts(Apply(cfg, s, e), before, e);
    }
  }

  lemma CompletedSame(s: State, t: State)
    requires s.batch == t.batch && s.msgQueue == t.msgQueue && s.processQueue == t.processQueue
    ensures Completed(t) == Completed(s)
  {
  }

  lemma DoneOkMoves(cfg: Config, s: State, i: nat)
    requires Inv(cfg, s) && i in s.slots
    ensures forall d :: d in Completed(Batched(s, i)) ==>
              d in Completed(s) || (d.index in s.slots && d == s.slots[d.index])
  {
  }

  /** The steps that only move downloads between the queues, or take them out. */
  lemma MoveOnly(cfg: Config, s: State, e: Event)
    requires Enabled(cfg, s, e) && !e.Data? && !e.DoneFail? && !e.Fill? && !e.DoneOk?
    ensures var t := Apply(cfg, s, e);
      && t.nextIndex == s.nextIndex && t.slots == s.slots
      && (forall d :: d in Completed(t) ==> d in Completed(s))
  {
    hide FileLines, HexPrefix, FillSlots, Completed;
    if e.Flush? {
      FlushMovesBatch(s);
    } else if e.Drain? {
      DrainMovesMessages(s);
    } else if e.WriteTop? {
      WriteTakesOne(s, e.top);
    } else if e.HardFail? {
      FailLosesBatch(s);
    } else {
      CompletedSame(s, Apply(cfg, s, e));
    }
  }

  lemma WriteTakesOne(s: State, top: Download)
    ensures forall d :: d in Completed(Wrote(s, top)) ==> d in Completed(s)
  {
    hide FileLines, HexPrefix, Flatten;
  }

  lemma FailLosesBatch(s: State)
    ensures forall d :: d in Completed(s.(requests := Threw, batch := [])) ==> d in Completed(s)
  {
    hide Flatten;
  }

  /** Every buffer is exactly the bytes of that download's last attempt; what failed attempts delivered is gone. */
  lemma {:induction false} BufferIsLastAttempt(cfg: Config, evs: seq<Event>)
    requires cfg.start <= cfg.limit && After(cfg, evs).Some?
    ensures BuffersAre(After(cfg, evs).value, evs)
  {
    if evs == [] {
      assert Completed(Init(cfg)) == multiset{};
    } else {
      var before, e := evs[..|evs| - 1], evs[|evs| - 1];
      assert evs == before + [e];
      BufferIsLastAttempt(cfg, before);
      Reachable(cfg, before);
      StepKeepsBuffers(cfg, After(cfg, before).value, before, e);
    }
  }

  // ---------- termination ----------

  /** What the transfers in slots may still cost: one unit per retry left and some for completing. */
  ghost function SlotWeight(slots: map<nat, Download>, lo: nat, hi: nat): nat
    requires lo <= hi
    decreases hi - lo
  {
    if lo == hi then 0
    else (if lo in slots then 10 + 3 * slots[lo].retriesLeft else 0) + SlotWeight(slots, lo + 1, hi)
  }

  ghost function RequestsWeight(r: Requests): nat {
    match r case Idle => 6 case Reading => 8 case Filling => 7 case Finished => 0 case Threw => 0
  }

  ghost function QueueWeight(s: State): nat {
    match s.queue
    case Writing => 2
    case Waiting => if s.finishedDls && s.msgQueue == [] && s.processQueue != multiset{} then 3 else 1
    case _ => 0
  }

  /** Decreases with every step other than the arrival of bytes. */
  ghost function Measure(cfg: Config, s: State): nat
    requires cfg.start <= s.nextIndex <= cfg.limit
  {
    41 * (cfg.limit - s.nextIndex) + SlotWeight(s.slots, cfg.start, cfg.limit)
    + 6 * |s.batch| + 5 * |Flatten(s.msgQueue)| + 3 * |s.processQueue|
    + RequestsWeight(s.requests) + QueueWeight(s)
  }

  lemma {:induction false} SlotWeightChange(slots: map<nat, Download>, other: map<nat, Download>, lo: nat, hi: nat,
      i: nat)
    requires lo <= hi && forall k :: k != i ==> (k in slots <==> k in other) && (k in slots ==> slots[k] == other[k])
    ensures SlotWeight(other, lo, hi) + (if lo <= i < hi && i in slots then 10 + 3 * slots[i].retriesLeft else 0)
         == SlotWeight(slots, lo, hi) + (if lo <= i < hi && i in other then 10 + 3 * other[i].retriesLeft else 0)
    decreases hi - lo
  {
    if lo < hi { SlotWeightChange(slots, other, lo + 1, hi, i); }
  }

  /** The weight of one transfer. */
  ghost function Cost(slots: map<nat, Download>, i: nat): nat {
    if i in slots then 10 + 3 * slots[i].retriesLeft else 0
  }

  lemma SetSlotWeight(slots: map<nat, Download>, lo: nat, hi: nat, i: nat, d: Download)
    requires lo <= i < hi
    ensures SlotWeight(slots[i := d], lo, hi) + Cost(slots, i) == SlotWeight(slots, lo, hi) + 10 + 3 * d.retriesLeft
  {
    SlotWeightChange(slots, slots[i := d], lo, hi, i);
  }

  lemma RemoveSlotWeight(slots: map<nat, Download>, lo: nat, hi: nat, i: nat)
    requires lo <= i < hi
    ensures SlotWeight(slots - {i}, lo, hi) + Cost(slots, i) == SlotWeight(slots, lo, hi)
  {
    SlotWeightChange(slots, slots - {i}, lo, hi, i);
  }

  /** What the measure's lemmas need to know about a slot. */
  lemma SlotInRange(cfg: Config, s: State, i: nat)
    requires Inv(cfg, s)
    ensures i in s.slots ==> cfg.start <= i < cfg.limit && s.slots[i].retriesLeft <= MAX_RETRIES
    ensures cfg.start <= s.nextIndex <= cfg.limit
    ensures s.nextIndex !in s.slots
    ensures s.requests != Reading ==> s.batch == []
    ensures s.finishedDls <==> s.requests == Finished
  {
  }

  lemma AddDownloadWeight(cfg: Config, s: State)
    requires Inv(cfg, s) && s.nextIndex < cfg.limit
    ensures Measure(cfg, AddDownload(s)) <= Measure(cfg, s)
  {
    hide SlotWeight, Inv, Flatten;
    SlotInRange(cfg, s, s.nextIndex);
    SetSlotWeight(s.slots, cfg.start, cfg.limit, s.nextIndex, NewDownload(s.nextIndex));
  }

  lemma {:induction false} FillWeight(cfg: Config, s: State)
    requires Inv(cfg, s) && s.requests == Filling
    ensures cfg.start <= FillSlots(cfg, s).nextIndex <= cfg.limit
    ensures Measure(cfg, FillSlots(cfg, s).(requests := Idle)) < Measure(cfg, s)
    decreases cfg.limit - s.nextIndex
  {
    hide Inv, SlotWeight, Flatten;
    SlotInRange(cfg, s, 0);
    if |s.slots| == cfg.parallelMax || s.nextIndex == cfg.limit {
    } else {
      AddDownloadKeepsInv(cfg, s);
      AddDownloadWeight(cfg, s);
      FillWeight(cfg, AddDownload(s));
    }
  }

  lemma StepDecreases(cfg: Config, s: State, e: Event)
    requires Inv(cfg, s) && Enabled(cfg, s, e) && !e.Data?
    ensures Inv(cfg, Apply(cfg, s, e)) && Measure(cfg, Apply(cfg, s, e)) < Measure(cfg, s)
  {
    StepKeepsInv(cfg, s, e);
    if e.Fill? {
      FillWeight(cfg, s);
    } else if e.DoneOk? || e.DoneFail? || e.HardFail? || e.Flush? || e.Finish? || e.Bail? {
      RequestsStepDecreases(cfg, s, e);
    } else {
      QueueStepDecreases(cfg, s, e);
    }
  }

  lemma RequestsStepDecreases(cfg: Config, s: State, e: Event)
    requires Inv(cfg, s) && Enabled(cfg, s, e)
    requires e.DoneOk? || e.DoneFail? || e.HardFail? || e.Flush? || e.Finish? || e.Bail?
    ensures Apply(cfg, s, e).nextIndex == s.nextIndex
    ensures Measure(cfg, Apply(cfg, s, e)) < Measure(cfg, s)
  {
    hide Inv, SlotWeight;
    SlotInRange(cfg, s, 0);
    if e.DoneOk? {
      DoneOkDecreases(cfg, s, e.i);
    } else if e.DoneFail? {
      DoneFailDecreases(cfg, s, e.i);
    } else if e.Flush? {
      FlushDecreases(cfg, s);
    } else {
      hide Flatten;
    }
  }

  lemma FlushDecreases(cfg: Config, s: State)
    requires Inv(cfg, s) && s.requests == Reading
    ensures Measure(cfg, Flushed(s)) < Measure(cfg, s)
  {
    hide Inv, SlotWeight;
    SlotInRange(cfg, s, 0);
    if s.batch != [] {
      assert |Flatten(s.msgQueue + [s.batch])| == |Flatten(s.msgQueue)| + |s.batch| by {
        FlattenAppend(s.msgQueue, s.batch);
      }
    }
    hide Flatten;
  }

  lemma DoneFailDecreases(cfg: Config, s: State, i: nat)
    requires Inv(cfg, s) && CanReport(s, i) && s.slots[i].retriesLeft > 0
    ensures Measure(cfg, Retried(s, i)) < Measure(cfg, s)
  {
    hide Inv, SlotWeight, Flatten;
    SlotInRange(cfg, s, i);
    SetSlotWeight(s.slots, cfg.start, cfg.limit, i, Retried(s, i).slots[i]);
  }

  lemma DoneOkDecreases(cfg: Config, s: State, i: nat)
    requires Inv(cfg, s) && CanReport(s, i)
    ensures Measure(cfg, Batched(s, i)) < Measure(cfg, s)
  {
    hide Inv, SlotWeight, Flatten;
    SlotInRange(cfg, s, i);
    RemoveSlotWeight(s.slots, cfg.start, cfg.limit, i);
  }

  lemma QueueStepDecreases(cfg: Config, s: State, e: Event)
    requires Inv(cfg, s) && Enabled(cfg, s, e)
    requires e.Drain? || e.WriteTop? || e.WriteFails? || e.Rest? || e.Stop?
    ensures Apply(cfg, s, e).nextIndex == s.nextIndex
    ensures Measure(cfg, Apply(cfg, s, e)) < Measure(cfg, s)
  {
    hide NoneLost, WrittenOk, CompletedOk, OutputLines, SlotsOk, SlotWeight;
    match e
    case Drain => DrainDecreases(cfg, s);
    case Rest => RestMeansWaiting(cfg, s);
    case _ =>
  }

  lemma DrainDecreases(cfg: Config, s: State)
    requires Inv(cfg, s) && Enabled(cfg, s, Drain)
    ensures Measure(cfg, Drained(s)) < Measure(cfg, s)
  {
  }

  /** The queue thread never goes back to waiting with a gap: after the last download it has everything that is left. */
  lemma RestMeansWaiting(cfg: Config, s: State)
    requires Inv(cfg, s) && Enabled(cfg, s, Rest)
    ensures s.finishedDls && s.msgQueue == [] ==> s.processQueue == multiset{}
  {
    if s.processQueue != multiset{} {
      var d :| IsTop(s.processQueue, d) && d.index != s.nextProcess;
      InProcessQueue(cfg, s, d);
      assert !HasIndex(s.processQueue, s.nextProcess);
      assert s.batch == [] && s.msgQueue == [] ==> Completed(s) == s.processQueue;
    }
  }

  lemma DataKeepsMeasure(cfg: Config, s: State, i: nat, bytes: string)
    requires Inv(cfg, s) && Enabled(cfg, s, Data(i, bytes))
    ensures Measure(cfg, Received(s, i, bytes)) == Measure(cfg, s)
  {
    hide Inv, SlotWeight, Flatten;
    SlotInRange(cfg, s, i);
    SetSlotWeight(s.slots, cfg.start, cfg.limit, i, Received(s, i, bytes).slots[i]);
  }

  ghost function Steps(evs: seq<Event>): nat {
    if evs == [] then 0 else Steps(evs[..|evs| - 1]) + (if evs[|evs| - 1].Data? then 0 else 1)
  }

  lemma {:induction false} SlotWeightEmpty(lo: nat, hi: nat)
    requires lo <= hi
    ensures SlotWeight(map[], lo, hi) == 0
    decreases hi - lo
  {
    if lo < hi { SlotWeightEmpty(lo + 1, hi); }
  }

  /** Every run is finite: bytes apart, it takes at most 41 steps per file and 8 more. */
  lemma {:induction false} RunsAreBounded(cfg: Config, evs: seq<Event>)
    requires cfg.start <= cfg.limit && After(cfg, evs).Some?
    ensures var s := After(cfg, evs).value;
      && cfg.start <= s.nextIndex <= cfg.limit
      && Steps(evs) + Measure(cfg, s) <= 41 * (cfg.limit - cfg.start) + 8
  {
    Reachable(cfg, evs);
    if evs == [] {
      SlotWeightEmpty(cfg.start, cfg.limit);
    } else {
      var before, e := evs[..|evs| - 1], evs[|evs| - 1];
      RunsAreBounded(cfg, before);
      Reachable(cfg, before);
      var s := After(cfg, before).value;
      if e.Data? { DataKeepsMeasure(cfg, s, e.i, e.bytes); } else { StepDecreases(cfg, s, e); }
    }
  }

  /** Both threads have ended. */
  ghost predicate Ended(s: State) {
    && (s.requests == Finished || s.requests == Threw)
    && (s.queue == Exited || s.queue == Stopped || s.queue == Failed)
  }

  lemma SomeTop(q: multiset<Download>, candidates: set<Download>) returns (d: Download)
    requires candidates != {} && forall c :: c in candidates ==> c in q
    ensures d in candidates && forall c :: c in candidates ==> d.index <= c.index
    decreases |candidates|
  {
    d :| d in candidates;
    if candidates != {d} {
      var rest := candidates - {d};
      var e := SomeTop(q, rest);
      if e.index <= d.index {
        forall c | c in candidates ensures e.index <= c.index { assert c == d || c in rest; }
        d := e;
      } else {
        forall c | c in candidates ensures d.index <= c.index { assert c == d || c in rest; }
      }
    }
  }

  /** No deadlock: as long as a thread is alive, some step is possible (given that the network eventually
      reports on every transfer). */
  lemma Progress(cfg: Config, s: State) returns (e: Event)
    requires Inv(cfg, s) && !Ended(s)
    ensures Enabled(cfg, s, e) && !e.Data?
  {
    hide NoneLost, WrittenOk, CompletedOk, Apply, IsTop;
    if s.requests == Reading {
      e := Flush;
    } else if s.requests == Filling {
      e := Fill;
    } else if s.requests == Idle {
      if s.slots == map[] {
        e := Finish;
      } else if s.queue == Failed {
        e := Bail;
      } else {
        var i :| i in s.slots;
        e := if s.slots[i].retriesLeft > 0 then DoneFail(i) else HardFail(i);
      }
    } else if s.queue == Waiting {
      e := if s.requests == Threw then Stop else Drain;
    } else {
      e := WritingCanGoOn(cfg, s);
    }
  }

  lemma WritingCanGoOn(cfg: Config, s: State) returns (e: Event)
    requires s.queue == Writing
    ensures Enabled(cfg, s, e) && !e.Data?
  {
    if s.processQueue == multiset{} {
      e := Rest;
    } else {
      var some :| some in s.processQueue;
      var candidates := set x | x in s.processQueue;
      assert some in candidates;
      var d := SomeTop(s.processQueue, candidates);
      assert IsTop(s.processQueue, d);
      e := if d.index == s.nextProcess then WriteTop(d) else Rest;
    }
  }

  /** A run that can go no further has ended both threads: normally with everything written, or in an abort
      with a beginning of it. */
  lemma MaximalRuns(cfg: Config, evs: seq<Event>)
    requires cfg.start <= cfg.limit && After(cfg, evs).Some?
    requires forall e: Event :: Enabled(cfg, After(cfg, evs).value, e) ==> e.Data?
    ensures var s := After(cfg, evs).value;
      && Ended(s)
      && (NormalExit(s) <==> s.requests == Finished && s.queue != Failed)
      && (NormalExit(s) && cfg.parallelMax > 0 ==> s.written == OutputLines(cfg.server, cfg.start, cfg.limit))
  {
    Reachable(cfg, evs);
    var s := After(cfg, evs).value;
    if !Ended(s) { var e := Progress(cfg, s); }
    StoppedMeansThrew(cfg, evs);
    if NormalExit(s) { NormalExitComplete(cfg, evs); }
  }

  lemma {:induction false} StoppedMeansThrew(cfg: Config, evs: seq<Event>)
    requires cfg.start <= cfg.limit && After(cfg, evs).Some?
    ensures After(cfg, evs).value.queue == Stopped ==> After(cfg, evs).value.requests == Threw
  {
    if evs != [] {
      StoppedMeansThrew(cfg, evs[..|evs| - 1]);
      StoppedStep(cfg, After(cfg, evs[..|evs| - 1]).value, evs[|evs| - 1]);
    }
  }

  lemma StoppedStep(cfg: Config, s: State, e: Event)
    requires Enabled(cfg, s, e) && (s.queue == Stopped ==> s.requests == Threw)
    ensures Apply(cfg, s, e).queue == Stopped ==> Apply(cfg, s, e).requests == Threw
  {
    if e.Fill? { FillKeepsThreads(cfg, s); }
  }

  lemma {:induction false} FillKeepsThreads(cfg: Config, s: State)
    requires s.nextIndex <= cfg.limit
    ensures FillSlots(cfg, s).queue == s.queue
    decreases cfg.limit - s.nextIndex
  {
    if |s.slots| != cfg.parallelMax && s.nextIndex != cfg.limit { FillKeepsThreads(cfg, AddDownload(s)); }
  }

  // ---------- retries ----------

  ghost function Failures(evs: seq<Event>, i: nat): nat {
    if evs == [] then 0
    else
      var e := evs[|evs| - 1];
      Failures(evs[..|evs| - 1], i) + (if (e.DoneFail? || e.HardFail?) && e.i == i then 1 else 0)
  }

  ghost predicate FailuresCounted(s: State, evs: seq<Event>, i: nat) {
    && (i >= s.nextIndex ==> Failures(evs, i) == 0)
    && (i in s.slots && s.requests != Threw ==> Failures(evs, i) + s.slots[i].retriesLeft == MAX_RETRIES)
    && (s.requests != Threw ==> Failures(evs, i) <= MAX_RETRIES)
    && Failures(evs, i) <= MAX_RETRIES + 1
  }

  lemma {:induction false} FillCounts(cfg: Config, s: State, evs: seq<Event>, i: nat)
    requires s.nextIndex <= cfg.limit && s.requests == Filling && FailuresCounted(s, evs, i)
    ensures FailuresCounted(FillSlots(cfg, s).(requests := Idle), evs, i)
    decreases cfg.limit - s.nextIndex
  {
    if |s.slots| == cfg.parallelMax || s.nextIndex == cfg.limit {
    } else {
      FillCounts(cfg, AddDownload(s), evs, i);
    }
  }

  lemma StepCounts(cfg: Config, s: State, before: seq<Event>, e: Event, i: nat)
    requires Inv(cfg, s) && Enabled(cfg, s, e) && FailuresCounted(s, before, i)
    ensures FailuresCounted(Apply(cfg, s, e), before + [e], i)
  {
    hide NoneLost, WrittenOk, CompletedOk, OutputLines, ControlOk, FillSlots;
    assert (before + [e])[..|before|] == before;
    match e
    case Fill => FillCounts(cfg, s, before, i);
    case _ =>
  }

  lemma {:induction false} FailuresAreCounted(cfg: Config, evs: seq<Event>, i: nat)
    requires cfg.start <= cfg.limit && After(cfg, evs).Some?
    ensures FailuresCounted(After(cfg, evs).value, evs, i)
  {
    if evs != [] {
      hide Inv, Enabled, Apply;
      var before, e := evs[..|evs| - 1], evs[|evs| - 1];
      assert evs == before + [e];
      FailuresAreCounted(cfg, before, i);
      Reachable(cfg, before);
      StepCounts(cfg, After(cfg, before).value, before, e, i);
    }
  }

  /** Ten retries: a transfer that can be reported on can fail and be tried again exactly if it has failed less than ten
      times, and it can stop the program exactly if it has failed ten times. So no index fails more than eleven times,
      and the eleventh failure stops the program. */
  lemma AtMostElevenAttempts(cfg: Config, evs: seq<Event>, i: nat)
    requires cfg.start <= cfg.limit && After(cfg, evs).Some?
    ensures var s := After(cfg, evs).value;
      && (CanReport(s, i) ==> (Enabled(cfg, s, DoneFail(i)) <==> Failures(evs, i) < 10))
      && (CanReport(s, i) ==> (Enabled(cfg, s, HardFail(i)) <==> Failures(evs, i) == 10))
      && (s.requests != Threw ==> Failures(evs, i) <= 10) && Failures(evs, i) <= 11
  {
    FailuresAreCounted(cfg, evs, i);
  }
}
