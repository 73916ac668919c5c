/** run_diff of src/diffutils.cpp on the files themselves: with windows, iterators and their cached pointers. */
module DiffFiles {
  import opened Codec
  import opened FlatFile
  import opened Diff
  import opened DiffSeen

  // ---------- the loop, with its iterators ----------

  /** Two iterators into two files. */
  ghost predicate Apart(itOld: ConstIterator<Pw>, itNew: ConstIterator<Pw>)
    reads itOld, itNew
  {
    itOld != itNew && itOld.ffdb != itNew.ffdb && itOld.ffdb.buf != itNew.ffdb.buf
  }

  ghost predicate BothValid(itOld: ConstIterator<Pw>, itNew: ConstIterator<Pw>)
    reads itOld, itOld.ffdb, itOld.ffdb.buf, itNew, itNew.ffdb, itNew.ffdb.buf
  {
    && Apart(itOld, itNew) && itOld.Valid() && itNew.Valid()
    && itOld.pos <= |itOld.ffdb.file| && itNew.pos <= |itNew.ffdb.file|
  }

  ghost predicate InRange(itOld: ConstIterator<Pw>, itNew: ConstIterator<Pw>)
    reads itOld, itNew
  {
    itOld.pos < |itOld.ffdb.file| && itNew.pos < |itNew.ffdb.file|
  }

  /** Positions up to which the records are dealt with: after an insert, the old record is known to equal the next
      new one, and its iterator still has its pointer. */
  ghost function Reached(itOld: ConstIterator<Pw>, itNew: ConstIterator<Pw>): (nat, nat)
    reads itOld, itNew
  {
    if itOld.curValid then (itOld.pos + 1, itNew.pos + 1) else (itOld.pos, itNew.pos)
  }

  /** Before std::mismatch. The windows matter only as far as a pointer can still be looked past. */
  ghost predicate AtHead(caches: bool, itOld: ConstIterator<Pw>, itNew: ConstIterator<Pw>)
    reads itOld, itOld.ffdb, itOld.ffdb.buf, itNew, itNew.ffdb, itNew.ffdb.buf
  {
    && BothValid(itOld, itNew) && !itNew.curValid
    && (itOld.curValid ==> InRange(itOld, itNew) && Shown(itOld) == itNew.ffdb.file[itNew.pos])
    && (caches ==> Ready(itNew) && if itOld.curValid then LookedPast(itOld) else Ready(itOld))
    && (!caches && Reached(itOld, itNew).0 + 1 < |itOld.ffdb.file| ==> Ready(itNew))
  }

  /** Behind std::mismatch, at a difference. */
  ghost predicate AtDifference(caches: bool, itOld: ConstIterator<Pw>, itNew: ConstIterator<Pw>)
    reads itOld, itOld.ffdb, itOld.ffdb.buf, itNew, itNew.ffdb, itNew.ffdb.buf
  {
    && BothValid(itOld, itNew) && InRange(itOld, itNew)
    && (if caches then Cached(itOld) && Cached(itNew)
        else !itOld.curValid && !itNew.curValid && (itOld.pos + 1 < |itOld.ffdb.file| ==> Ready(itNew)))
  }

  /** The two dereferences of a comparison in std::mismatch. */
  method ReadBoth(caches: bool, itOld: ConstIterator<Pw>, itNew: ConstIterator<Pw>) returns (o: Pw, n: Pw)
    requires AtHead(caches, itOld, itNew) && InRange(itOld, itNew)
    modifies itOld, itOld.ffdb, itOld.ffdb.buf, itNew, itNew.ffdb, itNew.ffdb.buf
    ensures BothValid(itOld, itNew) && itOld.pos == old(itOld.pos) && itNew.pos == old(itNew.pos)
    ensures o == old(Shown(itOld)) && n == old(Shown(itNew))
    ensures itOld.curValid == (caches || old(itOld.curValid)) && itNew.curValid == caches
    ensures caches ==> Cached(itNew) && if old(itOld.curValid) then LookedPast(itOld) else Cached(itOld)
    ensures !caches && old(Ready(itNew)) ==> Ready(itNew) && itNew.pos < itNew.ffdb.bufEnd
  {
    hide Ready, Cached, LookedPast, Shown;
    if caches {
      o := Read(itOld);
      n := Read(itNew);
    } else {
      o := ReadCopy(itOld);
      n := ReadCopy(itNew);
    }
  }

  /** One comparison of std::mismatch, and the step to the next pair if it finds no difference. */
  method Compare(caches: bool, itOld: ConstIterator<Pw>, itNew: ConstIterator<Pw>) returns (same: bool)
    requires AtHead(caches, itOld, itNew) && InRange(itOld, itNew)
    modifies itOld, itOld.ffdb, itOld.ffdb.buf, itNew, itNew.ffdb, itNew.ffdb.buf
    ensures var k := if same then 1 else 0; itOld.pos == old(itOld.pos) + k && itNew.pos == old(itNew.pos) + k
    ensures same == (old(itOld.curValid) || itOld.ffdb.file[old(itOld.pos)] == itNew.ffdb.file[old(itNew.pos)])
    ensures BothValid(itOld, itNew) && (same ==> Reached(itOld, itNew) == (itOld.pos, itNew.pos))
    ensures if same then AtHead(caches, itOld, itNew) else AtDifference(caches, itOld, itNew)
  {
    hide Ready, Cached, LookedPast;
    var o, n := ReadBoth(caches, itOld, itNew);
    same := o == n;
    if same {
      Next(itOld);
      Next(itNew);
      FreshHead(caches, itOld, itNew);
    }
  }

  lemma MismatchOnce(old_: seq<Pw>, new_: seq<Pw>, i: nat, j: nat)
    requires i < |old_| && j < |new_|
    ensures MismatchSpec(old_, new_, i, j)
         == if old_[i] == new_[j] then MismatchSpec(old_, new_, i + 1, j + 1) else (i, j)
  {
  }

  /** The same, as a step of std::mismatch. */
  method MismatchStep(caches: bool, itOld: ConstIterator<Pw>, itNew: ConstIterator<Pw>) returns (same: bool)
    requires AtHead(caches, itOld, itNew) && InRange(itOld, itNew)
    modifies itOld, itOld.ffdb, itOld.ffdb.buf, itNew, itNew.ffdb, itNew.ffdb.buf
    ensures itNew.pos == old(itNew.pos) + if same then 1 else 0
    ensures if same then AtHead(caches, itOld, itNew) else AtDifference(caches, itOld, itNew)
    ensures ReachedMismatch(itOld, itNew, !same) == old(ReachedMismatch(itOld, itNew, false))
  {
    HeadFacts(caches, itOld, itNew);
    hide AtHead, AtDifference, Reached, MismatchSpec;
    MismatchOnce(itOld.ffdb.file, itNew.ffdb.file, itOld.pos, itNew.pos);
    same := Compare(caches, itOld, itNew);
  }

  /** Where the next difference is, or the end of a database. */
  ghost function ReachedMismatch(itOld: ConstIterator<Pw>, itNew: ConstIterator<Pw>, found: bool): (nat, nat)
    reads itOld, itNew
  {
    var (i, j) := Reached(itOld, itNew);
    if found then (itOld.pos, itNew.pos)
    else if i <= |itOld.ffdb.file| && j <= |itNew.ffdb.file| then MismatchSpec(itOld.ffdb.file, itNew.ffdb.file, i, j)
    else (i, j)
  }

  /** std::mismatch, on the iterators it returns or on copies. */
  method MismatchOn(caches: bool, itOld: ConstIterator<Pw>, itNew: ConstIterator<Pw>)
    requires AtHead(caches, itOld, itNew)
    modifies itOld, itOld.ffdb, itOld.ffdb.buf, itNew, itNew.ffdb, itNew.ffdb.buf
    ensures BothValid(itOld, itNew) && itNew.pos >= old(itNew.pos)
    ensures var (i, j) := old(Reached(itOld, itNew));
            i <= |itOld.ffdb.file| && j <= |itNew.ffdb.file|
            && (itOld.pos, itNew.pos) == MismatchSpec(itOld.ffdb.file, itNew.ffdb.file, i, j)
    ensures if InRange(itOld, itNew) then AtDifference(caches, itOld, itNew) else !itNew.curValid
  {
    HeadFacts(caches, itOld, itNew);
    ghost var difference, j0 := ReachedMismatch(itOld, itNew, false), itNew.pos;
    assert var (i, j) := Reached(itOld, itNew); difference == MismatchSpec(itOld.ffdb.file, itNew.ffdb.file, i, j);
    hide AtHead, AtDifference, ReachedMismatch, Reached, MismatchSpec;
    var same := true;
    while same && itOld.pos != |itOld.ffdb.file| && itNew.pos != |itNew.ffdb.file|
      invariant itNew.pos >= j0
      invariant if same then AtHead(caches, itOld, itNew) else AtDifference(caches, itOld, itNew)
      invariant ReachedMismatch(itOld, itNew, !same) == difference
      decreases same, |itNew.ffdb.file| - itNew.pos
    {
      HeadFacts(caches, itOld, itNew);
      same := MismatchStep(caches, itOld, itNew);
    }
    if same {
      HeadFacts(caches, itOld, itNew);
      MismatchEnds(itOld.ffdb.file, itNew.ffdb.file, itOld.pos, itNew.pos);
      assert ReachedMismatch(itOld, itNew, false) == (itOld.pos, itNew.pos) by { AtTheEnd(itOld, itNew); }
    } else {
      DifferenceFacts(caches, itOld, itNew);
    }
    assert difference == (itOld.pos, itNew.pos) by { FoundMismatch(itOld, itNew); }
  }

  lemma FoundMismatch(itOld: ConstIterator<Pw>, itNew: ConstIterator<Pw>)
    ensures ReachedMismatch(itOld, itNew, true) == (itOld.pos, itNew.pos)
  {
  }

  lemma AtTheEnd(itOld: ConstIterator<Pw>, itNew: ConstIterator<Pw>)
    requires itOld.pos <= |itOld.ffdb.file| && itNew.pos <= |itNew.ffdb.file|
    requires !InRange(itOld, itNew) && !itOld.curValid
    ensures ReachedMismatch(itOld, itNew, false) == (itOld.pos, itNew.pos)
  {
  }

  lemma HeadFacts(caches: bool, itOld: ConstIterator<Pw>, itNew: ConstIterator<Pw>)
    requires AtHead(caches, itOld, itNew)
    ensures BothValid(itOld, itNew) && !itNew.curValid && (itOld.curValid ==> InRange(itOld, itNew))
    ensures Reached(itOld, itNew).0 <= |itOld.ffdb.file| && Reached(itOld, itNew).1 <= |itNew.ffdb.file|
    ensures Reached(itOld, itNew) == if itOld.curValid then (itOld.pos + 1, itNew.pos + 1) else (itOld.pos, itNew.pos)
  {
  }

  lemma DifferenceFacts(caches: bool, itOld: ConstIterator<Pw>, itNew: ConstIterator<Pw>)
    requires AtDifference(caches, itOld, itNew)
    ensures BothValid(itOld, itNew) && InRange(itOld, itNew)
  {
  }

  /** "Deletion from OLD": OLD's next record against the new one. */
  method DeletionTest(caches: bool, itOld: ConstIterator<Pw>, itNew: ConstIterator<Pw>) returns (deletion: bool)
    requires AtDifference(caches, itOld, itNew)
    modifies itOld, itOld.ffdb, itOld.ffdb.buf, itNew, itNew.ffdb, itNew.ffdb.buf
    ensures BothValid(itOld, itNew) && InRange(itOld, itNew)
    ensures itOld.pos == old(itOld.pos) && itNew.pos == old(itNew.pos)
    ensures var i, old_ := itOld.pos, itOld.ffdb.file;
            deletion == (i + 1 < |old_| && old_[i + 1] == itNew.ffdb.file[itNew.pos])
    ensures if caches then LookedPast(itOld) && Cached(itNew)
            else !itOld.curValid && if itOld.pos + 1 < |itOld.ffdb.file| then Cached(itNew) else !itNew.curValid
  {
    hide Ready, LookedPast;
    CachedIsReady(itNew);
    var nextOld := PeekNext(itOld);
    if nextOld.None? { return false; }
    var n := Read(itNew);
    deletion := nextOld.value == n;
  }

  /** The insert test: the old record against NEW's next. Both pointers may be off from here on. */
  method InsertTest(caches: bool, itOld: ConstIterator<Pw>, itNew: ConstIterator<Pw>, ghost w: Windows)
    returns (inserted: bool)
    requires BothValid(itOld, itNew) && InRange(itOld, itNew)
    requires w == Windows(itOld.ffdb.buf.Length, itNew.ffdb.buf.Length, caches)
    requires if caches then LookedPast(itOld) && Cached(itNew)
             else !itOld.curValid && if itOld.pos + 1 < |itOld.ffdb.file| then Cached(itNew) else !itNew.curValid
    modifies itOld, itOld.ffdb, itOld.ffdb.buf, itNew, itNew.ffdb, itNew.ffdb.buf
    ensures BothValid(itOld, itNew) && InRange(itOld, itNew)
    ensures itOld.pos == old(itOld.pos) && itNew.pos == old(itNew.pos)
    ensures Shown(itOld) == SeenOld(w, itOld.ffdb.file, itOld.pos)
    ensures Shown(itNew) == SeenNew(w, itOld.ffdb.file, itNew.ffdb.file, itOld.pos, itNew.pos)
    ensures var j, new_ := itNew.pos, itNew.ffdb.file;
            inserted == (j + 1 < |new_| && Shown(itOld) == new_[j + 1])
    ensures inserted || caches ==> itOld.curValid
    ensures caches ==> LookedPast(itOld)
    ensures caches || itOld.pos + 1 < |itOld.ffdb.file| ==> LookedPast(itNew) && itNew.curValid
  {
    hide Cached, Ready;
    var nextNew := PeekNext(itNew);
    if nextNew.None? { return false; }
    var o := Read(itOld);
    inserted := o == nextNew.value;
  }

  /** An insert: the new iterator goes on, the old one stays, with its pointer. */
  method ConcludeInsert(caches: bool, itOld: ConstIterator<Pw>, itNew: ConstIterator<Pw>) returns (n: Pw)
    requires BothValid(itOld, itNew) && InRange(itOld, itNew) && itOld.curValid
    requires itNew.pos + 1 < |itNew.ffdb.file| && Shown(itOld) == itNew.ffdb.file[itNew.pos + 1]
    requires caches ==> LookedPast(itOld)
    requires caches || itOld.pos + 1 < |itOld.ffdb.file| ==> LookedPast(itNew) && itNew.curValid
    modifies itNew, itNew.ffdb, itNew.ffdb.buf
    ensures n == old(Shown(itNew)) && AtHead(caches, itOld, itNew) && itNew.pos == old(itNew.pos) + 1
  {
    hide Ready, Cached, LookedPast;
    n := Read(itNew);
    Next(itNew);
  }

  /** Otherwise an update, or the refusal to replace a record. */
  method ConcludeUpdate(caches: bool, itOld: ConstIterator<Pw>, itNew: ConstIterator<Pw>) returns (o: Pw, n: Pw)
    requires BothValid(itOld, itNew) && InRange(itOld, itNew)
    requires caches ==> LookedPast(itOld) && itOld.curValid
    requires caches || itOld.pos + 1 < |itOld.ffdb.file| ==> LookedPast(itNew) && itNew.curValid
    modifies itOld, itOld.ffdb, itOld.ffdb.buf, itNew, itNew.ffdb, itNew.ffdb.buf
    ensures o == old(Shown(itOld)) && n == old(Shown(itNew))
    ensures SameHash(o, n) ==> AtHead(caches, itOld, itNew) && !itOld.curValid
    ensures SameHash(o, n) ==> itOld.pos == old(itOld.pos) + 1 && itNew.pos == old(itNew.pos) + 1
  {
    hide Ready, Cached, LookedPast, Shown, AtHead;
    o := Read(itOld);
    n := Read(itNew);
    if SameHash(o, n) { NextBoth(caches, itOld, itNew); }
  }

  method NextBoth(caches: bool, itOld: ConstIterator<Pw>, itNew: ConstIterator<Pw>)
    requires BothValid(itOld, itNew) && InRange(itOld, itNew)
    requires caches ==> LookedPast(itOld)
    requires caches || itOld.pos + 1 < |itOld.ffdb.file| ==> LookedPast(itNew)
    modifies itOld, itNew
    ensures AtHead(caches, itOld, itNew) && !itOld.curValid
    ensures itOld.pos == old(itOld.pos) + 1 && itNew.pos == old(itNew.pos) + 1
  {
    hide Ready, Cached, LookedPast, AtHead;
    Next(itOld);
    Next(itNew);
    FreshHead(caches, itOld, itNew);
  }

  lemma FreshHead(caches: bool, itOld: ConstIterator<Pw>, itNew: ConstIterator<Pw>)
    requires BothValid(itOld, itNew) && !itOld.curValid && !itNew.curValid
    requires caches ==> Ready(itOld) && Ready(itNew)
    requires itOld.pos + 1 < |itOld.ffdb.file| ==> Ready(itNew)
    ensures AtHead(caches, itOld, itNew)
  {
  }

  /** The insert test and what follows. */
  method InsertOrUpdateOn(caches: bool, itOld: ConstIterator<Pw>, itNew: ConstIterator<Pw>, ghost w: Windows)
    returns (r: Outcome)
    requires BothValid(itOld, itNew) && InRange(itOld, itNew)
    requires w == Windows(itOld.ffdb.buf.Length, itNew.ffdb.buf.Length, caches)
    requires if caches then LookedPast(itOld) && Cached(itNew)
             else !itOld.curValid && if itOld.pos + 1 < |itOld.ffdb.file| then Cached(itNew) else !itNew.curValid
    modifies itOld, itOld.ffdb, itOld.ffdb.buf, itNew, itNew.ffdb, itNew.ffdb.buf
    ensures r == InsertOrUpdate(w, itOld.ffdb.file, itNew.ffdb.file, old(itOld.pos), old(itNew.pos))
    ensures r.Emit? ==> AtHead(caches, itOld, itNew) && itNew.pos == old(itNew.pos) + 1
    ensures r.Emit? ==> var k := if r.hunk.kind == Insert then 2 else 1;
                        Reached(itOld, itNew) == (old(itOld.pos) + 1, old(itNew.pos) + k)
  {
    hide AtHead, LookedPast, Cached, SeenOld, SeenNew, Shown;
    var i := itOld.pos;
    var inserted := InsertTest(caches, itOld, itNew, w);
    if inserted {
      var n := ConcludeInsert(caches, itOld, itNew);
      return Emit(Hunk(Insert, i, n));
    }
    var o, n := ConcludeUpdate(caches, itOld, itNew);
    return if SameHash(o, n) then Emit(Hunk(Update, i, n)) else Stop(Replacement);
  }

  /** The loop body behind std::mismatch. */
  method RoundOn(caches: bool, itOld: ConstIterator<Pw>, itNew: ConstIterator<Pw>, ghost w: Windows)
    returns (r: Outcome)
    requires AtDifference(caches, itOld, itNew)
    requires w == Windows(itOld.ffdb.buf.Length, itNew.ffdb.buf.Length, caches)
    modifies itOld, itOld.ffdb, itOld.ffdb.buf, itNew, itNew.ffdb, itNew.ffdb.buf
    ensures r == RoundAt(w, itOld.ffdb.file, itNew.ffdb.file, old(itOld.pos), old(itNew.pos))
    ensures r.Emit? ==> AtHead(caches, itOld, itNew) && itNew.pos > old(itNew.pos)
    ensures r.Emit? ==> var k := if r.hunk.kind == Insert then 2 else 1;
                        Reached(itOld, itNew) == (old(itOld.pos) + 1, old(itNew.pos) + k)
  {
    DifferenceFacts(caches, itOld, itNew);
    hide AtHead, AtDifference, Reached, LookedPast, Cached, InsertOrUpdate;
    var deletion := DeletionTest(caches, itOld, itNew);
    if deletion { return Stop(DeletionFromOld); }
    r := InsertOrUpdateOn(caches, itOld, itNew, w);
  }

  /** The inner loop, once the old database is at its end. */
  method InsertRestOn(itNew: ConstIterator<Pw>, pos: nat) returns (hunks: seq<Hunk>)
    requires itNew.Valid() && itNew.pos <= |itNew.ffdb.file| && !itNew.curValid
    modifies itNew, itNew.ffdb, itNew.ffdb.buf
    ensures hunks == Inserts(itNew.ffdb.file[old(itNew.pos)..], pos)
  {
    hunks := [];
    ghost var rest := itNew.ffdb.file[itNew.pos..];
    while itNew.pos != |itNew.ffdb.file|
      invariant itNew.Valid() && old(itNew.pos) <= itNew.pos <= |itNew.ffdb.file| && !itNew.curValid
      invariant hunks == Inserts(rest, pos)[..itNew.pos - old(itNew.pos)]
      decreases |itNew.ffdb.file| - itNew.pos
    {
      var r := itNew.Deref();
      hunks := hunks + [Hunk(Insert, pos, r.value)];
      itNew.SetPos(itNew.pos + 1);
    }
  }

  datatype Step = Finished(result: DiffResult) | Continues(hunk: Hunk)

  /** The loop body: the rest of the result, or the next hunk of it. */
  method LoopBody(caches: bool, itOld: ConstIterator<Pw>, itNew: ConstIterator<Pw>, ghost w: Windows) returns (s: Step)
    requires AtHead(caches, itOld, itNew)
    requires w == Windows(itOld.ffdb.buf.Length, itNew.ffdb.buf.Length, caches)
    modifies itOld, itOld.ffdb, itOld.ffdb.buf, itNew, itNew.ffdb, itNew.ffdb.buf
    ensures s.Continues? ==> AtHead(caches, itOld, itNew) && itNew.pos > old(itNew.pos)
    ensures s.Continues? ==>
              Reached(itOld, itNew).0 <= |itOld.ffdb.file| && Reached(itOld, itNew).1 <= |itNew.ffdb.file|
    ensures var old_, new_ := itOld.ffdb.file, itNew.ffdb.file; var (i, j) := old(Reached(itOld, itNew));
            i <= |old_| && j <= |new_| && FilesDiff(w, old_, new_, i, j) ==
              match s
              case Finished(r) => r
              case Continues(h) =>
                Prepend(h, FilesDiff(w, old_, new_, Reached(itOld, itNew).0, Reached(itOld, itNew).1))
  {
    hide AtHead, AtDifference, Reached, MismatchSpec, RoundAt;
    MismatchOn(caches, itOld, itNew);
    if itOld.pos == |itOld.ffdb.file| {
      var rest := InsertRestOn(itNew, itOld.pos);
      return Finished(Hunks(rest));
    }
    if itNew.pos == |itNew.ffdb.file| { return Finished(Refused(NewWasShorter)); }
    var outcome := RoundOn(caches, itOld, itNew, w);
    s := match outcome case Stop(e) => Finished(Refused(e)) case Emit(h) => Continues(h);
  }

  /** run_diff. */
  method RunDiffOn(dbOld: Database<Pw>, dbNew: Database<Pw>, caches: bool) returns (r: DiffResult)
    requires dbOld.Valid() && dbNew.Valid() && dbOld.bufEnd == 0 == dbNew.bufEnd // just opened
    requires dbOld != dbNew && dbOld.buf != dbNew.buf
    modifies dbOld, dbOld.buf, dbNew, dbNew.buf
    ensures r == FilesDiff(Windows(dbOld.buf.Length, dbNew.buf.Length, caches), dbOld.file, dbNew.file, 0, 0)
  {
    var itOld := new ConstIterator<Pw>(dbOld, 0);
    var itNew := new ConstIterator<Pw>(dbNew, 0);
    ghost var old_, new_ := dbOld.file, dbNew.file;
    ghost var w := Windows(dbOld.buf.Length, dbNew.buf.Length, caches);
    var diff: seq<Hunk> := [];
    hide AtHead, Reached, FilesDiff;
    ghost var i, j := 0, 0;
    Starts(caches, itOld, itNew);
    NoHunksYet(FilesDiff(w, old_, new_, 0, 0));
    while true
      invariant AtHead(caches, itOld, itNew) && fresh(itOld) && fresh(itNew)
      invariant itOld.ffdb == dbOld && itNew.ffdb == dbNew
      invariant Reached(itOld, itNew) == (i, j) && i <= |old_| && j <= |new_|
      invariant PrependAll(diff, FilesDiff(w, old_, new_, i, j)) == FilesDiff(w, old_, new_, 0, 0)
      decreases |new_| - itNew.pos
    {
      var step := LoopBody(caches, itOld, itNew, w);
      if step.Finished? {
        return match step.result case Hunks(rest) => Hunks(diff + rest) case Refused(e) => Refused(e);
      }
      i, j := Reached(itOld, itNew).0, Reached(itOld, itNew).1;
      Reassociate(diff, step.hunk, FilesDiff(w, old_, new_, i, j));
      diff := diff + [step.hunk];
    }
  }

  lemma Starts(caches: bool, itOld: ConstIterator<Pw>, itNew: ConstIterator<Pw>)
    requires itOld.Valid() && itNew.Valid() && Apart(itOld, itNew)
    requires itOld.pos == 0 == itNew.pos && !itOld.curValid && !itNew.curValid
    requires itOld.ffdb.bufEnd == 0 == itNew.ffdb.bufEnd
    ensures AtHead(caches, itOld, itNew) && Reached(itOld, itNew) == (0, 0)
  {
  }
}
