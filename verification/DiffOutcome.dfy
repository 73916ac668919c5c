/** Where run_diff of src/diffutils.cpp does not produce a diff: whether it refuses or finishes with wrong hunks.

    `DiffSeen.IsADiffIff` says when a diff comes out. `FinishesIff` says for which sorted databases the program finishes
    at all, so that it refuses all the others. */
module DiffOutcome {
  import opened Arithmetic
  import opened Codec
  import opened FlatFile
  import opened Diff
  import opened DiffSeen

  /** Both files are opened with windows of one size, of at least two records. (Where std::mismatch dereferences copies
      the size of OLD's makes no difference.) */
  predicate AsOpened(w: Windows) {
    w.sizeNew >= 2 && (w.caches ==> w.sizeOld == w.sizeNew)
  }

  // ---------- when the program finishes ----------

  /** Both pointers are off, and the records they show have one hash. */
  predicate Passes(w: Windows, old_: seq<Pw>, new_: seq<Pw>, i: nat, j: nat)
    requires i < |old_| && j < |new_|
  {
    && OffOld(w, old_, i) && OffNew(w, old_, new_, i, j)
    && SameHash(old_[i + w.sizeOld], new_[j + w.sizeNew])
  }

  /** OLD ends here, and the record the new pointer shows has the hash of its last one. */
  predicate PassesAtEnd(w: Windows, old_: seq<Pw>, new_: seq<Pw>, i: nat, j: nat)
    requires i < |old_| && j < |new_|
  {
    && i + 1 == |old_| && OffNew(w, old_, new_, i, j)
    && SameHash(old_[i], new_[j + w.sizeNew])
  }

  /** A condition on the rounds of the intended diff. An insert needs an old pointer that is not off; an update, no
      pointer that is off or two that show one hash. A replacement gets through, though it is to be refused, if both
      are off and show one hash, or if OLD ends there and the new one shows the old hash. */
  ghost predicate Finishes(w: Windows, old_: seq<Pw>, new_: seq<Pw>, i: nat, j: nat)
    requires i <= |old_| && j <= |new_|
    decreases |new_| - j
  {
    var (i', j') := MismatchSpec(old_, new_, i, j);
    i' < |old_| ==>
      && j' < |new_|
      && match Decide(old_, new_, i', j')
         case EmitInsert => !OffOld(w, old_, i') && Finishes(w, old_, new_, i' + 1, j' + 2)
         case EmitUpdate =>
           && (!Off(w, old_, new_, i', j') || Passes(w, old_, new_, i', j'))
           && Finishes(w, old_, new_, i' + 1, j' + 1)
         case Throw(Replacement) =>
           || PassesAtEnd(w, old_, new_, i', j')
           || (Passes(w, old_, new_, i', j') && Finishes(w, old_, new_, i' + 1, j' + 1))
         case Throw(_) => false
  }

  /** The round at (i, j) emits a hunk, and the program then finishes. */
  ghost predicate GoesOn(w: Windows, old_: seq<Pw>, new_: seq<Pw>, i: nat, j: nat)
    requires i < |old_| && j < |new_|
  {
    match RoundAt(w, old_, new_, i, j)
    case Stop(_) => false
    case Emit(h) => FilesDiff(w, old_, new_, i + 1, if h.kind == Insert then j + 2 else j + 1).Hunks?
  }

  lemma FinishesRound(w: Windows, old_: seq<Pw>, new_: seq<Pw>, i: nat, j: nat)
    requires i <= |old_| && j <= |new_|
    ensures var (i', j') := MismatchSpec(old_, new_, i, j);
      FilesDiff(w, old_, new_, i, j).Hunks? <==> i' < |old_| ==> j' < |new_| && GoesOn(w, old_, new_, i', j')
  {
    hide MismatchSpec, RoundAt;
  }

  /** Equal hashes come in the same order in two sorted databases. */
  lemma NoCrossing(old_: seq<Pw>, new_: seq<Pw>, i: nat, j: nat, k: nat, m: nat)
    requires StrictlyAscending(old_) && StrictlyAscending(new_)
    requires i < |old_| && k < |old_| && j < |new_| && m < |new_|
    requires SameHash(old_[i], new_[j]) && SameHash(old_[k], new_[m])
    ensures i < k <==> j < m
  {
    IndexOrder(old_, i, k);
    IndexOrder(new_, j, m);
  }

  /** Within the window behind, no record is the last. */
  lemma NotLastAgain(s: seq<Pw>, pos: nat, size: Size, k: nat)
    requires LastOfWindow(s, pos, size) && 0 < k < size
    ensures pos + size < |s| && !LastOfWindow(s, pos + k, size)
  {
    var q := pos / size;
    assert pos + k == size * q + size - 1 + k == size * (q + 1) + (k - 1);
    ModIs(pos + k, size, q + 1, k - 1);
  }

  /** The old hash does not occur in the rest of NEW: refused, whatever the new pointer shows. */
  lemma GoneStops(w: Windows, old_: seq<Pw>, new_: seq<Pw>, i: nat, j: nat)
    requires i < |old_| && j <= |new_| && !OffOld(w, old_, i)
    requires forall k :: j <= k < |new_| ==> !SameHash(old_[i], new_[k])
    ensures FilesDiff(w, old_, new_, i, j).Refused?
  {
    MismatchEnds(old_, new_, i, j);
  }

  /** Neither of the next two new hashes occurs in the rest of OLD: refused, whatever the old pointer shows. */
  lemma TwoNewStop(w: Windows, old_: seq<Pw>, new_: seq<Pw>, i: nat, j: nat)
    requires i < |old_| && j + 1 < |new_| && !OffNew(w, old_, new_, i, j)
    requires forall k :: i <= k < |old_| ==> !SameHash(old_[k], new_[j]) && !SameHash(old_[k], new_[j + 1])
    ensures FilesDiff(w, old_, new_, i, j).Refused?
  {
    MismatchEnds(old_, new_, i, j);
  }

  lemma SkipSeen(w: Windows, old_: seq<Pw>, new_: seq<Pw>, i: nat, j: nat)
    requires i < |old_| && j < |new_| && old_[i] == new_[j]
    ensures FilesDiff(w, old_, new_, i, j) == FilesDiff(w, old_, new_, i + 1, j + 1)
  {
  }

  /** A round without a pointer being off, at (i, j). */
  lemma RightStep(w: Windows, old_: seq<Pw>, new_: seq<Pw>, i: nat, j: nat)
    requires i < |old_| && j < |new_| && old_[i] != new_[j] && !Off(w, old_, new_, i, j)
    ensures FilesDiff(w, old_, new_, i, j).Refused? <==>
      match Decide(old_, new_, i, j)
      case Throw(_) => true
      case EmitInsert => FilesDiff(w, old_, new_, i + 1, j + 2).Refused?
      case EmitUpdate => FilesDiff(w, old_, new_, i + 1, j + 1).Refused?
  {
    hide Off, RoundAt, Decide;
    MismatchEnds(old_, new_, i, j);
    RightRound(w, old_, new_, i, j);
  }

  ghost predicate NoneLast(s: seq<Pw>, from: nat, to: nat, size: Size) {
    forall a :: from <= a < to ==> !LastOfWindow(s, a, size)
  }

  /** `k` and `m` are positions of one hash, and there are more old records before it than new ones. */
  lemma {:induction false} TooFewStop(w: Windows, old_: seq<Pw>, new_: seq<Pw>, i: nat, j: nat, k: nat, m: nat)
    requires StrictlyAscending(old_) && StrictlyAscending(new_)
    requires i <= k < |old_| && j <= m < |new_| && k - i > m - j && SameHash(old_[k], new_[m])
    requires NoneLast(old_, i, k, w.sizeOld) && NoneLast(new_, j, m, w.sizeNew)
    ensures FilesDiff(w, old_, new_, i, j).Refused?
    decreases m - j
  {
    hide StrictlyAscending, PwLess, LastOfWindow, FilesDiff;
    if j == m {
      forall b | m <= b < |new_| ensures !SameHash(old_[i], new_[b]) {
        if SameHash(old_[i], new_[b]) { NoCrossing(old_, new_, i, b, k, m); }
      }
      GoneStops(w, old_, new_, i, j);
    } else if old_[i] == new_[j] {
      SkipSeen(w, old_, new_, i, j);
      TooFewStop(w, old_, new_, i + 1, j + 1, k, m);
    } else {
      if old_[i] == new_[m] { NoCrossing(old_, new_, i, m, k, m); }
      RightStep(w, old_, new_, i, j);
      match Decide(old_, new_, i, j)
      case Throw(_) =>
      case EmitInsert => TooFewStop(w, old_, new_, i + 1, j + 2, k, m);
      case EmitUpdate => TooFewStop(w, old_, new_, i + 1, j + 1, k, m);
    }
  }

  /** An old pointer that is off shows the hash of new_[m], and the loop goes on behind old_[i] and new_[m]. */
  lemma OldTooFar(w: Windows, old_: seq<Pw>, new_: seq<Pw>, i: nat, m: nat)
    requires StrictlyAscending(old_) && StrictlyAscending(new_) && w.sizeOld >= 2
    requires i < |old_| && m < |new_| && OffOld(w, old_, i) && SameHash(old_[i + w.sizeOld], new_[m])
    ensures FilesDiff(w, old_, new_, i + 1, m + 1).Refused?
  {
    hide StrictlyAscending, PwLess, LastOfWindow, FilesDiff;
    NotLastAgain(old_, i, w.sizeOld, 1);
    forall b | m + 1 <= b < |new_| ensures !SameHash(old_[i + 1], new_[b]) {
      if SameHash(old_[i + 1], new_[b]) { NoCrossing(old_, new_, i + 1, b, i + w.sizeOld, m); }
    }
    GoneStops(w, old_, new_, i + 1, m + 1);
  }

  /** A new pointer that is off shows the hash of old_[i]. */
  lemma NewTooFar(w: Windows, old_: seq<Pw>, new_: seq<Pw>, i: nat, j: nat)
    requires StrictlyAscending(old_) && StrictlyAscending(new_) && w.sizeNew >= 2
    requires i + 1 < |old_| && j < |new_| && OffNew(w, old_, new_, i, j) && SameHash(old_[i], new_[j + w.sizeNew])
    ensures FilesDiff(w, old_, new_, i + 1, j + 1).Refused?
  {
    hide StrictlyAscending, PwLess, LastOfWindow, FilesDiff;
    NotLastAgain(new_, j, w.sizeNew, 1);
    forall k | i + 1 <= k < |old_| ensures !SameHash(old_[k], new_[j + 1]) && !SameHash(old_[k], new_[j + 2]) {
      if SameHash(old_[k], new_[j + 1]) { NoCrossing(old_, new_, i, j + w.sizeNew, k, j + 1); }
      if SameHash(old_[k], new_[j + 2]) { NoCrossing(old_, new_, i, j + w.sizeNew, k, j + 2); }
    }
    TwoNewStop(w, old_, new_, i + 1, j + 1);
  }

  // ---------- one round ----------

  lemma InsertRound(w: Windows, old_: seq<Pw>, new_: seq<Pw>, i: nat, j: nat)
    requires AsOpened(w) && StrictlyAscending(old_) && StrictlyAscending(new_)
    requires i < |old_| && j < |new_| && old_[i] != new_[j] && Decide(old_, new_, i, j) == EmitInsert
    ensures GoesOn(w, old_, new_, i, j) <==> !OffOld(w, old_, i) && FilesDiff(w, old_, new_, i + 1, j + 2).Hunks?
  {
    hide StrictlyAscending, PwLess, FilesDiff, LastOfWindow;
    if OffOld(w, old_, i) {
      NotLastAgain(old_, i, w.sizeOld, 1);
      FurtherOn(old_, i, i + w.sizeOld);
      FurtherOn(new_, j, j + 1);
      if Passes(w, old_, new_, i, j) { CrossedUpdate(w, old_, new_, i, j); }
      else if SameHash(old_[i + w.sizeOld], new_[j]) { NoCrossing(old_, new_, i, j + 1, i + w.sizeOld, j); }
    }
  }

  /** Where an insert was due, both pointers are off and show one hash: the update goes out, and the loop is behind
      old_[i] before new_[j + 1], its equal. */
  lemma CrossedUpdate(w: Windows, old_: seq<Pw>, new_: seq<Pw>, i: nat, j: nat)
    requires AsOpened(w) && StrictlyAscending(old_) && StrictlyAscending(new_)
    requires i < |old_| && j + 1 < |new_| && old_[i] == new_[j + 1] && Passes(w, old_, new_, i, j)
    ensures FilesDiff(w, old_, new_, i + 1, j + 1).Refused?
  {
    var size := w.sizeNew;
    hide StrictlyAscending, PwLess, FilesDiff, LastOfWindow, GoesOn, Decide;
    NotLastAgain(old_, i, size, 1);
    NotLastAgain(new_, j, size, 1);
    WindowBehind(old_, i, size);
    WindowBehind(new_, j, size);
    BehindCrossed(w, old_, new_, i + 1, j + 1, i + size, j + size);
  }

  lemma WindowBehind(s: seq<Pw>, pos: nat, size: Size)
    requires LastOfWindow(s, pos, size)
    ensures NoneLast(s, pos + 1, pos + size, size)
  {
    forall a | pos + 1 <= a < pos + size ensures !LastOfWindow(s, a, size) { NotLastAgain(s, pos, size, a - pos); }
  }

  /** new_[j] has the hash of the old record just dealt with: an insert in front of old_[i], or a refusal. */
  lemma BehindCrossed(w: Windows, old_: seq<Pw>, new_: seq<Pw>, i: nat, j: nat, k: nat, m: nat)
    requires StrictlyAscending(old_) && StrictlyAscending(new_)
    requires 0 < i < k < |old_| && j < m < |new_| && k - i == m - j
    requires SameHash(old_[k], new_[m]) && SameHash(old_[i - 1], new_[j])
    requires NoneLast(old_, i, k, w.sizeOld) && NoneLast(new_, j, m, w.sizeNew)
    ensures FilesDiff(w, old_, new_, i, j).Refused?
  {
    hide StrictlyAscending, PwLess, LastOfWindow, FilesDiff;
    FurtherOn(old_, i - 1, i);
    RightStep(w, old_, new_, i, j);
    if Decide(old_, new_, i, j) == EmitInsert {
      NoCrossing(old_, new_, i, j + 1, k, m);
      TooFewStop(w, old_, new_, i + 1, j + 2, k, m);
    }
  }

  lemma UpdateRound(w: Windows, old_: seq<Pw>, new_: seq<Pw>, i: nat, j: nat)
    requires AsOpened(w) && StrictlyAscending(old_) && StrictlyAscending(new_)
    requires i < |old_| && j < |new_| && old_[i] != new_[j] && Decide(old_, new_, i, j) == EmitUpdate
    ensures GoesOn(w, old_, new_, i, j) <==>
      && (!Off(w, old_, new_, i, j) || Passes(w, old_, new_, i, j))
      && FilesDiff(w, old_, new_, i + 1, j + 1).Hunks?
  {
    hide StrictlyAscending, PwLess, FilesDiff, LastOfWindow;
    OffInsertStops(w, old_, new_, i, j);
    if OffOld(w, old_, i) { NotLastAgain(old_, i, w.sizeOld, 1); FurtherOn(old_, i, i + w.sizeOld); }
    if OffNew(w, old_, new_, i, j) { NotLastAgain(new_, j, w.sizeNew, 1); FurtherOn(new_, j, j + w.sizeNew); }
  }

  /** An old pointer that is off shows new_[j + 1]: an insert goes out, and too much of NEW is behind the loop. */
  lemma OffInsertStops(w: Windows, old_: seq<Pw>, new_: seq<Pw>, i: nat, j: nat)
    requires AsOpened(w) && StrictlyAscending(old_) && StrictlyAscending(new_)
    requires i < |old_| && j < |new_|
    ensures OffOld(w, old_, i) && j + 1 < |new_| && old_[i + w.sizeOld] == new_[j + 1] ==>
              !Passes(w, old_, new_, i, j) && FilesDiff(w, old_, new_, i + 1, j + 2).Refused?
  {
    hide StrictlyAscending, PwLess, FilesDiff;
    if OffOld(w, old_, i) && j + 1 < |new_| && old_[i + w.sizeOld] == new_[j + 1] {
      OldTooFar(w, old_, new_, i, j + 1);
      if OffNew(w, old_, new_, i, j) { FurtherOn(new_, j + 1, j + w.sizeNew); }
    }
  }

  lemma ReplacementRound(w: Windows, old_: seq<Pw>, new_: seq<Pw>, i: nat, j: nat)
    requires AsOpened(w) && StrictlyAscending(old_) && StrictlyAscending(new_)
    requires i < |old_| && j < |new_| && old_[i] != new_[j] && Decide(old_, new_, i, j) == Throw(Replacement)
    ensures GoesOn(w, old_, new_, i, j) <==>
      || PassesAtEnd(w, old_, new_, i, j)
      || (Passes(w, old_, new_, i, j) && FilesDiff(w, old_, new_, i + 1, j + 1).Hunks?)
  {
    hide StrictlyAscending, PwLess, FilesDiff, RoundAt, Decide;
    RefusingRound(w, old_, new_, i, j);
    if OffOld(w, old_, i) {
      OffInsertStops(w, old_, new_, i, j);
      if !OffNew(w, old_, new_, i, j) && SameHash(old_[i + w.sizeOld], new_[j]) { OldTooFar(w, old_, new_, i, j); }
    } else if OffNew(w, old_, new_, i, j) && SameHash(old_[i], new_[j + w.sizeNew]) {
      if i + 1 < |old_| { NewTooFar(w, old_, new_, i, j); } else { AtEndFinishes(w, old_, new_, j + 1); }
    }
  }

  /** What a round that should refuse to replace a record emits instead, when a pointer is off and a record one window
      further on passes for what is missing. */
  lemma RefusingRound(w: Windows, old_: seq<Pw>, new_: seq<Pw>, i: nat, j: nat)
    requires i < |old_| && j < |new_| && Decide(old_, new_, i, j) == Throw(Replacement)
    ensures RoundAt(w, old_, new_, i, j) ==
      if OffOld(w, old_, i) && j + 1 < |new_| && old_[i + w.sizeOld] == new_[j + 1]
      then Emit(Hunk(Insert, i, SeenNew(w, old_, new_, i, j)))
      else if Off(w, old_, new_, i, j) && SameHash(SeenOld(w, old_, i), SeenNew(w, old_, new_, i, j))
      then Emit(Hunk(Update, i, SeenNew(w, old_, new_, i, j)))
      else Stop(Replacement)
  {
  }

  lemma DeletionRound(w: Windows, old_: seq<Pw>, new_: seq<Pw>, i: nat, j: nat)
    requires i < |old_| && j < |new_| && Decide(old_, new_, i, j).Throw?
    ensures Decide(old_, new_, i, j) != Throw(Replacement) ==> !GoesOn(w, old_, new_, i, j)
  {
    DeletionStops(w, old_, new_, i, j);
  }

  lemma AtEndFinishes(w: Windows, old_: seq<Pw>, new_: seq<Pw>, j: nat)
    requires j <= |new_|
    ensures FilesDiff(w, old_, new_, |old_|, j).Hunks?
  {
  }

  /** For sorted databases and windows as they are opened: the program finishes, from any pair of positions on, if and
      only if `Finishes` says so of the rounds of the intended diff; otherwise it refuses. */
  lemma {:induction false} FinishesIff(w: Windows, old_: seq<Pw>, new_: seq<Pw>, i: nat, j: nat)
    requires AsOpened(w) && StrictlyAscending(old_) && StrictlyAscending(new_) && i <= |old_| && j <= |new_|
    ensures FilesDiff(w, old_, new_, i, j).Hunks? <==> Finishes(w, old_, new_, i, j)
    decreases |new_| - j
  {
    hide StrictlyAscending, MismatchSpec, FilesDiff, GoesOn, AsOpened, Off, OffOld, Passes, PassesAtEnd;
    var (i', j') := MismatchSpec(old_, new_, i, j);
    FinishesRound(w, old_, new_, i, j);
    if i' < |old_| && j' < |new_| {
      match Decide(old_, new_, i', j')
      case EmitInsert =>
        InsertRound(w, old_, new_, i', j');
        FinishesIff(w, old_, new_, i' + 1, j' + 2);
      case EmitUpdate =>
        UpdateRound(w, old_, new_, i', j');
        FinishesIff(w, old_, new_, i' + 1, j' + 1);
      case Throw(Replacement) =>
        ReplacementRound(w, old_, new_, i', j');
        FinishesIff(w, old_, new_, i' + 1, j' + 1);
      case Throw(_) =>
        DeletionRound(w, old_, new_, i', j');
    }
  }

  /** The whole program finishes with hunks that do not turn OLD into NEW if and only if its rounds let it finish and
      the intended diff is a refusal or has a hunk where a pointer is off. */
  lemma WrongHunksIff(w: Windows, old_: seq<Pw>, new_: seq<Pw>)
    requires AsOpened(w) && StrictlyAscending(old_) && StrictlyAscending(new_)
    ensures var r, d := FilesDiff(w, old_, new_, 0, 0), DiffFrom(old_, new_, 0, 0);
      r.Hunks? && Patch(old_, 0, r.hunks) != new_ <==>
        Finishes(w, old_, new_, 0, 0) && (d.Hunks? ==> !AllSafe(w, old_, new_, d.hunks))
  {
    hide *;
    FinishesIff(w, old_, new_, 0, 0);
    IsADiffIff(w, old_, new_);
  }

  // ---------- where std::mismatch dereferences copies ----------

  ghost predicate UpdatesSafe(w: Windows, old_: seq<Pw>, new_: seq<Pw>, hunks: seq<Hunk>) {
    forall k :: 0 <= k < |hunks| && hunks[k].kind == Update ==> Safe(w, old_, new_, hunks[k])
  }

  lemma UpdatesSafePrepend(w: Windows, old_: seq<Pw>, new_: seq<Pw>, h: Hunk, r: DiffResult)
    ensures var d := Prepend(h, r);
      d.Hunks? && UpdatesSafe(w, old_, new_, d.hunks) <==>
        r.Hunks? && (h.kind == Update ==> Safe(w, old_, new_, h)) && UpdatesSafe(w, old_, new_, r.hunks)
  {
    hide Safe;
    if r.Hunks? {
      forall k | 0 <= k < |r.hunks| ensures ([h] + r.hunks)[k + 1] == r.hunks[k] { }
      if UpdatesSafe(w, old_, new_, [h] + r.hunks) {
        assert ([h] + r.hunks)[0] == h;
      }
    }
  }

  lemma NothingPasses(w: Windows, old_: seq<Pw>, new_: seq<Pw>, i: nat, j: nat)
    requires !w.caches && i < |old_| && j < |new_|
    ensures !OffOld(w, old_, i) && !Passes(w, old_, new_, i, j) && !PassesAtEnd(w, old_, new_, i, j)
  {
  }

  lemma {:induction false} FinishesWithCopies(w: Windows, old_: seq<Pw>, new_: seq<Pw>, i: nat, j: nat)
    requires !w.caches && StrictlyAscending(new_) && i <= |old_| && j <= |new_|
    ensures var d := DiffFrom(old_, new_, i, j);
      Finishes(w, old_, new_, i, j) <==> d.Hunks? && UpdatesSafe(w, old_, new_, d.hunks)
    decreases |new_| - j
  {
    hide MismatchSpec, StrictlyAscending, OffNew, OffOld, Off, Safe;
    var (i', j') := MismatchSpec(old_, new_, i, j);
    if i' < |old_| && j' < |new_| {
      IntendedRound(old_, new_, i, j);
      NothingPasses(w, old_, new_, i', j');
      hide DiffFrom, UpdatesSafe, Passes, PassesAtEnd, Prepend;
      match Decide(old_, new_, i', j')
      case Throw(_) =>
      case EmitInsert =>
        FinishesWithCopies(w, old_, new_, i' + 1, j' + 2);
        UpdatesSafePrepend(w, old_, new_, Hunk(Insert, i', new_[j']), DiffFrom(old_, new_, i' + 1, j' + 2));
      case EmitUpdate =>
        FinishesWithCopies(w, old_, new_, i' + 1, j' + 1);
        SafeIffNotOff(w, old_, new_, i', j', Update);
        UpdatesSafePrepend(w, old_, new_, Hunk(Update, i', new_[j']), DiffFrom(old_, new_, i' + 1, j' + 1));
    }
  }

  /** Then, from any pair of positions on, the program finishes if and only if the intended diff exists and none of its
      updates lies where a pointer is off. What is to be refused is refused. */
  lemma WithCopiesFinishesIff(w: Windows, old_: seq<Pw>, new_: seq<Pw>, i: nat, j: nat)
    requires !w.caches && w.sizeNew >= 2
    requires StrictlyAscending(old_) && StrictlyAscending(new_) && i <= |old_| && j <= |new_|
    ensures var d := DiffFrom(old_, new_, i, j);
      FilesDiff(w, old_, new_, i, j).Hunks? <==> d.Hunks? && UpdatesSafe(w, old_, new_, d.hunks)
  {
    hide StrictlyAscending, FilesDiff, DiffFrom, UpdatesSafe, Finishes;
    FinishesIff(w, old_, new_, i, j);
    FinishesWithCopies(w, old_, new_, i, j);
  }

  /** And its hunks are wrong if and only if, besides, one of the inserts does. */
  lemma WrongWithCopiesIff(w: Windows, old_: seq<Pw>, new_: seq<Pw>)
    requires !w.caches && w.sizeNew >= 2 && StrictlyAscending(old_) && StrictlyAscending(new_)
    ensures var r, d := FilesDiff(w, old_, new_, 0, 0), DiffFrom(old_, new_, 0, 0);
      r.Hunks? && Patch(old_, 0, r.hunks) != new_ <==>
        && d.Hunks? && UpdatesSafe(w, old_, new_, d.hunks)
        && exists k :: 0 <= k < |d.hunks| && d.hunks[k].kind == Insert && !Safe(w, old_, new_, d.hunks[k])
  {
    hide StrictlyAscending, FilesDiff, DiffFrom, Safe, Patch;
    WithCopiesFinishesIff(w, old_, new_, 0, 0);
    IsADiffIff(w, old_, new_);
  }

  // ---------- one new record ----------

  lemma {:induction false} SameUpTo(old_: seq<Pw>, new_: seq<Pw>, i: nat, j: nat, k: nat)
    requires i + k <= |old_| && j + k <= |new_| && old_[i..i + k] == new_[j..j + k]
    ensures MismatchSpec(old_, new_, i, j) == MismatchSpec(old_, new_, i + k, j + k)
    decreases k
  {
    if k > 0 {
      assert old_[i] == old_[i..i + k][0] == new_[j..j + k][0] == new_[j];
      assert old_[i + 1..i + k] == old_[i..i + k][1..] == new_[j..j + k][1..] == new_[j + 1..j + k];
      SameUpTo(old_, new_, i + 1, j + 1, k - 1);
    }
  }

  /** A database and what it was before record `k` was added. */
  function Without(s: seq<Pw>, k: nat): (r: seq<Pw>)
    requires k < |s|
    ensures |r| == |s| - 1
  {
    s[..k] + s[k + 1..]
  }

  lemma WithoutFacts(s: seq<Pw>, k: nat)
    requires k < |s|
    ensures forall i :: 0 <= i < |s| - 1 ==> Without(s, k)[i] == s[if i < k then i else i + 1]
    ensures Without(s, k)[..k] == s[..k] && Without(s, k)[k..] == s[k + 1..]
  {
  }

  lemma WithoutIsSorted(s: seq<Pw>, k: nat)
    requires StrictlyAscending(s) && k < |s|
    ensures StrictlyAscending(Without(s, k))
  {
    hide PwLess, Without;
    WithoutFacts(s, k);
  }

  lemma FirstDifference(new_: seq<Pw>, k: nat)
    requires StrictlyAscending(new_) && k < |new_| - 1
    ensures MismatchSpec(Without(new_, k), new_, 0, 0) == (k, k)
    ensures k < |Without(new_, k)| && Decide(Without(new_, k), new_, k, k) == EmitInsert
  {
    var old_ := Without(new_, k);
    WithoutFacts(new_, k);
    FurtherOn(new_, k, k + 1);
    if k + 2 < |new_| { FurtherOn(new_, k, k + 2); }
    hide PwLess, Without, StrictlyAscending, MismatchSpec;
    assert old_[0..k] == old_[..k] && new_[0..k] == new_[..k];
    SameUpTo(old_, new_, 0, 0, k);
    MismatchEnds(old_, new_, k, k);
  }

  lemma OneNewRecord(new_: seq<Pw>, k: nat)
    requires StrictlyAscending(new_) && k < |new_| - 1
    ensures DiffFrom(Without(new_, k), new_, 0, 0) == Hunks([Hunk(Insert, k, new_[k])])
  {
    hide Without, StrictlyAscending, MismatchSpec, Decide, DiffFrom;
    WithoutFacts(new_, k);
    FirstDifference(new_, k);
    NoHunksYet(DiffFrom(Without(new_, k), new_, 0, 0));
    Round(Without(new_, k), new_, 0, 0, []);
    RestIsSame(Without(new_, k), new_, k);
  }

  lemma RestIsSame(old_: seq<Pw>, new_: seq<Pw>, k: nat)
    requires k <= |old_| == |new_| - 1 && old_[k..] == new_[k + 1..]
    ensures DiffFrom(old_, new_, k, k + 1) == Hunks([])
  {
    hide MismatchSpec;
    var m := |old_| - k;
    assert old_[k..k + m] == old_[k..] && new_[k + 1..k + 1 + m] == new_[k + 1..];
    SameUpTo(old_, new_, k, k + 1, m);
    MismatchEnds(old_, new_, |old_|, |new_|);
    assert Inserts(new_[|new_|..], |old_|) == [];
  }

  lemma EndsFirstWindow(s: seq<Pw>, size: Size)
    requires 2 * size <= |s|
    ensures LastOfWindow(s, size - 1, size)
  {
    assert (size - 1) % size == size - 1;
  }

  lemma RestIsRead(w: Windows, new_: seq<Pw>, k: nat)
    requires k + 1 < |new_|
    ensures FilesDiff(w, Without(new_, k), new_, k + 1, k + 2) == Hunks([])
  {
    var old_ := Without(new_, k);
    var m := |old_| - (k + 1);
    assert old_[k + 1..k + 1 + m] == new_[k + 2..k + 2 + m];
    hide MismatchSpec, Without;
    SameUpTo(old_, new_, k + 1, k + 2, m);
    MismatchEnds(old_, new_, |old_|, |new_|);
    assert Inserts(new_[|new_|..], |old_|) == [];
  }

  /** For every window size and either kind of std::mismatch there are databases, differing in one record, for which
      the program does not produce a diff: the record that is new is the last one of the first window. With copies the
      program finishes with another record in its place; otherwise it refuses. */
  lemma OneNewRecordAtWindowEnd(w: Windows, new_: seq<Pw>)
    requires |new_| > 2 * w.sizeNew && StrictlyAscending(new_)
    ensures var k := w.sizeNew - 1; var r := FilesDiff(w, Without(new_, k), new_, 0, 0);
      && DiffFrom(Without(new_, k), new_, 0, 0) == Hunks([Hunk(Insert, k, new_[k])])
      && !Rebuilds(w, Without(new_, k), new_, 0, 0)
      && (!w.caches ==> r == Hunks([Hunk(Insert, k, new_[k + w.sizeNew])]))
      && (w.caches && w.sizeOld == w.sizeNew ==> r == Refused(Replacement))
  {
    var k: nat := w.sizeNew - 1;
    var old_ := Without(new_, k);
    hide Without, DiffFrom, FilesDiff, StrictlyAscending, LastOfWindow, Rebuilds, MismatchSpec, Decide, Clear, PwLess;
    OneNewRecord(new_, k);
    WithoutIsSorted(new_, k);
    FirstDifference(new_, k);
    assert k + 1 < |old_| by { WithoutFacts(new_, k); }
    EndsFirstWindow(new_, w.sizeNew);
    NotClear(w, old_, new_, 0, 0);
    RebuildsNewIff(w, old_, new_, 0, 0);
    AtWindowEnd(w, new_);
  }

  lemma AtWindowEnd(w: Windows, new_: seq<Pw>)
    requires |new_| > 2 * w.sizeNew && StrictlyAscending(new_)
    ensures var k := w.sizeNew - 1; var r := FilesDiff(w, Without(new_, k), new_, 0, 0);
      && (!w.caches ==> r == Hunks([Hunk(Insert, k, new_[k + w.sizeNew])]))
      && (w.caches && w.sizeOld == w.sizeNew ==> r == Refused(Replacement))
  {
    var k: nat := w.sizeNew - 1;
    var old_ := Without(new_, k);
    hide Without, StrictlyAscending, MismatchSpec, RoundAt, Decide;
    FirstDifference(new_, k);
    RoundAtWindowEnd(w, new_);
    RestIsRead(w, new_, k);
  }

  lemma RoundAtWindowEnd(w: Windows, new_: seq<Pw>)
    requires |new_| > 2 * w.sizeNew && StrictlyAscending(new_)
    ensures var k := w.sizeNew - 1; var r := RoundAt(w, Without(new_, k), new_, k, k);
      && (!w.caches ==> r == Emit(Hunk(Insert, k, new_[k + w.sizeNew])))
      && (w.caches && w.sizeOld == w.sizeNew ==> r == Stop(Replacement))
  {
    var k: nat := w.sizeNew - 1;
    var old_ := Without(new_, k);
    EndsFirstWindow(new_, w.sizeNew);
    EndsFirstWindow(old_, w.sizeNew);
    FurtherOn(new_, k, k + 1);
    FurtherOn(new_, k, k + 2);
    FurtherOn(new_, k + 1, k + w.sizeNew + 1);
    FurtherOn(new_, k + w.sizeNew, k + w.sizeNew + 1);
    hide Without, StrictlyAscending, LastOfWindow, PwLess;
    assert old_[k] == new_[k + 1] && old_[k + 1] == new_[k + 2] by { WithoutFacts(new_, k); }
    assert old_[k + w.sizeNew] == new_[k + w.sizeNew + 1] by { WithoutFacts(new_, k); }
  }

  // ---------- a refusal that does not come ----------

  /** In front of OLD's last record, whose count may have changed as well, a whole window of NEW is missing. That is to
      be refused. With pointers left by std::mismatch, and for every window size of at least two records, the program
      finishes, with hunks that do not rebuild NEW. */
  lemma WrongHunksInsteadOfRefusal(w: Windows, new_: seq<Pw>, count: int)
    requires w.caches && w.sizeNew >= 2 && |new_| == 2 * w.sizeNew && StrictlyAscending(new_)
    ensures var k := w.sizeNew - 1; var last := new_[k + w.sizeNew]; var old_ := new_[..k] + [Pw(last.hash, count)];
      && StrictlyAscending(old_)
      && DiffFrom(old_, new_, 0, 0) == Refused(Replacement)
      && FilesDiff(w, old_, new_, 0, 0) == Hunks([Hunk(Update, k, last)] + Inserts(new_[k + 1..], k + 1))
      && !Rebuilds(w, old_, new_, 0, 0)
  {
    var k: nat := w.sizeNew - 1;
    var old_ := new_[..k] + [Pw(new_[k + w.sizeNew].hash, count)];
    assert old_[0..k] == new_[0..k];
    FurtherOn(new_, k, k + w.sizeNew);
    FurtherOn(new_, k + 1, k + w.sizeNew);
    EndsFirstWindow(new_, w.sizeNew);
    assert StrictlyAscending(old_);
    hide PwLess, StrictlyAscending, LastOfWindow, Rebuilds, MismatchSpec, RoundAt;
    assert RoundAt(w, old_, new_, k, k) == Emit(Hunk(Update, k, new_[k + w.sizeNew]));
    SameUpTo(old_, new_, 0, 0, k);
    MismatchEnds(old_, new_, k, k);
    MismatchEnds(old_, new_, k + 1, k + 1);
    RebuildsNewIff(w, old_, new_, 0, 0);
  }
}
