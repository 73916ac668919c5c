/** What run_diff of src/diffutils.cpp makes of two files it reads through windows.

    It dereferences an iterator again after having looked at the record behind it. That look-ahead can bring in the
    next window, and then the pointer the iterator has cached points at another record. `FilesDiff` is the result with
    what the loop then sees; `DiffFiles.RunDiffOn` computes it, and `IsADiffIff` says exactly when it is a diff. */
module DiffSeen {
  import opened Codec
  import opened FlatFile
  import opened Diff

  type Size = n: nat | 0 < n witness 1

  /** The windows of the two files. `caches`: std::mismatch dereferences the very iterators it returns, so that these
      hold a pointer already. The standard leaves that open; an implementation may also dereference copies. */
  datatype Windows = Windows(sizeOld: Size, sizeNew: Size, caches: bool)

  // ---------- what the loop sees ----------

  /** The old iterator's pointer is off once the record behind has been looked at. It has one by then only if
      std::mismatch has left one. */
  predicate OffOld(w: Windows, old_: seq<Pw>, i: nat) {
    w.caches && LastOfWindow(old_, i, w.sizeOld)
  }

  /** The same for the new iterator, which is also dereferenced for the deletion test, unless OLD ends here. */
  predicate OffNew(w: Windows, old_: seq<Pw>, new_: seq<Pw>, i: nat, j: nat) {
    (w.caches || i + 1 < |old_|) && LastOfWindow(new_, j, w.sizeNew)
  }

  predicate Off(w: Windows, old_: seq<Pw>, new_: seq<Pw>, i: nat, j: nat) {
    OffOld(w, old_, i) || OffNew(w, old_, new_, i, j)
  }

  function SeenOld(w: Windows, old_: seq<Pw>, i: nat): Pw
    requires i < |old_|
  {
    if OffOld(w, old_, i) then old_[i + w.sizeOld] else old_[i]
  }

  function SeenNew(w: Windows, old_: seq<Pw>, new_: seq<Pw>, i: nat, j: nat): Pw
    requires i < |old_| && j < |new_|
  {
    if OffNew(w, old_, new_, i, j) then new_[j + w.sizeNew] else new_[j]
  }

  datatype Outcome = Stop(error: DiffError) | Emit(hunk: Hunk)

  /** What a round makes of the difference at (i, j), if it is not a deletion. */
  function InsertOrUpdate(w: Windows, old_: seq<Pw>, new_: seq<Pw>, i: nat, j: nat): (r: Outcome)
    requires i < |old_| && j < |new_|
    ensures r.Emit? ==> r.hunk.pos == i && (r.hunk.kind == Insert ==> j + 1 < |new_|)
  {
    var o, n := SeenOld(w, old_, i), SeenNew(w, old_, new_, i, j);
    if j + 1 < |new_| && o == new_[j + 1] then Emit(Hunk(Insert, i, n))
    else if !SameHash(o, n) then Stop(Replacement)
    else Emit(Hunk(Update, i, n))
  }

  function RoundAt(w: Windows, old_: seq<Pw>, new_: seq<Pw>, i: nat, j: nat): (r: Outcome)
    requires i < |old_| && j < |new_|
    ensures r.Emit? ==> r.hunk.pos == i && (r.hunk.kind == Insert ==> j + 1 < |new_|)
  {
    if i + 1 < |old_| && old_[i + 1] == new_[j] then Stop(DeletionFromOld)
    else InsertOrUpdate(w, old_, new_, i, j)
  }

  /** The result of the loop from (i, j) on. After an insert the next comparison is of the old record as it was just
      seen with new_[j + 1]: it was found equal, so the loop goes on behind both. */
  ghost function FilesDiff(w: Windows, old_: seq<Pw>, new_: seq<Pw>, i: nat, j: nat): DiffResult
    requires i <= |old_| && j <= |new_|
    decreases |new_| - j
  {
    var (i', j') := MismatchSpec(old_, new_, i, j);
    if i' == |old_| then Hunks(Inserts(new_[j'..], i'))
    else if j' == |new_| then Refused(NewWasShorter)
    else
      match RoundAt(w, old_, new_, i', j')
      case Stop(e) => Refused(e)
      case Emit(h) => Prepend(h, FilesDiff(w, old_, new_, i' + 1, if h.kind == Insert then j' + 2 else j' + 1))
  }

  // ---------- when that is the diff of the records ----------

  /** No round of the intended diff, the refusing one included, meets a pointer that is off. (A deletion is found
      before any pointer can be.) */
  ghost predicate Clear(w: Windows, old_: seq<Pw>, new_: seq<Pw>, i: nat, j: nat)
    requires i <= |old_| && j <= |new_|
    decreases |new_| - j
  {
    var (i', j') := MismatchSpec(old_, new_, i, j);
    i' < |old_| && j' < |new_| ==>
      match Decide(old_, new_, i', j')
      case Throw(e) => e == DeletionFromOld || !Off(w, old_, new_, i', j')
      case EmitInsert => !Off(w, old_, new_, i', j') && Clear(w, old_, new_, i' + 1, j' + 2)
      case EmitUpdate => !Off(w, old_, new_, i', j') && Clear(w, old_, new_, i' + 1, j' + 1)
  }

  /** One round of the intended diff, going on behind both records of an insert as `FilesDiff` does. */
  lemma IntendedRound(old_: seq<Pw>, new_: seq<Pw>, i: nat, j: nat)
    requires i <= |old_| && j <= |new_|
    ensures var (i', j') := MismatchSpec(old_, new_, i, j);
      i' < |old_| && j' < |new_| ==>
        DiffFrom(old_, new_, i, j) ==
          match Decide(old_, new_, i', j')
          case Throw(e) => Refused(e)
          case EmitInsert => Prepend(Hunk(Insert, i', new_[j']), DiffFrom(old_, new_, i' + 1, j' + 2))
          case EmitUpdate => Prepend(Hunk(Update, i', new_[j']), DiffFrom(old_, new_, i' + 1, j' + 1))
  {
    hide MismatchSpec;
    var (i', j') := MismatchSpec(old_, new_, i, j);
    if i' < |old_| && j' < |new_| && Decide(old_, new_, i', j').EmitInsert? { SkipMatch(old_, new_, i', j' + 1); }
  }

  /** Without a pointer being off, a round decides as intended. */
  lemma RightRound(w: Windows, old_: seq<Pw>, new_: seq<Pw>, i: nat, j: nat)
    requires i < |old_| && j < |new_| && !Off(w, old_, new_, i, j)
    ensures RoundAt(w, old_, new_, i, j) ==
      match Decide(old_, new_, i, j)
      case Throw(e) => Stop(e)
      case EmitInsert => Emit(Hunk(Insert, i, new_[j]))
      case EmitUpdate => Emit(Hunk(Update, i, new_[j]))
  {
  }

  lemma NotClear(w: Windows, old_: seq<Pw>, new_: seq<Pw>, i: nat, j: nat)
    requires i <= |old_| && j <= |new_|
    requires var (i', j') := MismatchSpec(old_, new_, i, j);
             i' < |old_| && j' < |new_| && Off(w, old_, new_, i', j')
             && Decide(old_, new_, i', j') != Throw(DeletionFromOld)
    ensures !Clear(w, old_, new_, i, j)
  {
  }

  /** For any two databases: if no round meets a pointer that is off, the result is the intended one, hunks or
      refusal. */
  lemma {:induction false} SameWhenClear(w: Windows, old_: seq<Pw>, new_: seq<Pw>, i: nat, j: nat)
    requires i <= |old_| && j <= |new_| && Clear(w, old_, new_, i, j)
    ensures FilesDiff(w, old_, new_, i, j) == DiffFrom(old_, new_, i, j)
    decreases |new_| - j
  {
    hide MismatchSpec, RoundAt, Off;
    var (i', j') := MismatchSpec(old_, new_, i, j);
    if i' < |old_| && j' < |new_| {
      IntendedRound(old_, new_, i, j);
      hide DiffFrom;
      if Decide(old_, new_, i', j') == Throw(DeletionFromOld) {
        DeletionStops(w, old_, new_, i', j');
      } else {
        RightRound(w, old_, new_, i', j');
        hide Decide;
        match Decide(old_, new_, i', j')
        case Throw(_) =>
        case EmitInsert => SameWhenClear(w, old_, new_, i' + 1, j' + 2);
        case EmitUpdate => SameWhenClear(w, old_, new_, i' + 1, j' + 1);
      }
    }
  }

  lemma DeletionStops(w: Windows, old_: seq<Pw>, new_: seq<Pw>, i: nat, j: nat)
    requires i < |old_| && j < |new_|
    ensures Decide(old_, new_, i, j) == Throw(DeletionFromOld) <==>
              RoundAt(w, old_, new_, i, j) == Stop(DeletionFromOld)
  {
  }

  lemma NeedsTwoWindows(s: seq<Pw>, pos: nat, size: Size)
    requires LastOfWindow(s, pos, size)
    ensures |s| >= 2 * size
  {
  }

  /** Databases of less than two windows are always clear. */
  lemma {:induction false} SmallIsClear(w: Windows, old_: seq<Pw>, new_: seq<Pw>, i: nat, j: nat)
    requires |old_| < 2 * w.sizeOld && |new_| < 2 * w.sizeNew && i <= |old_| && j <= |new_|
    ensures Clear(w, old_, new_, i, j)
    decreases |new_| - j
  {
    hide MismatchSpec, LastOfWindow;
    var (i', j') := MismatchSpec(old_, new_, i, j);
    if i' < |old_| && j' < |new_| {
      if LastOfWindow(old_, i', w.sizeOld) { NeedsTwoWindows(old_, i', w.sizeOld); }
      if LastOfWindow(new_, j', w.sizeNew) { NeedsTwoWindows(new_, j', w.sizeNew); }
      match Decide(old_, new_, i', j')
      case Throw(_) =>
      case EmitInsert => SmallIsClear(w, old_, new_, i' + 1, j' + 2);
      case EmitUpdate => SmallIsClear(w, old_, new_, i' + 1, j' + 1);
    }
  }

  // ---------- when the hunks rebuild the new database ----------

  /** The program finishes, and its hunks turn the rest of OLD into the rest of NEW. */
  ghost predicate Rebuilds(w: Windows, old_: seq<Pw>, new_: seq<Pw>, i: nat, j: nat)
    requires i <= |old_| && j <= |new_|
  {
    var r := FilesDiff(w, old_, new_, i, j);
    r.Hunks? && Patch(old_, i, r.hunks) == new_[j..]
  }

  /** In order, records further on are larger and hence different. */
  lemma FurtherOn(s: seq<Pw>, a: nat, b: nat)
    requires StrictlyAscending(s) && a < b < |s|
    ensures PwLess()(s[a], s[b]) && !SameHash(s[a], s[b]) && !PwLess()(s[b], s[a])
  {
    HashOrder(s[a], s[b]);
  }

  lemma FirstPosition(w: Windows, old_: seq<Pw>, new_: seq<Pw>, i: nat, j: nat)
    requires i <= |old_| && j <= |new_| && FilesDiff(w, old_, new_, i, j).Hunks?
    ensures var hunks := FilesDiff(w, old_, new_, i, j).hunks; hunks != [] ==> hunks[0].pos >= i
  {
  }

  /** Patching copies what both databases agree on. */
  lemma {:induction false} PatchThroughMatches(old_: seq<Pw>, new_: seq<Pw>, i: nat, j: nat, hunks: seq<Hunk>)
    requires i <= |old_| && j <= |new_|
    requires hunks != [] ==> hunks[0].pos >= MismatchSpec(old_, new_, i, j).0
    ensures var (i', j') := MismatchSpec(old_, new_, i, j);
      Patch(old_, i, hunks) == new_[j..] <==> Patch(old_, i', hunks) == new_[j'..]
    decreases |old_| - i
  {
    if i < |old_| && j < |new_| && old_[i] == new_[j] {
      PatchCopiesOne(old_, i, hunks);
      Prepended(new_, j, old_[i], Patch(old_, i + 1, hunks));
      PatchThroughMatches(old_, new_, i + 1, j + 1, hunks);
    }
  }

  lemma Prepended(s: seq<Pw>, j: nat, x: Pw, rest: seq<Pw>)
    requires j < |s|
    ensures [x] + rest == s[j..] <==> x == s[j] && rest == s[j + 1..]
  {
    assert s[j..] == [s[j]] + s[j + 1..];
    if [x] + rest == s[j..] {
      assert ([x] + rest)[0] == x && ([x] + rest)[1..] == rest;
      assert s[j..][1..] == s[j + 1..];
    }
  }

  /** The round at (i, j) contributes what it should, the record its hunk was seen with and, for an insert, the old
      record behind it; and the rest is rebuilt too. */
  ghost predicate RoundRebuilds(w: Windows, old_: seq<Pw>, new_: seq<Pw>, i: nat, j: nat)
    requires i < |old_| && j < |new_|
  {
    match RoundAt(w, old_, new_, i, j)
    case Stop(_) => false
    case Emit(h) =>
      && h.pw == new_[j]
      && if h.kind == Insert then old_[i] == new_[j + 1] && Rebuilds(w, old_, new_, i + 1, j + 2)
         else Rebuilds(w, old_, new_, i + 1, j + 1)
  }

  lemma RebuildsRound(w: Windows, old_: seq<Pw>, new_: seq<Pw>, i: nat, j: nat)
    requires i <= |old_| && j <= |new_|
    ensures var (i', j') := MismatchSpec(old_, new_, i, j);
      i' < |old_| && j' < |new_| ==> (Rebuilds(w, old_, new_, i, j) <==> RoundRebuilds(w, old_, new_, i', j'))
  {
    hide MismatchSpec, RoundAt, Patch;
    var (i', j') := MismatchSpec(old_, new_, i, j);
    if i' < |old_| && j' < |new_| && RoundAt(w, old_, new_, i', j').Emit? {
      var h := RoundAt(w, old_, new_, i', j').hunk;
      var next := if h.kind == Insert then j' + 2 else j' + 1;
      var r := FilesDiff(w, old_, new_, i' + 1, next);
      if r.Hunks? {
        FirstPosition(w, old_, new_, i' + 1, next);
        PatchThroughMatches(old_, new_, i, j, [h] + r.hunks);
        HunkContributes(old_, new_, i', j', h, r.hunks);
      }
    }
  }

  lemma HunkContributes(old_: seq<Pw>, new_: seq<Pw>, i: nat, j: nat, h: Hunk, rest: seq<Hunk>)
    requires i < |old_| && j < |new_| && h.pos == i && (h.kind == Insert ==> j + 1 < |new_|)
    requires rest != [] ==> rest[0].pos > i
    ensures Patch(old_, i, [h] + rest) == new_[j..] <==>
      && h.pw == new_[j]
      && if h.kind == Insert then old_[i] == new_[j + 1] && Patch(old_, i + 1, rest) == new_[j + 2..]
         else Patch(old_, i + 1, rest) == new_[j + 1..]
  {
    assert ([h] + rest)[0] == h && ([h] + rest)[1..] == rest;
    if h.kind == Insert {
      assert Patch(old_, i, [h] + rest) == [h.pw] + Patch(old_, i, rest);
      PatchCopiesOne(old_, i, rest);
      Prepended(new_, j, h.pw, Patch(old_, i, rest));
      Prepended(new_, j + 1, old_[i], Patch(old_, i + 1, rest));
    } else {
      assert Patch(old_, i, [h] + rest) == [h.pw] + Patch(old_, i + 1, rest);
      Prepended(new_, j, h.pw, Patch(old_, i + 1, rest));
    }
  }

  /** Two hashes in order, seen from a third. */
  lemma NotGreaterThanNext(s: seq<Pw>, j: nat, x: Pw)
    requires StrictlyAscending(s) && 0 < j < |s| && !PwLess()(s[j - 1], x)
    ensures forall k :: j <= k < |s| ==> !SameHash(x, s[k]) && x != s[k]
  {
    hide PwLess;
    forall k | j <= k < |s| ensures !SameHash(x, s[k]) {
      FurtherOn(s, j - 1, k);
      HashOrder(s[j - 1], x);
      HashTransitive(x, s[j - 1], s[k]);
      HashOrder(x, s[k]);
    }
  }

  /** If a later old record has the hash of `x`, the next old record does not lie behind `x`. */
  lemma NextNotBehind(old_: seq<Pw>, i: nat, k: nat, x: Pw)
    requires StrictlyAscending(old_) && i < k < |old_| && SameHash(old_[k], x)
    ensures !PwLess()(x, old_[i + 1])
  {
    if i + 1 < k { FurtherOn(old_, i + 1, k); } else { HashOrder(old_[k], old_[k]); }
  }

  /** An update with the right record, though its hash is not that of old_[i]: the old pointer is off. */
  lemma SeenAhead(w: Windows, old_: seq<Pw>, new_: seq<Pw>, i: nat, j: nat)
    requires StrictlyAscending(old_) && i < |old_| && j < |new_| && !SameHash(old_[i], new_[j])
    requires RoundAt(w, old_, new_, i, j) == Emit(Hunk(Update, i, new_[j]))
    ensures i + 1 < |old_| && !PwLess()(new_[j], old_[i + 1])
  {
    assert OffOld(w, old_, i);
    NextNotBehind(old_, i, i + w.sizeOld, new_[j]);
  }

  /** Once NEW has been read past the next old hash, the rest of NEW cannot come out. */
  lemma {:induction false} LeftBehind(w: Windows, old_: seq<Pw>, new_: seq<Pw>, i: nat, j: nat)
    requires StrictlyAscending(old_) && StrictlyAscending(new_)
    requires i < |old_| && 0 < j <= |new_| && !PwLess()(new_[j - 1], old_[i])
    ensures !Rebuilds(w, old_, new_, i, j)
    decreases |new_| - j
  {
    if j == |new_| {
      MismatchEnds(old_, new_, i, j);
    } else {
      hide PwLess, StrictlyAscending, Rebuilds, MismatchSpec, RoundAt;
      NotGreaterThanNext(new_, j, old_[i]);
      MismatchEnds(old_, new_, i, j);
      RebuildsRound(w, old_, new_, i, j);
      var r := RoundAt(w, old_, new_, i, j);
      if r.Emit? && r.hunk.pw == new_[j] && r.hunk.kind == Update {
        SeenAhead(w, old_, new_, i, j);
        LeftBehind(w, old_, new_, i + 1, j + 1);
      }
    }
  }

  /** A round that meets a pointer that is off cannot rebuild the new database. */
  lemma OffRoundFails(w: Windows, old_: seq<Pw>, new_: seq<Pw>, i: nat, j: nat)
    requires StrictlyAscending(old_) && StrictlyAscending(new_)
    requires i < |old_| && j < |new_| && Off(w, old_, new_, i, j)
    ensures !RoundRebuilds(w, old_, new_, i, j)
  {
    hide PwLess, StrictlyAscending, Rebuilds, RoundAt, LastOfWindow;
    if OffNew(w, old_, new_, i, j) {
      WrongNewRecord(w, old_, new_, i, j);
    } else {
      WrongOldRecord(w, old_, new_, i, j);
    }
  }

  lemma WrongNewRecord(w: Windows, old_: seq<Pw>, new_: seq<Pw>, i: nat, j: nat)
    requires StrictlyAscending(new_) && i < |old_| && j < |new_| && OffNew(w, old_, new_, i, j)
    ensures var r := RoundAt(w, old_, new_, i, j); r.Emit? ==> r.hunk.pw != new_[j]
  {
    hide PwLess, StrictlyAscending;
    FurtherOn(new_, j, j + w.sizeNew);
  }

  lemma WrongOldRecord(w: Windows, old_: seq<Pw>, new_: seq<Pw>, i: nat, j: nat)
    requires StrictlyAscending(old_) && StrictlyAscending(new_)
    requires i < |old_| && j < |new_| && OffOld(w, old_, i)
    ensures match RoundAt(w, old_, new_, i, j)
            case Stop(_) => true
            case Emit(h) => if h.kind == Insert then old_[i] != new_[j + 1]
                            else h.pw == new_[j] ==> !Rebuilds(w, old_, new_, i + 1, j + 1)
  {
    hide PwLess, StrictlyAscending, Rebuilds;
    FurtherOn(old_, i, i + w.sizeOld);
    var r := RoundAt(w, old_, new_, i, j);
    if r.Emit? && r.hunk.kind == Update && r.hunk.pw == new_[j] {
      NextNotBehind(old_, i, i + w.sizeOld, new_[j]);
      LeftBehind(w, old_, new_, i + 1, j + 1);
    }
  }

  lemma RebuildsAtEnd(w: Windows, old_: seq<Pw>, new_: seq<Pw>, i: nat, j: nat)
    requires i <= |old_| && j <= |new_|
    requires MismatchSpec(old_, new_, i, j).0 == |old_| || MismatchSpec(old_, new_, i, j).1 == |new_|
    ensures Rebuilds(w, old_, new_, i, j) <==> MismatchSpec(old_, new_, i, j).0 == |old_|
    ensures DiffFrom(old_, new_, i, j).Hunks? <==> MismatchSpec(old_, new_, i, j).0 == |old_|
  {
    hide Patch;
    var (i', j') := MismatchSpec(old_, new_, i, j);
    if i' == |old_| {
      PatchInserts(old_, new_[j'..]);
      PatchThroughMatches(old_, new_, i, j, Inserts(new_[j'..], i'));
    }
  }

  /** On databases in strictly ascending order: run_diff finishes with hunks that turn OLD into NEW if and only if the
      intended diff exists and no round meets a pointer that is off. */
  lemma {:induction false} RebuildsNewIff(w: Windows, old_: seq<Pw>, new_: seq<Pw>, i: nat, j: nat)
    requires StrictlyAscending(old_) && StrictlyAscending(new_) && i <= |old_| && j <= |new_|
    ensures Rebuilds(w, old_, new_, i, j) <==> DiffFrom(old_, new_, i, j).Hunks? && Clear(w, old_, new_, i, j)
    decreases |new_| - j
  {
    hide MismatchSpec, RoundAt, StrictlyAscending, Off, Rebuilds, DiffFrom;
    var (i', j') := MismatchSpec(old_, new_, i, j);
    if i' == |old_| || j' == |new_| {
      RebuildsAtEnd(w, old_, new_, i, j);
    } else {
      IntendedRound(old_, new_, i, j);
      RebuildsRound(w, old_, new_, i, j);
      if Off(w, old_, new_, i', j') {
        OffRoundFails(w, old_, new_, i', j');
      } else {
        RightRound(w, old_, new_, i', j');
        match Decide(old_, new_, i', j')
        case Throw(_) =>
        case EmitInsert => RebuildsNewIff(w, old_, new_, i' + 1, j' + 2);
        case EmitUpdate => RebuildsNewIff(w, old_, new_, i' + 1, j' + 1);
      }
    }
  }

  // ---------- the condition on the hunks ----------

  /** The hunk does not lie where a pointer is off. */
  ghost predicate Safe(w: Windows, old_: seq<Pw>, new_: seq<Pw>, h: Hunk) {
    h.pos < |old_| ==>
      !OffOld(w, old_, h.pos) && forall j :: 0 <= j < |new_| && new_[j] == h.pw ==> !OffNew(w, old_, new_, h.pos, j)
  }

  ghost predicate AllSafe(w: Windows, old_: seq<Pw>, new_: seq<Pw>, hunks: seq<Hunk>) {
    forall k :: 0 <= k < |hunks| ==> Safe(w, old_, new_, hunks[k])
  }

  lemma SafeIffNotOff(w: Windows, old_: seq<Pw>, new_: seq<Pw>, i: nat, j: nat, kind: HunkType)
    requires i < |old_| && j < |new_| && StrictlyAscending(new_)
    ensures Safe(w, old_, new_, Hunk(kind, i, new_[j])) <==> !Off(w, old_, new_, i, j)
  {
    hide PwLess, LastOfWindow;
    forall k | 0 <= k < |new_| && new_[k] == new_[j] ensures k == j {
      if k < j { FurtherOn(new_, k, j); } else if j < k { FurtherOn(new_, j, k); }
    }
  }

  lemma SafePrepend(w: Windows, old_: seq<Pw>, new_: seq<Pw>, h: Hunk, rest: seq<Hunk>)
    ensures AllSafe(w, old_, new_, [h] + rest) <==> Safe(w, old_, new_, h) && AllSafe(w, old_, new_, rest)
  {
    hide Safe;
    forall k | 0 <= k < |rest| ensures ([h] + rest)[k + 1] == rest[k] { }
    if AllSafe(w, old_, new_, [h] + rest) {
      assert ([h] + rest)[0] == h;
    }
  }

  /** Where the intended diff exists and NEW is in order, the condition is one on its hunks. */
  lemma {:induction false} ClearIffSafe(w: Windows, old_: seq<Pw>, new_: seq<Pw>, i: nat, j: nat)
    requires i <= |old_| && j <= |new_| && StrictlyAscending(new_) && DiffFrom(old_, new_, i, j).Hunks?
    ensures Clear(w, old_, new_, i, j) <==> AllSafe(w, old_, new_, DiffFrom(old_, new_, i, j).hunks)
    decreases |new_| - j
  {
    hide MismatchSpec, StrictlyAscending, Off, Safe;
    var (i', j') := MismatchSpec(old_, new_, i, j);
    if i' == |old_| {
      InsertsAreSafe(w, old_, new_, new_[j'..]);
    } else {
      assert j' < |new_|;
      IntendedRound(old_, new_, i, j);
      hide DiffFrom, AllSafe;
      var inserted := Decide(old_, new_, i', j').EmitInsert?;
      var next := if inserted then j' + 2 else j' + 1;
      ClearIffSafe(w, old_, new_, i' + 1, next);
      SafeIffNotOff(w, old_, new_, i', j', if inserted then Insert else Update);
      SafePrepend(w, old_, new_, Hunk(if inserted then Insert else Update, i', new_[j']),
                  DiffFrom(old_, new_, i' + 1, next).hunks);
    }
  }

  /** The whole program, on databases in strictly ascending order: it finishes with hunks that turn OLD into NEW if and
      only if the intended diff exists and none of its hunks lies where a pointer is off. */
  lemma IsADiffIff(w: Windows, old_: seq<Pw>, new_: seq<Pw>)
    requires StrictlyAscending(old_) && StrictlyAscending(new_)
    ensures var r, d := FilesDiff(w, old_, new_, 0, 0), DiffFrom(old_, new_, 0, 0);
      r.Hunks? && Patch(old_, 0, r.hunks) == new_ <==> d.Hunks? && AllSafe(w, old_, new_, d.hunks)
  {
    hide FilesDiff, DiffFrom, AllSafe, Clear, StrictlyAscending, Patch;
    assert new_[0..] == new_;
    RebuildsNewIff(w, old_, new_, 0, 0);
    if DiffFrom(old_, new_, 0, 0).Hunks? { ClearIffSafe(w, old_, new_, 0, 0); }
  }

  lemma InsertsAreSafe(w: Windows, old_: seq<Pw>, new_: seq<Pw>, rest: seq<Pw>)
    ensures AllSafe(w, old_, new_, Inserts(rest, |old_|))
  {
  }
}
