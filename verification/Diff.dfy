/** src/diffutils.cpp: the differences between two databases as insert and update hunks. */
module Diff {
  import opened Bytes
  import opened Codec

  datatype HunkType = Update | Insert

  /** `pos` refers to the old database. */
  datatype Hunk = Hunk(kind: HunkType, pos: nat, pw: Pw)

  datatype DiffError = NewWasShorter | DeletionFromOld | Replacement
  datatype DiffResult = Hunks(hunks: seq<Hunk>) | Refused(error: DiffError)

  // (deep_equals of the source, hash and count, is equality of records here)

  /** std::mismatch from (i, j). */
  method Mismatch(old_: seq<Pw>, new_: seq<Pw>, i: nat, j: nat) returns (i': nat, j': nat)
    requires i <= |old_| && j <= |new_|
    ensures (i', j') == MismatchSpec(old_, new_, i, j)
  {
    i', j' := i, j;
    while i' != |old_| && j' != |new_| && old_[i'] == new_[j']
      invariant i' <= |old_| && j' <= |new_|
      invariant MismatchSpec(old_, new_, i', j') == MismatchSpec(old_, new_, i, j)
      decreases |old_| - i'
    {
      i', j' := i' + 1, j' + 1;
    }
  }

  ghost function MismatchSpec(old_: seq<Pw>, new_: seq<Pw>, i: nat, j: nat): (r: (nat, nat))
    requires i <= |old_| && j <= |new_|
    ensures i <= r.0 <= |old_| && j <= r.1 <= |new_| && r.0 - i == r.1 - j
    ensures r.0 < |old_| && r.1 < |new_| ==> old_[r.0] != new_[r.1]
    decreases |old_| - i
  {
    if i < |old_| && j < |new_| && old_[i] == new_[j] then MismatchSpec(old_, new_, i + 1, j + 1) else (i, j)
  }

  /** What one round of the loop decides at a mismatch that is not at the end of either database. */
  datatype Decision = Throw(error: DiffError) | EmitInsert | EmitUpdate

  function Decide(old_: seq<Pw>, new_: seq<Pw>, i: nat, j: nat): Decision
    requires i < |old_| && j < |new_|
  {
    if i + 1 < |old_| && old_[i + 1] == new_[j] then Throw(DeletionFromOld)
    else if j + 1 < |new_| && old_[i] == new_[j + 1] then EmitInsert
    else if !SameHash(old_[i], new_[j]) then Throw(Replacement)
    else EmitUpdate
  }

  function Inserts(rest: seq<Pw>, pos: nat): seq<Hunk> {
    seq(|rest|, k requires 0 <= k < |rest| => Hunk(Insert, pos, rest[k]))
  }

  /** The hunks from (i, j) on, or why there are none. */
  ghost function DiffFrom(old_: seq<Pw>, new_: seq<Pw>, i: nat, j: nat): DiffResult
    requires i <= |old_| && j <= |new_|
    decreases |new_| - j
  {
    var (i', j') := MismatchSpec(old_, new_, i, j);
    if i' == |old_| then Hunks(Inserts(new_[j'..], i'))
    else if j' == |new_| then Refused(NewWasShorter)
    else
      match Decide(old_, new_, i', j')
      case Throw(e) => Refused(e)
      case EmitInsert => Prepend(Hunk(Insert, i', new_[j']), DiffFrom(old_, new_, i', j' + 1))
      case EmitUpdate => Prepend(Hunk(Update, i', new_[j']), DiffFrom(old_, new_, i' + 1, j' + 1))
  }

  function Prepend(h: Hunk, r: DiffResult): DiffResult {
    match r case Hunks(hs) => Hunks([h] + hs) case Refused(e) => Refused(e)
  }

  function PrependAll(hs: seq<Hunk>, r: DiffResult): DiffResult {
    match r case Hunks(more) => Hunks(hs + more) case Refused(e) => Refused(e)
  }

  /** The rest of the new database behind the end of the old one. */
  method InsertRest(new_: seq<Pw>, pos: nat, from: nat) returns (hunks: seq<Hunk>)
    requires from <= |new_|
    ensures hunks == Inserts(new_[from..], pos)
  {
    hunks := [];
    for j := from to |new_|
      invariant hunks == Inserts(new_[from..], pos)[..j - from]
    {
      hunks := hunks + [Hunk(Insert, pos, new_[j])];
    }
  }

  /** run_diff, with iterator dereference read as the record at that position. */
  method RunDiff(old_: seq<Pw>, new_: seq<Pw>) returns (r: DiffResult)
    ensures r == DiffFrom(old_, new_, 0, 0)
  {
    hide DiffFrom, MismatchSpec;
    var diff: seq<Hunk> := [];
    var oldBegin: nat, newBegin: nat := 0, 0;
    NoHunksYet(DiffFrom(old_, new_, 0, 0));
    while true
      invariant oldBegin <= |old_| && newBegin <= |new_|
      invariant PrependAll(diff, DiffFrom(old_, new_, oldBegin, newBegin)) == DiffFrom(old_, new_, 0, 0)
      decreases |new_| - newBegin
    {
      var i, j := Mismatch(old_, new_, oldBegin, newBegin);
      Round(old_, new_, oldBegin, newBegin, diff);
      if i == |old_| {
        var rest := InsertRest(new_, i, j);
        return Hunks(diff + rest);
      }
      if j == |new_| { return Refused(NewWasShorter); }
      if i + 1 != |old_| && old_[i + 1] == new_[j] { return Refused(DeletionFromOld); }
      if j + 1 != |new_| && old_[i] == new_[j + 1] {
        diff := diff + [Hunk(Insert, i, new_[j])];
        oldBegin, newBegin := i, j + 1;
        continue;
      }
      if !SameHash(old_[i], new_[j]) { return Refused(Replacement); }
      diff := diff + [Hunk(Update, i, new_[j])];
      oldBegin, newBegin := i + 1, j + 1;
    }
  }

  lemma NoHunksYet(r: DiffResult)
    ensures PrependAll([], r) == r
  {
  }

  /** What one round of the loop leaves to do. */
  lemma Round(old_: seq<Pw>, new_: seq<Pw>, i0: nat, j0: nat, diff: seq<Hunk>)
    requires i0 <= |old_| && j0 <= |new_|
    ensures var (i, j) := MismatchSpec(old_, new_, i0, j0);
      PrependAll(diff, DiffFrom(old_, new_, i0, j0)) ==
        if i == |old_| then Hunks(diff + Inserts(new_[j..], i))
        else if j == |new_| then Refused(NewWasShorter)
        else match Decide(old_, new_, i, j)
             case Throw(e) => Refused(e)
             case EmitInsert => PrependAll(diff + [Hunk(Insert, i, new_[j])], DiffFrom(old_, new_, i, j + 1))
             case EmitUpdate => PrependAll(diff + [Hunk(Update, i, new_[j])], DiffFrom(old_, new_, i + 1, j + 1))
  {
    hide MismatchSpec;
    var (i, j) := MismatchSpec(old_, new_, i0, j0);
    if i < |old_| && j < |new_| {
      var d := Decide(old_, new_, i, j);
      if d == EmitInsert { Reassociate(diff, Hunk(Insert, i, new_[j]), DiffFrom(old_, new_, i, j + 1)); }
      if d == EmitUpdate { Reassociate(diff, Hunk(Update, i, new_[j]), DiffFrom(old_, new_, i + 1, j + 1)); }
    }
  }

  lemma Reassociate(hs: seq<Hunk>, h: Hunk, r: DiffResult)
    ensures PrependAll(hs, Prepend(h, r)) == PrependAll(hs + [h], r)
  {
  }

  // ---------- soundness: the hunks turn the old database into the new one ----------

  /** Applying hunks to the old database from record `i` on: an insert goes in front of its position, an update
      replaces the record there. */
  function Patch(old_: seq<Pw>, i: nat, hunks: seq<Hunk>): seq<Pw>
    requires i <= |old_|
    decreases |hunks|, |old_| - i
  {
    if hunks == [] then old_[i..]
    else if hunks[0].pos > i && i < |old_| then [old_[i]] + Patch(old_, i + 1, hunks)
    else if hunks[0].kind == Insert then [hunks[0].pw] + Patch(old_, i, hunks[1..])
    else [hunks[0].pw] + Patch(old_, if i < |old_| then i + 1 else i, hunks[1..])
  }

  ghost predicate Ascending(hunks: seq<Hunk>, from: nat, to: nat) {
    && (forall k :: 0 <= k < |hunks| ==> from <= hunks[k].pos <= to)
    && (forall k, m :: 0 <= k < m < |hunks| ==> hunks[k].pos <= hunks[m].pos)
  }

  lemma {:induction false} PatchInserts(old_: seq<Pw>, rest: seq<Pw>)
    ensures Patch(old_, |old_|, Inserts(rest, |old_|)) == rest
  {
    if rest != [] {
      PatchInserts(old_, rest[1..]);
      assert Inserts(rest, |old_|)[1..] == Inserts(rest[1..], |old_|);
    }
  }

  lemma PatchCopiesOne(old_: seq<Pw>, i: nat, hunks: seq<Hunk>)
    requires i < |old_| && (hunks != [] ==> hunks[0].pos > i)
    ensures Patch(old_, i, hunks) == [old_[i]] + Patch(old_, i + 1, hunks)
  {
    if hunks == [] { assert old_[i..] == [old_[i]] + old_[i + 1..]; }
  }

  /** Records both databases agree on are copied. */
  lemma {:induction false} PatchCopies(old_: seq<Pw>, new_: seq<Pw>, i: nat, j: nat, hunks: seq<Hunk>)
    requires i <= |old_| && j <= |new_|
    requires var (i', j') := MismatchSpec(old_, new_, i, j);
             (hunks != [] ==> hunks[0].pos >= i') && Patch(old_, i', hunks) == new_[j'..]
    ensures Patch(old_, i, hunks) == new_[j..]
    decreases |old_| - i
  {
    if i < |old_| && j < |new_| && old_[i] == new_[j] {
      PatchCopies(old_, new_, i + 1, j + 1, hunks);
      assert new_[j..] == [new_[j]] + new_[j + 1..];
      if hunks == [] { assert old_[i..] == [old_[i]] + old_[i + 1..]; }
    }
  }

  lemma AscendingPrepend(h: Hunk, hs: seq<Hunk>, from: nat, to: nat)
    requires from <= h.pos <= to && Ascending(hs, h.pos, to)
    ensures Ascending([h] + hs, from, to)
  {
  }

  /** One round of a diff that exists. */
  lemma DiffStep(old_: seq<Pw>, new_: seq<Pw>, i: nat, j: nat)
    requires i <= |old_| && j <= |new_| && DiffFrom(old_, new_, i, j).Hunks?
    ensures var (i', j') := MismatchSpec(old_, new_, i, j); var hunks := DiffFrom(old_, new_, i, j).hunks;
      if i' == |old_| then hunks == Inserts(new_[j'..], i')
      else
        && j' < |new_|
        && var inserted := Decide(old_, new_, i', j').EmitInsert?;
           var rest := DiffFrom(old_, new_, if inserted then i' else i' + 1, j' + 1);
           rest.Hunks? && hunks == [Hunk(if inserted then Insert else Update, i', new_[j'])] + rest.hunks
  {
    hide MismatchSpec, Decide;
  }

  /** For any two databases, sorted or not: if run_diff finishes, patching the old one with its hunks gives the new one,
      and positions never decrease. */
  lemma {:induction false} PatchGivesNew(old_: seq<Pw>, new_: seq<Pw>, i: nat, j: nat)
    requires i <= |old_| && j <= |new_| && DiffFrom(old_, new_, i, j).Hunks?
    ensures Ascending(DiffFrom(old_, new_, i, j).hunks, i, |old_|)
    ensures Patch(old_, i, DiffFrom(old_, new_, i, j).hunks) == new_[j..]
    decreases |new_| - j
  {
    hide MismatchSpec, DiffFrom, Patch, Decide;
    var (i', j') := MismatchSpec(old_, new_, i, j);
    var hunks := DiffFrom(old_, new_, i, j).hunks;
    DiffStep(old_, new_, i, j);
    if i' == |old_| {
      PatchInserts(old_, new_[j'..]);
    } else {
      var inserted := Decide(old_, new_, i', j').EmitInsert?;
      var next := if inserted then i' else i' + 1;
      var rest := DiffFrom(old_, new_, next, j' + 1).hunks;
      PatchGivesNew(old_, new_, next, j' + 1);
      FirstHunk(old_, new_, i', j', Hunk(if inserted then Insert else Update, i', new_[j']), rest);
      AscendingPrepend(hunks[0], rest, i, |old_|);
    }
    PatchCopies(old_, new_, i, j, hunks);
  }

  lemma FirstHunk(old_: seq<Pw>, new_: seq<Pw>, i: nat, j: nat, h: Hunk, rest: seq<Hunk>)
    requires i < |old_| && j < |new_| && h.pos == i && h.pw == new_[j]
    requires var next := if h.kind == Insert then i else i + 1;
             Patch(old_, next, rest) == new_[j + 1..] && Ascending(rest, next, |old_|)
    ensures Patch(old_, i, [h] + rest) == new_[j..] && Ascending(rest, i, |old_|)
    ensures ([h] + rest)[0] == h
  {
  }

  // ---------- when run_diff refuses ----------

  /** An old hash is missing from the new database. */
  ghost predicate MissingFromNew(old_: seq<Pw>, new_: seq<Pw>, i: nat) {
    i < |old_| && forall j :: 0 <= j < |new_| ==> !SameHash(new_[j], old_[i])
  }

  /** new_[j] is a new record that belongs directly before old_[i]. */
  ghost predicate NewBefore(old_: seq<Pw>, new_: seq<Pw>, i: nat, j: nat) {
    && i < |old_| && j < |new_|
    && PwLess()(new_[j], old_[i]) && (i > 0 ==> PwLess()(old_[i - 1], new_[j]))
  }

  /** Two new records directly before the same old one. */
  ghost predicate TwoBefore(old_: seq<Pw>, new_: seq<Pw>, i: nat, j: nat) {
    NewBefore(old_, new_, i, j) && NewBefore(old_, new_, i, j + 1)
  }

  /** A new record directly before an old one whose count changed as well. */
  ghost predicate NewBeforeChanged(old_: seq<Pw>, new_: seq<Pw>, i: nat, j: nat) {
    && NewBefore(old_, new_, i, j)
    && j + 1 < |new_| && SameHash(new_[j + 1], old_[i]) && new_[j + 1].count != old_[i].count
  }

  ghost predicate Unsupported(old_: seq<Pw>, new_: seq<Pw>, i: nat, j: nat) {
    MissingFromNew(old_, new_, i) || TwoBefore(old_, new_, i, j) || NewBeforeChanged(old_, new_, i, j)
  }

  lemma HashOrder(a: Pw, b: Pw)
    ensures PwLess()(a, b) || SameHash(a, b) || PwLess()(b, a)
    ensures PwLess()(a, b) ==> !SameHash(a, b) && !PwLess()(b, a)
  {
    LexTrichotomy<Byte>(ByteLess(), a.hash, b.hash);
  }

  lemma HashTransitive(a: Pw, b: Pw, c: Pw)
    ensures PwLess()(a, b) && PwLess()(b, c) ==> PwLess()(a, c)
  {
    if PwLess()(a, b) && PwLess()(b, c) { LexTransitive<Byte>(ByteLess(), a.hash, b.hash, c.hash); }
  }

  lemma IndexOrder(s: seq<Pw>, a: nat, b: nat)
    requires StrictlyAscending(s) && a < |s| && b < |s|
    ensures PwLess()(s[a], s[b]) <==> a < b
  {
    hide PwLess;
    HashOrder(s[a], s[b]);
    HashOrder(s[b], s[a]);
    HashOrder(s[a], s[a]);
  }

  lemma Below(s: seq<Pw>, k: nat, y: Pw)
    requires StrictlyAscending(s) && k < |s| && PwLess()(s[k], y)
    ensures forall b :: 0 <= b <= k ==> PwLess()(s[b], y)
  {
    hide PwLess;
    forall b | 0 <= b <= k ensures PwLess()(s[b], y) { HashTransitive(s[b], s[k], y); }
  }

  lemma Above(s: seq<Pw>, k: nat, x: Pw)
    requires StrictlyAscending(s) && k < |s| && PwLess()(x, s[k])
    ensures forall b :: k <= b < |s| ==> PwLess()(x, s[b])
  {
    hide PwLess;
    forall b | k <= b < |s| ensures PwLess()(x, s[b]) { HashTransitive(x, s[k], s[b]); }
  }

  /** Nothing in the new database has a hash that falls between two neighbours. */
  lemma MissingBetween(old_: seq<Pw>, new_: seq<Pw>, i: nat, k: nat)
    requires StrictlyAscending(new_) && i < |old_| && k <= |new_|
    requires k > 0 ==> PwLess()(new_[k - 1], old_[i])
    requires k < |new_| ==> PwLess()(old_[i], new_[k])
    ensures MissingFromNew(old_, new_, i)
  {
    hide PwLess;
    if k > 0 { Below(new_, k - 1, old_[i]); }
    if k < |new_| { Above(new_, k, old_[i]); }
    forall j | 0 <= j < |new_| ensures !SameHash(new_[j], old_[i]) {
      HashOrder(new_[j], old_[i]);
      HashOrder(old_[i], new_[j]);
    }
  }

  /** Both databases have been read up to records with one hash, or not at all. */
  ghost predicate Synced(old_: seq<Pw>, new_: seq<Pw>, i: nat, j: nat) {
    && i <= |old_| && j <= |new_|
    && (if i == 0 then j == 0 else j > 0 && SameHash(new_[j - 1], old_[i - 1]))
  }

  /** From there, every new record read is smaller than the next old one, and the next new one belongs behind the
      last old one. */
  lemma SyncedOrder(old_: seq<Pw>, new_: seq<Pw>, i: nat, j: nat)
    requires StrictlyAscending(old_) && StrictlyAscending(new_) && Synced(old_, new_, i, j)
    ensures i < |old_| && j > 0 ==> PwLess()(new_[j - 1], old_[i])
    ensures i > 0 && j < |new_| ==> PwLess()(old_[i - 1], new_[j])
    ensures forall b: nat :: NewBefore(old_, new_, i, b) ==> b >= j
  {
    forall b: nat | NewBefore(old_, new_, i, b) ensures b >= j {
      if i > 0 { IndexOrder(new_, j - 1, b); }
    }
  }

  /** Equal or same-hash records at (i, j) leave nothing unsupported at i. */
  lemma SameHashIsSupported(old_: seq<Pw>, new_: seq<Pw>, i: nat, j: nat)
    requires StrictlyAscending(old_) && StrictlyAscending(new_) && Synced(old_, new_, i, j)
    requires i < |old_| && j < |new_| && SameHash(new_[j], old_[i])
    ensures forall b :: !Unsupported(old_, new_, i, b)
  {
    SyncedOrder(old_, new_, i, j);
    forall b: nat ensures !NewBefore(old_, new_, i, b) {
      if b < |new_| { IndexOrder(new_, b, j); }
    }
  }

  /** One new record in front of an unchanged old one is supported. */
  lemma OneInsertIsSupported(old_: seq<Pw>, new_: seq<Pw>, i: nat, j: nat)
    requires StrictlyAscending(old_) && StrictlyAscending(new_) && Synced(old_, new_, i, j)
    requires i < |old_| && j + 1 < |new_| && new_[j + 1] == old_[i]
    ensures forall b :: !Unsupported(old_, new_, i, b)
  {
    SyncedOrder(old_, new_, i, j);
    forall b: nat ensures NewBefore(old_, new_, i, b) ==> b == j {
      if b < |new_| { IndexOrder(new_, b, j + 1); }
    }
  }

  /** Where the program throws there is a reason to. */
  lemma ThrowIsUnsupported(old_: seq<Pw>, new_: seq<Pw>, i: nat, j: nat)
    requires StrictlyAscending(old_) && StrictlyAscending(new_) && Synced(old_, new_, i, j)
    requires i < |old_| && j < |new_| && old_[i] != new_[j] && Decide(old_, new_, i, j).Throw?
    ensures Unsupported(old_, new_, i, j)
  {
    SyncedOrder(old_, new_, i, j);
    HashOrder(old_[i], new_[j]);
    HashOrder(new_[j], old_[i]);
    if PwLess()(old_[i], new_[j]) {
      MissingBetween(old_, new_, i, j);
    } else {
      if i + 1 < |old_| {
        assert PwLess()(old_[i], old_[i + 1]);
      }
      assert NewBefore(old_, new_, i, j);
      if j + 1 == |new_| {
        MissingBetween(old_, new_, i, j + 1);
      } else {
        HashOrder(new_[j + 1], old_[i]);
        HashOrder(old_[i], new_[j + 1]);
        HashTransitive(old_[i - if i > 0 then 1 else 0], new_[j], new_[j + 1]);
        assert PwLess()(new_[j], new_[j + 1]);
        if PwLess()(old_[i], new_[j + 1]) { MissingBetween(old_, new_, i, j + 1); }
      }
    }
  }

  ghost predicate UnsupportedFrom(old_: seq<Pw>, new_: seq<Pw>, i: nat) {
    exists a, b :: a >= i && Unsupported(old_, new_, a, b)
  }

  lemma NextUnsupported(old_: seq<Pw>, new_: seq<Pw>, i: nat)
    requires forall b :: !Unsupported(old_, new_, i, b)
    ensures UnsupportedFrom(old_, new_, i) <==> UnsupportedFrom(old_, new_, i + 1)
  {
  }

  lemma SkipMatch(old_: seq<Pw>, new_: seq<Pw>, i: nat, j: nat)
    requires i < |old_| && j < |new_| && old_[i] == new_[j]
    ensures DiffFrom(old_, new_, i, j) == DiffFrom(old_, new_, i + 1, j + 1)
  {
  }

  ghost predicate SameRefusal(r: DiffResult, q: DiffResult) {
    (r.Refused? <==> q.Refused?) && (r.Refused? ==> r == q)
  }

  lemma DiffAtMismatch(old_: seq<Pw>, new_: seq<Pw>, i: nat, j: nat)
    requires i < |old_| && j < |new_| && old_[i] != new_[j]
    ensures var d := Decide(old_, new_, i, j);
      && (d.Throw? ==> DiffFrom(old_, new_, i, j) == Refused(d.error))
      && (d.EmitInsert? ==> j + 1 < |new_| && new_[j + 1] == old_[i]
                            && SameRefusal(DiffFrom(old_, new_, i, j), DiffFrom(old_, new_, i, j + 1)))
      && (d.EmitUpdate? ==> SameHash(old_[i], new_[j])
                            && SameRefusal(DiffFrom(old_, new_, i, j), DiffFrom(old_, new_, i + 1, j + 1)))
  {
  }

  lemma DiffAtEnd(old_: seq<Pw>, new_: seq<Pw>, i: nat, j: nat)
    requires i <= |old_| && j <= |new_| && (i == |old_| || j == |new_|)
    ensures DiffFrom(old_, new_, i, j).Refused? <==> i < |old_|
    ensures i < |old_| ==> DiffFrom(old_, new_, i, j) == Refused(NewWasShorter)
  {
  }

  lemma {:induction false} RefusedIffFrom(old_: seq<Pw>, new_: seq<Pw>, i: nat, j: nat)
    requires StrictlyAscending(old_) && StrictlyAscending(new_) && Synced(old_, new_, i, j)
    ensures DiffFrom(old_, new_, i, j).Refused? <==> UnsupportedFrom(old_, new_, i)
    decreases |old_| - i
  {
    hide StrictlyAscending, Unsupported, DiffFrom, Decide, PwLess;
    if i == |old_| {
      DiffAtEnd(old_, new_, i, j);
      NothingUnsupported(old_, new_);
    } else if j == |new_| {
      DiffAtEnd(old_, new_, i, j);
      SyncedOrder(old_, new_, i, j);
      MissingBetween(old_, new_, i, j);
      assert Unsupported(old_, new_, i, 0) by { MissingIsUnsupported(old_, new_, i); }
    } else if old_[i] == new_[j] {
      SkipMatch(old_, new_, i, j);
      SameHashIsSupported(old_, new_, i, j);
      NextUnsupported(old_, new_, i);
      RefusedIffFrom(old_, new_, i + 1, j + 1);
    } else {
      DiffAtMismatch(old_, new_, i, j);
      match Decide(old_, new_, i, j)
      case Throw(_) =>
        ThrowIsUnsupported(old_, new_, i, j);
      case EmitInsert =>
        OneInsertIsSupported(old_, new_, i, j);
        NextUnsupported(old_, new_, i);
        SkipMatch(old_, new_, i, j + 1);
        RefusedIffFrom(old_, new_, i + 1, j + 2);
      case EmitUpdate =>
        SameHashIsSupported(old_, new_, i, j);
        NextUnsupported(old_, new_, i);
        RefusedIffFrom(old_, new_, i + 1, j + 1);
    }
  }

  lemma NothingUnsupported(old_: seq<Pw>, new_: seq<Pw>)
    ensures !UnsupportedFrom(old_, new_, |old_|)
  {
  }

  lemma MissingIsUnsupported(old_: seq<Pw>, new_: seq<Pw>, i: nat)
    requires MissingFromNew(old_, new_, i)
    ensures Unsupported(old_, new_, i, 0)
  {
  }

  /** On databases in strictly ascending order, run_diff refuses exactly when an old hash is missing from the new
      database, or two new records fall directly before one old record, or a new record falls directly before an old
      record whose count changed. */
  lemma RefusedIff(old_: seq<Pw>, new_: seq<Pw>)
    requires StrictlyAscending(old_) && StrictlyAscending(new_)
    ensures DiffFrom(old_, new_, 0, 0).Refused? <==> exists i, j :: Unsupported(old_, new_, i, j)
  {
    RefusedIffFrom(old_, new_, 0, 0);
    if i: nat, j: nat :| Unsupported(old_, new_, i, j) { assert UnsupportedFrom(old_, new_, 0); }
  }

  /** The error where OLD cannot go on at record `i` and NEW has been read up to `j`: nothing is left of NEW; what is
      next in NEW is OLD's record behind, so that this one has been deleted; anything else. */
  function ErrorAt(old_: seq<Pw>, new_: seq<Pw>, i: nat, j: nat): DiffError
    requires i < |old_| && j <= |new_|
  {
    if j == |new_| then NewWasShorter
    else if i + 1 < |old_| && old_[i + 1] == new_[j] then DeletionFromOld
    else Replacement
  }

  /** `i` is the first old record from `from` on with something unsupported. */
  ghost predicate FirstUnsupported(old_: seq<Pw>, new_: seq<Pw>, from: nat, i: nat) {
    && from <= i < |old_| && (exists b :: Unsupported(old_, new_, i, b))
    && forall a, b :: from <= a < i ==> !Unsupported(old_, new_, a, b)
  }

  lemma LaterUnsupported(old_: seq<Pw>, new_: seq<Pw>, from: nat, i: nat)
    requires FirstUnsupported(old_, new_, from + 1, i) && forall b :: !Unsupported(old_, new_, from, b)
    ensures FirstUnsupported(old_, new_, from, i)
  {
    hide Unsupported;
  }

  lemma {:induction false} WhichErrorFrom(old_: seq<Pw>, new_: seq<Pw>, i: nat, j: nat) returns (a: nat, b: nat)
    requires StrictlyAscending(old_) && StrictlyAscending(new_) && Synced(old_, new_, i, j)
    requires DiffFrom(old_, new_, i, j).Refused?
    ensures FirstUnsupported(old_, new_, i, a) && Synced(old_, new_, a, b)
    ensures DiffFrom(old_, new_, i, j) == Refused(ErrorAt(old_, new_, a, b))
    decreases |old_| - i
  {
    hide StrictlyAscending, Unsupported, DiffFrom, PwLess;
    a, b := i, j;
    if i == |old_| || j == |new_| {
      DiffAtEnd(old_, new_, i, j);
      SyncedOrder(old_, new_, i, j);
      MissingBetween(old_, new_, i, j);
      MissingIsUnsupported(old_, new_, i);
    } else if old_[i] == new_[j] {
      SkipMatch(old_, new_, i, j);
      SameHashIsSupported(old_, new_, i, j);
      a, b := WhichErrorFrom(old_, new_, i + 1, j + 1);
      LaterUnsupported(old_, new_, i, a);
    } else {
      DiffAtMismatch(old_, new_, i, j);
      match Decide(old_, new_, i, j)
      case Throw(_) =>
        ThrowIsUnsupported(old_, new_, i, j);
      case EmitInsert =>
        OneInsertIsSupported(old_, new_, i, j);
        SkipMatch(old_, new_, i, j + 1);
        a, b := WhichErrorFrom(old_, new_, i + 1, j + 2);
        LaterUnsupported(old_, new_, i, a);
      case EmitUpdate =>
        SameHashIsSupported(old_, new_, i, j);
        a, b := WhichErrorFrom(old_, new_, i + 1, j + 1);
        LaterUnsupported(old_, new_, i, a);
    }
  }

  /** Which error it is when it refuses: that of the first old record with something unsupported, NEW having been read
      up to and including the partner of the old record before. */
  lemma WhichError(old_: seq<Pw>, new_: seq<Pw>) returns (i: nat, j: nat)
    requires StrictlyAscending(old_) && StrictlyAscending(new_) && DiffFrom(old_, new_, 0, 0).Refused?
    ensures FirstUnsupported(old_, new_, 0, i) && j <= |new_|
    ensures if i == 0 then j == 0 else j > 0 && new_[j - 1].hash == old_[i - 1].hash
    ensures DiffFrom(old_, new_, 0, 0).error ==
              if j == |new_| then NewWasShorter
              else if i + 1 < |old_| && old_[i + 1] == new_[j] then DeletionFromOld
              else Replacement
  {
    i, j := WhichErrorFrom(old_, new_, 0, 0);
  }

  // ---------- the position field ----------

  /** A hunk's position is stored and printed as a 32-bit number. */
  function Stored(h: Hunk): Hunk { h.(pos := h.pos % 0x1_0000_0000) }

  function AllStored(hunks: seq<Hunk>): (r: seq<Hunk>)
    ensures |r| == |hunks|
  {
    seq(|hunks|, k requires 0 <= k < |hunks| => Stored(hunks[k]))
  }

  /** Where patching has got to behind a hunk. */
  function Behind(h: Hunk): nat { if h.kind == Update then h.pos + 1 else h.pos }

  /** Each hunk can be applied where it says: not before the place patching has got to, and inside the database. */
  ghost predicate Applicable(n: nat, i: nat, hunks: seq<Hunk>)
    decreases |hunks|
  {
    hunks == [] || (i <= hunks[0].pos && Behind(hunks[0]) <= n && Applicable(n, Behind(hunks[0]), hunks[1..]))
  }

  lemma {:induction false} InsertsApply(n: nat, rest: seq<Pw>)
    ensures Applicable(n, n, Inserts(rest, n))
  {
    if rest != [] {
      InsertsApply(n, rest[1..]);
      assert Inserts(rest, n)[1..] == Inserts(rest[1..], n);
    }
  }

  lemma {:induction false} HunksApply(old_: seq<Pw>, new_: seq<Pw>, i: nat, j: nat)
    requires i <= |old_| && j <= |new_| && DiffFrom(old_, new_, i, j).Hunks?
    ensures Applicable(|old_|, i, DiffFrom(old_, new_, i, j).hunks)
    decreases |new_| - j
  {
    hide MismatchSpec, DiffFrom, Decide, Applicable;
    var (i', j') := MismatchSpec(old_, new_, i, j);
    var hunks := DiffFrom(old_, new_, i, j).hunks;
    DiffStep(old_, new_, i, j);
    if i' == |old_| {
      InsertsApply(|old_|, new_[j'..]);
      AppliesEarlier(|old_|, i, i', hunks);
    } else {
      var next := if Decide(old_, new_, i', j').EmitInsert? then i' else i' + 1;
      HunksApply(old_, new_, next, j' + 1);
      AppliesFirst(|old_|, i, hunks[0], DiffFrom(old_, new_, next, j' + 1).hunks);
    }
  }

  lemma AppliesEarlier(n: nat, i: nat, k: nat, hunks: seq<Hunk>)
    requires i <= k && Applicable(n, k, hunks)
    ensures Applicable(n, i, hunks)
  {
  }

  lemma AppliesFirst(n: nat, i: nat, h: Hunk, rest: seq<Hunk>)
    requires i <= h.pos && Behind(h) <= n && Applicable(n, Behind(h), rest)
    ensures Applicable(n, i, [h] + rest)
  {
    assert ([h] + rest)[1..] == rest;
  }

  /** The record of a hunk belongs where the hunk is: behind the old record in front of it, or in place of one with the
      same hash. */
  ghost predicate Placed(old_: seq<Pw>, h: Hunk) {
    if h.kind == Insert then 0 < h.pos <= |old_| ==> PwLess()(old_[h.pos - 1], h.pw)
    else h.pos < |old_| && SameHash(old_[h.pos], h.pw)
  }

  ghost predicate AllPlaced(old_: seq<Pw>, hunks: seq<Hunk>) {
    forall k :: 0 <= k < |hunks| ==> Placed(old_, hunks[k])
  }

  lemma PlacedPrepend(old_: seq<Pw>, h: Hunk, rest: seq<Hunk>)
    requires Placed(old_, h) && AllPlaced(old_, rest)
    ensures AllPlaced(old_, [h] + rest)
  {
  }

  lemma RestIsPlaced(old_: seq<Pw>, new_: seq<Pw>, j: nat)
    requires StrictlyAscending(old_) && StrictlyAscending(new_) && Synced(old_, new_, |old_|, j)
    ensures AllPlaced(old_, Inserts(new_[j..], |old_|))
  {
    SyncedOrder(old_, new_, |old_|, j);
    if |old_| > 0 && j < |new_| { Above(new_, j, old_[|old_| - 1]); }
  }

  /** On ascending databases every hunk is in its place. */
  lemma {:induction false} HunksArePlaced(old_: seq<Pw>, new_: seq<Pw>, i: nat, j: nat)
    requires StrictlyAscending(old_) && StrictlyAscending(new_) && Synced(old_, new_, i, j)
    requires DiffFrom(old_, new_, i, j).Hunks?
    ensures AllPlaced(old_, DiffFrom(old_, new_, i, j).hunks)
    decreases |old_| - i
  {
    hide StrictlyAscending, PwLess, AllPlaced, Placed, MismatchSpec, Synced, DiffFrom, Decide;
    SyncedInside(old_, new_, i, j);
    if i == |old_| {
      DiffStep(old_, new_, i, j);
      MismatchEnds(old_, new_, i, j);
      RestIsPlaced(old_, new_, j);
    } else if j < |new_| && old_[i] == new_[j] {
      SkipMatch(old_, new_, i, j);
      SyncedAfter(old_, new_, i, j);
      HunksArePlaced(old_, new_, i + 1, j + 1);
    } else {
      var k := PlacedRound(old_, new_, i, j);
      HunksArePlaced(old_, new_, i + 1, k);
      PlacedPrepend(old_, DiffFrom(old_, new_, i, j).hunks[0], DiffFrom(old_, new_, i + 1, k).hunks);
    }
  }

  /** The first hunk of a diff that begins with a difference, and the diff it leaves. */
  lemma PlacedRound(old_: seq<Pw>, new_: seq<Pw>, i: nat, j: nat) returns (k: nat)
    requires StrictlyAscending(old_) && StrictlyAscending(new_) && Synced(old_, new_, i, j)
    requires i < |old_| && (j < |new_| ==> old_[i] != new_[j]) && DiffFrom(old_, new_, i, j).Hunks?
    ensures Synced(old_, new_, i + 1, k) && k <= |new_| && DiffFrom(old_, new_, i + 1, k).Hunks?
    ensures var hunks := DiffFrom(old_, new_, i, j).hunks;
      hunks != [] && Placed(old_, hunks[0]) && hunks == [hunks[0]] + DiffFrom(old_, new_, i + 1, k).hunks
  {
    hide StrictlyAscending, PwLess, MismatchSpec;
    MismatchEnds(old_, new_, i, j);
    DiffStep(old_, new_, i, j);
    SyncedOrder(old_, new_, i, j);
    if Decide(old_, new_, i, j).EmitInsert? {
      SkipMatch(old_, new_, i, j + 1);
      k := j + 2;
    } else {
      EmitsUpdate(old_, new_, i, j);
      k := j + 1;
    }
    hide DiffFrom;
  }

  lemma SyncedInside(old_: seq<Pw>, new_: seq<Pw>, i: nat, j: nat)
    requires Synced(old_, new_, i, j)
    ensures i <= |old_| && j <= |new_|
  {
  }

  lemma SyncedAfter(old_: seq<Pw>, new_: seq<Pw>, i: nat, j: nat)
    requires i < |old_| && j < |new_| && SameHash(new_[j], old_[i])
    ensures Synced(old_, new_, i + 1, j + 1)
  {
  }

  lemma EmitsUpdate(old_: seq<Pw>, new_: seq<Pw>, i: nat, j: nat)
    requires i < |old_| && j < |new_| && old_[i] != new_[j] && DiffFrom(old_, new_, i, j).Hunks?
    requires !Decide(old_, new_, i, j).EmitInsert?
    ensures SameHash(old_[i], new_[j])
  {
  }

  /** No step is taken at the end of a database or at a difference. */
  lemma MismatchEnds(old_: seq<Pw>, new_: seq<Pw>, i: nat, j: nat)
    requires i <= |old_| && j <= |new_| && (i == |old_| || j == |new_| || old_[i] != new_[j])
    ensures MismatchSpec(old_, new_, i, j) == (i, j)
  {
  }

  /** A patched database ends with the last hunk's record and the old records behind it. */
  lemma {:induction false} PatchEnds(old_: seq<Pw>, i: nat, hunks: seq<Hunk>) returns (front: seq<Pw>)
    requires i <= |old_| && hunks != [] && Applicable(|old_|, i, hunks)
    ensures var last := hunks[|hunks| - 1];
      Behind(last) <= |old_| && Patch(old_, i, hunks) == front + [last.pw] + old_[Behind(last)..]
    decreases |hunks|, |old_| - i
  {
    if hunks[0].pos > i {
      PatchCopiesOne(old_, i, hunks);
      hide Patch;
      front := PatchEnds(old_, i + 1, hunks);
      front := [old_[i]] + front;
    } else {
      PatchApplies(old_, hunks);
      hide Patch;
      if |hunks| == 1 {
        front := [];
        PatchNothing(old_, Behind(hunks[0]));
        assert hunks[1..] == [];
      } else {
        front := PatchEnds(old_, Behind(hunks[0]), hunks[1..]);
        front := [hunks[0].pw] + front;
      }
    }
  }

  lemma PatchApplies(old_: seq<Pw>, hunks: seq<Hunk>)
    requires hunks != [] && Behind(hunks[0]) <= |old_|
    ensures Patch(old_, hunks[0].pos, hunks) == [hunks[0].pw] + Patch(old_, Behind(hunks[0]), hunks[1..])
  {
  }

  lemma PatchNothing(old_: seq<Pw>, i: nat)
    requires i <= |old_|
    ensures Patch(old_, i, []) == old_[i..]
  {
  }

  lemma NotInFront(old_: seq<Pw>, h: Hunk, e: nat)
    requires StrictlyAscending(old_) && Placed(old_, h)
    requires e < |old_| && (if h.kind == Insert then e < h.pos <= |old_| else e <= h.pos)
    ensures !PwLess()(h.pw, old_[e])
  {
    if h.kind == Insert {
      Below(old_, h.pos - 1, h.pw);
      HashOrder(old_[e], h.pw);
    } else {
      HashOrder(old_[e], old_[h.pos]);
    }
  }

  /** Behind a hunk that was stored with too small a position comes a record that should be in front of it. */
  lemma WrongPlace(old_: seq<Pw>, new_: seq<Pw>, front: seq<Pw>, h: Hunk, e: nat)
    requires StrictlyAscending(old_) && StrictlyAscending(new_) && Placed(old_, h)
    requires e < |old_| && (if h.kind == Insert then e < h.pos <= |old_| else e <= h.pos)
    ensures front + [h.pw] + old_[e..] != new_
  {
    NotInFront(old_, h, e);
    var out := front + [h.pw] + old_[e..];
    assert out[|front|] == h.pw && out[|front| + 1] == old_[e];
  }

  /** On ascending databases the diff as it is stored can be applied and gives the new database if and only if every
      position fits 32 bits. */
  lemma StoredDiffIff(old_: seq<Pw>, new_: seq<Pw>)
    requires StrictlyAscending(old_) && StrictlyAscending(new_) && DiffFrom(old_, new_, 0, 0).Hunks?
    ensures var hunks := DiffFrom(old_, new_, 0, 0).hunks;
      Applicable(|old_|, 0, AllStored(hunks)) && Patch(old_, 0, AllStored(hunks)) == new_ <==>
        forall k :: 0 <= k < |hunks| ==> hunks[k].pos < 0x1_0000_0000
  {
    hide DiffFrom, StrictlyAscending, Applicable, Patch, Placed;
    var hunks := DiffFrom(old_, new_, 0, 0).hunks;
    PatchGivesNew(old_, new_, 0, 0);
    assert new_[0..] == new_;
    if forall k :: 0 <= k < |hunks| ==> hunks[k].pos < 0x1_0000_0000 {
      assert AllStored(hunks) == hunks;
      HunksApply(old_, new_, 0, 0);
    } else {
      var last := hunks[|hunks| - 1];
      assert last.pos >= 0x1_0000_0000;
      HunksArePlaced(old_, new_, 0, 0);
      if Applicable(|old_|, 0, AllStored(hunks)) {
        var front := PatchEnds(old_, 0, AllStored(hunks));
        assert Placed(old_, last);
        UpdateInside(old_, last);
        WrongPlace(old_, new_, front, last, Behind(Stored(last)));
      }
    }
  }

  lemma UpdateInside(old_: seq<Pw>, h: Hunk)
    requires Placed(old_, h)
    ensures h.kind == Update ==> h.pos < |old_|
  {
  }
}
