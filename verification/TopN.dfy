/** app/hibp_topn.cpp: the N most common records, by hash. */
module TopN {
  import opened Orders
  import opened Heap
  import opened Codec
  import opened FlatFile

  /** The comparator of the selection: count descending, then hash ascending. */
  function MoreCommon(): (Pw, Pw) -> bool {
    (a: Pw, b: Pw) => if a.count == b.count then PwLess()(a, b) else a.count > b.count
  }

  /** Two records it does not order are the same record, so the selection is unique. */
  lemma MoreCommonIsTotal()
    ensures TotalOrder(MoreCommon())
  {
    hide PwLess;
    PwLessIsOrder();
    forall a: Pw, b: Pw, c: Pw | MoreCommon()(a, b) && MoreCommon()(b, c) ensures MoreCommon()(a, c) {
      assert PwLess()(a, b) && PwLess()(b, c) ==> PwLess()(a, c);
    }
    forall a: Pw, b: Pw | Equivalent(MoreCommon(), a, b) ensures a == b {
      assert a.count == b.count;
      assert Equivalent(PwLess(), a, b);
    }
  }

  /** The order of the bounded heap: the least common record on top. */
  function LessCommon(): (Pw, Pw) -> bool { (a: Pw, b: Pw) => MoreCommon()(b, a) }

  lemma LessCommonIsBetween()
    ensures Between(LessCommon(), MoreCommon())
  {
    hide MoreCommon;
    MoreCommonIsTotal();
    forall a: Pw, b: Pw, c: Pw | Equivalent(LessCommon(), a, b) && Equivalent(LessCommon(), b, c)
      ensures Equivalent(LessCommon(), a, c)
    {
      assert Equivalent(MoreCommon(), a, b) && Equivalent(MoreCommon(), b, c);
    }
    forall a: Pw, b: Pw | MoreCommon()(a, b) ensures !LessCommon()(a, b) {
      assert MoreCommon()(a, b) && MoreCommon()(b, a) ==> MoreCommon()(a, a);
    }
  }

  ghost predicate SplitAt(kept: multiset<Pw>, dropped: multiset<Pw>) {
    forall k, d :: k in kept && d in dropped ==> !MoreCommon()(d, k)
  }

  lemma NothingDropped(kept: multiset<Pw>)
    ensures SplitAt(kept, multiset{})
  {
  }

  /** The first n of a sorted sequence are the only n-element multiset with nothing more common outside. */
  lemma SelectionIsUnique(all: seq<Pw>, kept: multiset<Pw>, dropped: multiset<Pw>, n: nat)
    requires kept + dropped == multiset(all) && SplitAt(kept, dropped) && |kept| == n <= |all|
    ensures multiset(Sort(MoreCommon(), all)[..n]) == kept
  {
    MoreCommonIsTotal();
    var k, d := Arrange(kept), Arrange(dropped);
    var s, t := Sort(MoreCommon(), k), Sort(MoreCommon(), d);
    SortSorts(MoreCommon(), k);
    SortSorts(MoreCommon(), d);
    SortSorts(MoreCommon(), all);
    JoinSorted(s, t, kept, dropped);
    assert multiset(s + t) == multiset(s) + multiset(t);
    SortedIsUnique(MoreCommon(), s + t, Sort(MoreCommon(), all));
    assert |s| == |multiset(s)| == n;
    assert (s + t)[..n] == s;
  }

  lemma JoinSorted(s: seq<Pw>, t: seq<Pw>, kept: multiset<Pw>, dropped: multiset<Pw>)
    requires SortedBy(MoreCommon(), s) && SortedBy(MoreCommon(), t) && SplitAt(kept, dropped)
    requires multiset(s) == kept && multiset(t) == dropped
    ensures SortedBy(MoreCommon(), s + t)
  {
  }

  ghost function Arrange(m: multiset<Pw>): (s: seq<Pw>)
    ensures multiset(s) == m
    decreases |m|
  {
    if m == multiset{} then []
    else
      var x :| x in m;
      Arrange(m - multiset{x}) + [x]
  }

  /** std::partial_sort_copy into n places: a bounded heap whose top, the least common record kept, gives way to any
      record that is more common. (The standard algorithm then sorts the heap; the order is replaced at once by the
      sort by hash, so only the contents matter.) */
  method PartialSortCopy(db: Database<Pw>, n: nat) returns (memdb: seq<Pw>)
    requires db.Valid() && n <= |db.file|
    modifies db, db.buf
    ensures db.Valid()
    ensures |memdb| == n && multiset(memdb) == multiset(Sort(MoreCommon(), db.file)[..n])
  {
    hide MoreCommon, Between, LessCommon, IsHeap, SplitAt;
    LessCommonIsBetween();
    memdb := [];
    EmptyIsHeap(LessCommon());
    if n == 0 { return; }
    NothingDropped(multiset{});
    ghost var dropped: multiset<Pw> := multiset{};
    for i := 0 to |db.file|
      modifies db, db.buf
      invariant db.Valid() && IsHeap(LessCommon(), memdb) && |memdb| == Least(i, n)
      invariant multiset(memdb) + dropped == multiset(db.file[..i])
      invariant SplitAt(multiset(memdb), dropped) && (i <= n ==> dropped == multiset{})
    {
      var r := db.GetRecord(i);
      assert db.file[..i + 1] == db.file[..i] + [r.value];
      if i < n {
        memdb := Push(LessCommon(), MoreCommon(), memdb, r.value);
        NothingDropped(multiset(memdb));
      } else {
        memdb, dropped := Offer(memdb, r.value, dropped);
      }
    }
    assert db.file[..|db.file|] == db.file;
    SelectionIsUnique(db.file, multiset(memdb), dropped, n);
  }

  /** One record against a full heap. */
  method Offer(memdb: seq<Pw>, x: Pw, ghost dropped: multiset<Pw>) returns (r: seq<Pw>, ghost dropped': multiset<Pw>)
    requires IsHeap(LessCommon(), memdb) && memdb != [] && SplitAt(multiset(memdb), dropped)
    ensures IsHeap(LessCommon(), r) && |r| == |memdb| && SplitAt(multiset(r), dropped')
    ensures multiset(r) + dropped' == multiset(memdb) + dropped + multiset{x}
  {
    LessCommonIsBetween();
    MoreCommonIsTotal();
    if MoreCommon()(x, memdb[0]) {
      var top, rest := Pop(LessCommon(), MoreCommon(), memdb);
      r := Push(LessCommon(), MoreCommon(), rest, x);
      dropped' := dropped + multiset{top};
      ReplaceTop(multiset(rest), dropped, top, x);
    } else {
      TopIsMinimumOfAll(LessCommon(), memdb);
      r, dropped' := memdb, dropped + multiset{x};
      DropNew(memdb, dropped, x);
    }
  }

  lemma ReplaceTop(rest: multiset<Pw>, dropped: multiset<Pw>, top: Pw, x: Pw)
    requires SplitAt(rest + multiset{top}, dropped) && MoreCommon()(x, top)
    requires forall y :: y in rest + multiset{top} ==> !LessCommon()(y, top)
    ensures SplitAt(rest + multiset{x}, dropped + multiset{top})
  {
    MoreCommonIsTotal();
    hide MoreCommon;
    forall k, d | k in rest + multiset{x} && d in dropped + multiset{top} ensures !MoreCommon()(d, k) {
      assert top in rest + multiset{top};
      if k == x {
        assert MoreCommon()(d, x) && MoreCommon()(x, top) ==> MoreCommon()(d, top);
      } else {
        assert k in rest + multiset{top};
        assert !LessCommon()(k, top);
      }
    }
  }

  lemma DropNew(memdb: seq<Pw>, dropped: multiset<Pw>, x: Pw)
    requires memdb != [] && SplitAt(multiset(memdb), dropped) && !MoreCommon()(x, memdb[0])
    requires forall y :: y in multiset(memdb) ==> !LessCommon()(y, memdb[0])
    ensures SplitAt(multiset(memdb), dropped + multiset{x})
  {
    MoreCommonIsTotal();
    hide MoreCommon;
    forall k | k in multiset(memdb) ensures !MoreCommon()(x, k) {
      assert !LessCommon()(k, memdb[0]);
      NotGreaterChains(MoreCommon(), k, memdb[0], x);
    }
  }

  datatype TopResult = Written | NotSmaller

  /** build_topn: the program refuses unless N is smaller than the database; otherwise it writes exactly N records in
      hash order, and they are the first N when the database is sorted by count descending, hash ascending. */
  method BuildTopN(db: Database<Pw>, topn: nat, output: OStream<Pw>) returns (r: TopResult)
    requires db.Valid() && output.contents == []
    modifies db, db.buf, output
    ensures db.Valid()
    ensures r == NotSmaller <==> |db.file| <= topn
    ensures r == NotSmaller ==> output.contents == []
    ensures r == Written ==> IsTopN(db.file, topn, output.contents)
  {
    if |db.file| <= topn { return NotSmaller; }
    var memdb := PartialSortCopy(db, topn);
    PwLessIsOrder();
    SortSorts(PwLess(), memdb);
    WriteTo(output, Sort(PwLess(), memdb), 1000);
    return Written;
  }

  ghost predicate IsTopN(db: seq<Pw>, n: nat, out: seq<Pw>) {
    && n <= |db| && |out| == n
    && SortedBy(PwLess(), out)
    && multiset(out) == multiset(Sort(MoreCommon(), db)[..n])
  }

  /** In a sorted database every record behind the first n is less common than each of them, or as common with no
      smaller hash. */
  lemma BehindIsLess(all: seq<Pw>, n: nat, k: Pw, d: Pw)
    requires SortedBy(MoreCommon(), all) && n <= |all| && k in all[..n] && d in all[n..]
    ensures d.count < k.count || (d.count == k.count && !PwLess()(d, k))
  {
    hide PwLess;
    var i :| 0 <= i < n && all[..n][i] == k;
    var j :| 0 <= j < |all| - n && all[n..][j] == d;
    assert !MoreCommon()(all[n + j], all[i]);
  }

  /** So the records left out are less common than those kept, or as common with no smaller hash. */
  lemma MostCommonAreKept(db: seq<Pw>, n: nat, out: seq<Pw>)
    requires IsTopN(db, n, out)
    ensures multiset(out) <= multiset(db)
    ensures forall k, d :: k in multiset(out) && d in multiset(db) - multiset(out) ==>
              d.count < k.count || (d.count == k.count && !PwLess()(d, k))
  {
    hide PwLess, MoreCommon, SortedBy;
    var all := Sort(MoreCommon(), db);
    MoreCommonIsTotal();
    SortSorts(MoreCommon(), db);
    assert all == all[..n] + all[n..];
    forall k, d | k in multiset(out) && d in multiset(db) - multiset(out)
      ensures d.count < k.count || (d.count == k.count && !PwLess()(d, k))
    {
      assert k in multiset(all[..n]) && d in multiset(all[n..]);
      BehindIsLess(all, n, k, d);
    }
  }

  /** No two of the records share a hash but differ in count. */
  ghost predicate OneCountPerHash(m: multiset<Pw>) {
    forall a, b :: a in m && b in m && SameHash(a, b) ==> a == b
  }

  /** The program's output is determined by the database exactly when its first N records, by count descending and hash
      ascending, have one count per hash; otherwise the sort by hash may leave two of them in either order. */
  lemma TopNUniqueIff(db: seq<Pw>, n: nat)
    requires n <= |db|
    ensures OneCountPerHash(multiset(Sort(MoreCommon(), db)[..n])) <==>
              forall out, other :: IsTopN(db, n, out) && IsTopN(db, n, other) ==> out == other
  {
    hide MoreCommon, PwLess;
    var kept := Sort(MoreCommon(), db)[..n];
    if OneCountPerHash(multiset(kept)) {
      forall out, other | IsTopN(db, n, out) && IsTopN(db, n, other) ensures out == other {
        SameArrangement(out, other);
      }
    } else {
      var out := SomeTopN(db, n);
      TwoTopNs(db, n, out);
    }
  }

  lemma SomeTopN(db: seq<Pw>, n: nat) returns (out: seq<Pw>)
    requires n <= |db|
    ensures IsTopN(db, n, out)
  {
    out := Sort(PwLess(), Sort(MoreCommon(), db)[..n]);
    PwLessIsOrder();
    SortSorts(PwLess(), Sort(MoreCommon(), db)[..n]);
  }

  lemma TwoTopNs(db: seq<Pw>, n: nat, out: seq<Pw>)
    requires IsTopN(db, n, out) && !OneCountPerHash(multiset(out))
    ensures exists other :: IsTopN(db, n, other) && other != out
  {
    hide PwLess;
    var a, b :| a in multiset(out) && b in multiset(out) && SameHash(a, b) && a != b;
    assert a in out && b in out;
    var i :| 0 <= i < |out| && out[i] == a;
    var j :| 0 <= j < |out| && out[j] == b;
    SwapKeepsHashOrder(out, i, j);
    assert IsTopN(db, n, Swap(out, i, j)) && Swap(out, i, j)[i] != out[i];
  }

  /** A database with no hash twice has exactly one top-N file. */
  lemma NoHashTwiceOneTopN(db: seq<Pw>, n: nat) returns (out: seq<Pw>)
    requires n <= |db| && forall i, j :: 0 <= i < j < |db| ==> !SameHash(db[i], db[j])
    ensures forall other :: IsTopN(db, n, other) <==> other == out
  {
    hide MoreCommon, PwLess;
    out := SomeTopN(db, n);
    var all := Sort(MoreCommon(), db);
    forall a, b | a in multiset(all[..n]) && b in multiset(all[..n]) && SameHash(a, b) ensures a == b {
      assert all == all[..n] + all[n..];
      assert a in multiset(db) && b in multiset(db);
      assert a in db && b in db;
    }
    TopNUniqueIff(db, n);
  }

  lemma SwapKeepsHashOrder(s: seq<Pw>, i: nat, j: nat)
    requires SortedBy(PwLess(), s) && i < |s| && j < |s| && SameHash(s[i], s[j])
    ensures SortedBy(PwLess(), Swap(s, i, j))
  {
  }

  lemma {:induction false} SameArrangement(s: seq<Pw>, t: seq<Pw>)
    requires SortedBy(PwLess(), s) && SortedBy(PwLess(), t)
    requires multiset(s) == multiset(t) && OneCountPerHash(multiset(s))
    ensures s == t
  {
    hide PwLess, SortedBy, OneCountPerHash;
    assert |s| == |multiset(s)| == |multiset(t)| == |t|;
    if s != [] {
      SameFirst(s, t);
      TailOf(s);
      TailOf(t);
      Tails(s);
      SortedTail(t);
      SameArrangement(s[1..], t[1..]);
    }
  }

  lemma Tails(s: seq<Pw>)
    requires SortedBy(PwLess(), s) && OneCountPerHash(multiset(s)) && s != []
    ensures SortedBy(PwLess(), s[1..]) && OneCountPerHash(multiset(s[1..]))
  {
  }

  lemma SortedTail(t: seq<Pw>)
    requires SortedBy(PwLess(), t) && t != []
    ensures SortedBy(PwLess(), t[1..])
  {
  }

  lemma SameFirst(s: seq<Pw>, t: seq<Pw>)
    requires SortedBy(PwLess(), s) && SortedBy(PwLess(), t)
    requires multiset(s) == multiset(t) && OneCountPerHash(multiset(s))
    requires s != [] && t != []
    ensures s[0] == t[0]
  {
    PwLessIsOrder();
    hide PwLess;
    assert t[0] in multiset(s) && s[0] in multiset(t);
    var i :| 0 <= i < |s| && s[i] == t[0];
    assert Equivalent(PwLess(), s[0], s[i]);
  }
}
