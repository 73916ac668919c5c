/** Comparators as the C++ standard library understands them, and sequences sorted by them. */
module Orders {

  /** The three axioms every comparator handed to std::sort or std::priority_queue must meet. */
  ghost predicate StrictWeakOrder<T(!new)>(lt: (T, T) -> bool) {
    && (forall a :: !lt(a, a))
    && (forall a, b, c :: lt(a, b) && lt(b, c) ==> lt(a, c))
    && (forall a, b, c :: Equivalent(lt, a, b) && Equivalent(lt, b, c) ==> Equivalent(lt, a, c))
  }

  ghost predicate Equivalent<T>(lt: (T, T) -> bool, a: T, b: T) {
    !lt(a, b) && !lt(b, a)
  }

  /** A comparator under which only identical values are equivalent. */
  ghost predicate TotalOrder<T(!new)>(lt: (T, T) -> bool) {
    && StrictWeakOrder(lt)
    && (forall a, b :: Equivalent(lt, a, b) ==> a == b)
  }

  ghost predicate SortedBy<T>(lt: (T, T) -> bool, s: seq<T>) {
    forall i, j :: 0 <= i < j < |s| ==> !lt(s[j], s[i])
  }

  /** "Not greater" chains: the form in which the sorting proofs use the axioms. */
  lemma NotGreaterChains<T(!new)>(lt: (T, T) -> bool, a: T, b: T, c: T)
    requires StrictWeakOrder(lt)
    requires !lt(b, a) && !lt(c, b)
    ensures !lt(c, a)
  {
    assert lt(a, b) || Equivalent(lt, a, b);
    assert lt(b, c) || Equivalent(lt, b, c);
    assert Equivalent(lt, a, b) && Equivalent(lt, b, c) ==> Equivalent(lt, a, c);
  }

  function Projected<T, K>(comp: (K, K) -> bool, proj: T -> K): (T, T) -> bool {
    (a: T, b: T) => comp(proj(a), proj(b))
  }

  /** A comparator applied through a projection keeps the axioms. */
  lemma ProjectedOrder<T(!new), K(!new)>(comp: (K, K) -> bool, proj: T -> K)
    requires StrictWeakOrder(comp)
    ensures StrictWeakOrder(Projected(comp, proj))
  {
    var lt := Projected(comp, proj);
    forall a, b, c | Equivalent(lt, a, b) && Equivalent(lt, b, c) ensures Equivalent(lt, a, c) {
      assert Equivalent(comp, proj(a), proj(b)) && Equivalent(comp, proj(b), proj(c));
      assert Equivalent(comp, proj(a), proj(c));
    }
  }

  /** Stand-in for std::sort, whose internals belong to the standard library. */
  function Sort<T(!new)>(lt: (T, T) -> bool, s: seq<T>): (r: seq<T>)
    ensures multiset(r) == multiset(s)
    ensures |r| == |s|
  {
    if s == [] then []
    else
      assert s == s[..|s| - 1] + [s[|s| - 1]];
      Insert(lt, Sort(lt, s[..|s| - 1]), s[|s| - 1])
  }

  function Insert<T(!new)>(lt: (T, T) -> bool, s: seq<T>, x: T): (r: seq<T>)
    ensures multiset(r) == multiset(s) + multiset{x}
    ensures |r| == |s| + 1
  {
    if s == [] || !lt(x, s[|s| - 1]) then s + [x]
    else
      assert s == s[..|s| - 1] + [s[|s| - 1]];
      Insert(lt, s[..|s| - 1], x) + [s[|s| - 1]]
  }

  lemma {:induction false} InsertKeepsSorted<T(!new)>(lt: (T, T) -> bool, s: seq<T>, x: T)
    requires StrictWeakOrder(lt) && SortedBy(lt, s)
    ensures SortedBy(lt, Insert(lt, s, x))
  {
    var r := Insert(lt, s, x);
    if s == [] || !lt(x, s[|s| - 1]) {
      forall i | 0 <= i < |s| ensures !lt(x, s[i]) {
        if i < |s| - 1 { NotGreaterChains(lt, s[i], s[|s| - 1], x); }
      }
    } else {
      var init, last := s[..|s| - 1], s[|s| - 1];
      InsertKeepsSorted(lt, init, x);
      forall i | 0 <= i < |r| - 1 ensures !lt(last, r[i]) {
        assert r[i] in multiset(Insert(lt, init, x));
        assert r[i] in multiset(init) || r[i] == x;
      }
    }
  }

  lemma {:induction false} SortSorts<T(!new)>(lt: (T, T) -> bool, s: seq<T>)
    requires StrictWeakOrder(lt)
    ensures SortedBy(lt, Sort(lt, s))
  {
    if s != [] {
      SortSorts(lt, s[..|s| - 1]);
      InsertKeepsSorted(lt, Sort(lt, s[..|s| - 1]), s[|s| - 1]);
    }
  }

  lemma TailOf<T>(s: seq<T>)
    requires s != []
    ensures s == [s[0]] + s[1..] && multiset(s[1..]) == multiset(s) - multiset{s[0]}
  {
  }

  lemma SameMinimum<T(!new)>(lt: (T, T) -> bool, s: seq<T>, t: seq<T>)
    requires TotalOrder(lt) && s != [] && t != []
    requires SortedBy(lt, s) && SortedBy(lt, t) && multiset(s) == multiset(t)
    ensures s[0] == t[0]
  {
    assert s[0] in multiset(t) && t[0] in multiset(s);
    assert Equivalent(lt, s[0], t[0]);
  }

  /** Under a total order a multiset has only one sorted arrangement. */
  lemma {:induction false} SortedIsUnique<T(!new)>(lt: (T, T) -> bool, s: seq<T>, t: seq<T>)
    requires TotalOrder(lt)
    requires SortedBy(lt, s) && SortedBy(lt, t) && multiset(s) == multiset(t)
    ensures s == t
  {
    assert |s| == |multiset(s)| == |multiset(t)| == |t|;
    if s != [] {
      SameMinimum(lt, s, t);
      TailOf(s);
      TailOf(t);
      SortedIsUnique(lt, s[1..], t[1..]);
    }
  }
}
