/** The binary heap behind std::priority_queue, kept in a vector.

    `cmp(a, b)` is the comparator given to the queue; it says that `a` has lower priority than `b`.
    The standard asks for a strict comparator, but the external sort passes a negated, non-strict one.
    Everything here is therefore proved for any comparator that lies between the strict and the
    non-strict reading of a strict weak order `lt`, whose minimum is the element wanted on top. */
module Heap {
  import opened Orders

  ghost predicate Between<T(!new)>(lt: (T, T) -> bool, cmp: (T, T) -> bool) {
    && StrictWeakOrder(lt)
    && (forall a, b :: lt(b, a) ==> cmp(a, b))
    && (forall a, b :: cmp(a, b) ==> !lt(a, b))
  }

  function Parent(i: int): int { (i - 1) / 2 }

  ghost predicate Ordered<T>(lt: (T, T) -> bool, c: seq<T>, i: int)
    requires 1 <= i < |c|
  {
    !lt(c[i], c[Parent(i)])
  }

  ghost predicate IsHeap<T>(lt: (T, T) -> bool, c: seq<T>) {
    forall i :: 1 <= i < |c| ==> Ordered(lt, c, i)
  }

  /** A heap but for the links that touch `hole`; the hole's children still suit its parent. */
  ghost predicate IsHeapAround<T>(lt: (T, T) -> bool, c: seq<T>, hole: int) {
    && 0 <= hole < |c|
    && (forall i :: 1 <= i < |c| && i != hole && Parent(i) != hole ==> Ordered(lt, c, i))
    && (forall i :: 1 <= i < |c| && Parent(i) == hole && 1 <= hole ==> !lt(c[i], c[Parent(hole)]))
  }

  ghost predicate ChildrenSuit<T>(lt: (T, T) -> bool, c: seq<T>, hole: int)
    requires 0 <= hole < |c|
  {
    forall i :: 1 <= i < |c| && Parent(i) == hole ==> Ordered(lt, c, i)
  }

  function Swap<T>(c: seq<T>, i: int, j: int): (r: seq<T>)
    requires 0 <= i < |c| && 0 <= j < |c|
    ensures |r| == |c| && multiset(r) == multiset(c)
  {
    c[i := c[j]][j := c[i]]
  }

  lemma EmptyIsHeap<T>(lt: (T, T) -> bool)
    ensures IsHeap(lt, [])
  {
  }

  /** The top of a heap is a minimum of the whole vector. */
  lemma {:induction false} TopIsMinimum<T(!new)>(lt: (T, T) -> bool, c: seq<T>, i: nat)
    requires StrictWeakOrder(lt) && IsHeap(lt, c) && i < |c|
    ensures !lt(c[i], c[0])
    decreases i
  {
    if i > 0 {
      TopIsMinimum(lt, c, Parent(i));
      assert Ordered(lt, c, i);
      NotGreaterChains(lt, c[0], c[Parent(i)], c[i]);
    }
  }

  lemma TopIsMinimumOfAll<T(!new)>(lt: (T, T) -> bool, c: seq<T>)
    requires StrictWeakOrder(lt) && IsHeap(lt, c)
    ensures forall x :: x in multiset(c) ==> !lt(x, c[0])
  {
    forall x | x in multiset(c) ensures !lt(x, c[0]) {
      var i :| 0 <= i < |c| && c[i] == x;
      TopIsMinimum(lt, c, i);
    }
  }

  lemma SwapUpKeepsShape<T(!new)>(lt: (T, T) -> bool, c: seq<T>, hole: int)
    requires StrictWeakOrder(lt)
    requires IsHeapAround(lt, c, hole) && ChildrenSuit(lt, c, hole) && hole > 0
    requires !lt(c[Parent(hole)], c[hole])
    ensures var p := Parent(hole); var d := Swap(c, hole, p);
            IsHeapAround(lt, d, p) && ChildrenSuit(lt, d, p)
  {
    var p := Parent(hole);
    var d := Swap(c, hole, p);
    forall i | 1 <= i < |d| && i != p && Parent(i) != p ensures Ordered(lt, d, i) {
      if Parent(i) == hole {
        assert !lt(c[i], c[p]);
      } else {
        assert Ordered(lt, c, i);
      }
    }
    forall i | 1 <= i < |d| && Parent(i) == p
      ensures Ordered(lt, d, i)
      ensures 1 <= p ==> !lt(d[i], d[Parent(p)])
    {
      if 1 <= p { assert Ordered(lt, c, p); }
      if i == hole {
      } else {
        assert Ordered(lt, c, i);
        if lt(d[i], d[p]) {
          NotGreaterChains(lt, c[hole], c[p], c[i]);
        }
        if 1 <= p { NotGreaterChains(lt, c[Parent(p)], c[p], c[i]); }
      }
    }
  }

  /** The second half of std::push_heap: moves the value at `start` towards the root. */
  method SiftUp<T(!new)>(ghost lt: (T, T) -> bool, cmp: (T, T) -> bool, c: seq<T>, start: nat) returns (r: seq<T>)
    requires Between(lt, cmp)
    requires IsHeapAround(lt, c, start) && ChildrenSuit(lt, c, start)
    ensures IsHeap(lt, r) && multiset(r) == multiset(c) && |r| == |c|
  {
    r := c;
    var hole: int := start;
    while hole > 0 && cmp(r[Parent(hole)], r[hole])
      invariant IsHeapAround(lt, r, hole) && ChildrenSuit(lt, r, hole)
      invariant multiset(r) == multiset(c) && |r| == |c|
    {
      SwapUpKeepsShape(lt, r, hole);
      r := Swap(r, hole, Parent(hole));
      hole := Parent(hole);
    }
    forall i | 1 <= i < |r| ensures Ordered(lt, r, i) { }
  }

  /** std::priority_queue::push: append, then sift up. */
  method Push<T(!new)>(ghost lt: (T, T) -> bool, cmp: (T, T) -> bool, c: seq<T>, x: T) returns (r: seq<T>)
    requires Between(lt, cmp) && IsHeap(lt, c)
    ensures IsHeap(lt, r) && multiset(r) == multiset(c) + multiset{x} && |r| == |c| + 1
  {
    var d := c + [x];
    forall i | 1 <= i < |d| && i != |c| ensures Parent(i) != |c| && Ordered(lt, d, i) {
      assert Ordered(lt, c, i);
    }
    r := SiftUp(lt, cmp, d, |c|);
  }

  lemma SwapDownKeepsShape<T(!new)>(lt: (T, T) -> bool, c: seq<T>, hole: int, child: int)
    requires StrictWeakOrder(lt)
    requires IsHeapAround(lt, c, hole)
    requires 1 <= child < |c| && Parent(child) == hole
    requires forall i :: 1 <= i < |c| && Parent(i) == hole ==> !lt(c[i], c[child])
    ensures IsHeapAround(lt, Swap(c, hole, child), child)
  {
  }

  /** std::__adjust_heap: lets the hole sink to a leaf along the preferred children, then sifts its value up. */
  method Adjust<T(!new)>(ghost lt: (T, T) -> bool, cmp: (T, T) -> bool, c: seq<T>) returns (r: seq<T>)
    requires Between(lt, cmp) && IsHeapAround(lt, c, 0)
    ensures IsHeap(lt, r) && multiset(r) == multiset(c) && |r| == |c|
  {
    var d := c;
    var hole := 0;
    while 2 * hole + 2 < |d|
      invariant IsHeapAround(lt, d, hole)
      invariant multiset(d) == multiset(c) && |d| == |c|
      decreases |c| - hole
    {
      var child := 2 * hole + 2;
      if cmp(d[child], d[child - 1]) { child := child - 1; }
      forall i | 1 <= i < |d| && Parent(i) == hole ensures !lt(d[i], d[child]) {
        assert i == 2 * hole + 1 || i == 2 * hole + 2;
      }
      SwapDownKeepsShape(lt, d, hole, child);
      d := Swap(d, hole, child);
      hole := child;
    }
    if 2 * hole + 2 == |d| {
      var child := 2 * hole + 1;
      forall i | 1 <= i < |d| && Parent(i) == hole ensures i == child { }
      SwapDownKeepsShape(lt, d, hole, child);
      d := Swap(d, hole, child);
      hole := child;
    }
    r := SiftUp(lt, cmp, d, hole);
  }

  /** std::priority_queue::top and pop: the element removed is a minimum of `lt`. */
  method Pop<T(!new)>(ghost lt: (T, T) -> bool, cmp: (T, T) -> bool, c: seq<T>) returns (top: T, r: seq<T>)
    requires Between(lt, cmp) && IsHeap(lt, c) && c != []
    ensures IsHeap(lt, r) && multiset(c) == multiset(r) + multiset{top} && |c| == |r| + 1
    ensures top == c[0]
    ensures forall x :: x in multiset(c) ==> !lt(x, top)
  {
    TopIsMinimumOfAll(lt, c);
    top := c[0];
    var last := |c| - 1;
    assert c == [c[0]] + c[1..];
    if last == 0 {
      r := [];
    } else {
      var d := [c[last]] + c[1..last];
      assert c == [c[0]] + c[1..last] + [c[last]];
      forall i | 1 <= i < |d| && Parent(i) != 0 ensures Ordered(lt, d, i) {
        assert Ordered(lt, c, i);
      }
      r := Adjust(lt, cmp, d);
    }
  }
}
