/** The binary-heap priority queue (BinaryPQ.hpp) with TYPE = int and
    compare = std::less: a one-indexed implicit heap in a vector whose slot 0
    holds a sentinel, so the children of slot i are 2i and 2i + 1. */
module BinaryHeap {

  /** The result of the bounds-checked vector access `data.at(1)`: `None`
      stands for the std::out_of_range it throws. */
  datatype Option<T> = None | Some(value: T)

  /** Heap order on slots 1..: no element is greater than its parent. */
  ghost predicate IsHeap(d: seq<int>) {
    forall c :: 2 <= c < |d| ==> d[c] <= d[c / 2]
  }

  /** Heap order on every edge whose parent slot is at least `lo`. */
  ghost predicate HeapFrom(d: seq<int>, lo: nat) {
    forall c :: 2 <= c < |d| && lo <= c / 2 ==> d[c] <= d[c / 2]
  }

  /** Sift-down's invariant at slot `k`: heap order on every edge whose
      parent is at least `lo` except the edges leaving `k`, and the children
      of `k` are bounded by `k`'s parent when that parent is at least `lo`. */
  ghost predicate HeapFromExcept(d: seq<int>, lo: nat, k: nat) {
    (forall c :: 2 <= c < |d| && lo <= c / 2 && c / 2 != k ==> d[c] <= d[c / 2]) &&
    (forall c :: 2 <= c < |d| && c / 2 == k && 2 <= k && lo <= k / 2 ==> d[c] <= d[k / 2])
  }

  /** Sift-up's invariant at slot `k`: heap order on every edge except the
      one from `k` to its parent, and the children of `k` are bounded by
      `k`'s parent. */
  ghost predicate HeapExceptUp(d: seq<int>, k: nat) {
    (forall c :: 2 <= c < |d| && c != k ==> d[c] <= d[c / 2]) &&
    (forall c :: 2 <= c < |d| && c / 2 == k && 2 <= k ==> d[c] <= d[k / 2])
  }

  /** In a heap, slot 1 holds a largest element. */
  lemma {:induction false} HeapRootIsMax(d: seq<int>, i: nat)
    requires IsHeap(d) && 1 <= i < |d|
    ensures d[i] <= d[1]
    decreases i
  {
    if i > 1 {
      HeapRootIsMax(d, i / 2);
    }
  }

  /** One step of sift-down: swapping `k` with its larger child `c`, which
      is not smaller than `k`, moves the exception to `c`. */
  lemma SiftDownStep(d: seq<int>, lo: nat, k: nat, c: nat)
    requires 1 <= lo <= k && 2 * k <= c <= 2 * k + 1 && c < |d|
    requires c == 2 * k + 1 ==> d[2 * k] <= d[c]
    requires c == 2 * k && 2 * k + 1 < |d| ==> d[2 * k + 1] <= d[c]
    requires d[k] <= d[c]
    requires HeapFromExcept(d, lo, k)
    ensures HeapFromExcept(d[k := d[c]][c := d[k]], lo, c)
  {
    var e := d[k := d[c]][c := d[k]];
    assert c / 2 == k;
    forall x | 2 <= x < |e| && lo <= x / 2 && x / 2 != c ensures e[x] <= e[x / 2] {
      if x / 2 == k {
        if x != c {
          assert x == 2 * k || x == 2 * k + 1;
        }
      } else if x == k {
        assert lo <= k / 2 && 2 <= k;
      }
    }
  }

  /** Sift-down stops when the larger child is smaller: no exception is
      left. */
  lemma SiftDownStops(d: seq<int>, lo: nat, k: nat, c: nat)
    requires 1 <= lo <= k && 2 * k <= c <= 2 * k + 1 && c < |d|
    requires c == 2 * k + 1 ==> d[2 * k] <= d[c]
    requires c == 2 * k && 2 * k + 1 < |d| ==> d[2 * k + 1] <= d[c]
    requires d[c] < d[k]
    requires HeapFromExcept(d, lo, k)
    ensures HeapFrom(d, lo)
  {
    forall x | 2 <= x < |d| && lo <= x / 2 ensures d[x] <= d[x / 2] {
      if x / 2 == k {
        assert x == 2 * k || x == 2 * k + 1;
      }
    }
  }

  /** A slot with no children carries no exception. */
  lemma SiftDownLeaf(d: seq<int>, lo: nat, k: nat)
    requires 1 <= lo <= k && |d| <= 2 * k
    requires HeapFromExcept(d, lo, k)
    ensures HeapFrom(d, lo)
  {
  }

  /** Overwriting slot 1 with the last element and dropping the last slot
      removes one occurrence of the old slot-1 element from slots 1.. */
  lemma MoveLastToFront(d: seq<int>)
    requires |d| >= 2
    ensures multiset(d[1 := d[|d| - 1]][..|d| - 1][1..]) == multiset(d[1..]) - multiset{d[1]}
  {
    var n := |d|;
    var t := d[1..];
    assert t == [d[1]] + d[2..];
    if n == 2 {
      assert d[1 := d[n - 1]][..n - 1][1..] == [];
    } else {
      assert d[1 := d[n - 1]][..n - 1][1..] == [d[n - 1]] + d[2..n - 1];
      assert d[2..] == d[2..n - 1] + [d[n - 1]];
    }
  }

  /** After the last element replaces slot 1 of a heap, only the edges
      leaving slot 1 can be out of order. */
  lemma MoveLastKeepsOrder(d: seq<int>)
    requires |d| >= 2 && IsHeap(d)
    ensures HeapFromExcept(d[1 := d[|d| - 1]][..|d| - 1], 1, 1)
    ensures |d| <= 3 ==> IsHeap(d[1 := d[|d| - 1]][..|d| - 1])
  {
    var e := d[1 := d[|d| - 1]][..|d| - 1];
    forall c | 2 <= c < |e| && c / 2 != 1 ensures e[c] <= e[c / 2] {
      assert e[c] == d[c] && e[c / 2] == d[c / 2];
    }
  }

  lemma MultisetTail(d: seq<int>)
    requires |d| >= 1
    ensures multiset(d[1..]) == multiset(d) - multiset{d[0]}
  {
    assert d == [d[0]] + d[1..];
  }

  class BinaryPQ {
    /** Slot 0 is the sentinel; the queued elements are data[1..]. */
    var data: seq<int>

    ghost predicate Valid()
      reads this
    {
      |data| >= 1
    }

    /** The queued elements. */
    ghost function Contents(): multiset<int>
      reads this
      requires Valid()
    {
      multiset(data[1..])
    }

    ghost predicate Heap()
      reads this
    {
      IsHeap(data)
    }

    /** The empty queue: just the default-constructed sentinel. */
    constructor ()
      ensures Valid() && Heap() && data == [0] && Contents() == multiset{}
    {
      data := [0];
    }

    /** Range constructor: sentinel, then the input, then heapify. */
    constructor FromSeq(s: seq<int>)
      ensures Valid() && Heap() && data[0] == 0 && |data| == |s| + 1
      ensures Contents() == multiset(s)
    {
      data := [0] + s;
      new;
      assert data[1..] == s;
      UpdatePriorities();
    }

    /** Move the element at `index` towards the root while its parent is
        smaller. Only slots 1.. are touched; the contents are permuted. */
    method FixUp(index: nat)
      requires Valid() && index < |data|
      modifies this
      ensures |data| == old(|data|) && data[0] == old(data[0])
      ensures multiset(data) == old(multiset(data))
      ensures old(HeapExceptUp(data, index)) ==> Heap()
    {
      ghost var repairs := HeapExceptUp(data, index);
      var k: nat := index;
      while k > 1 && data[k / 2] < data[k]
        invariant k < |data| && |data| == old(|data|) && data[0] == old(data[0])
        invariant multiset(data) == old(multiset(data))
        invariant repairs ==> HeapExceptUp(data, k)
        decreases k
      {
        Swap(k, k / 2);
        k := k / 2;
      }
    }

    /** Move the element at `index` down, swapping it with its larger child
        (the right one when the left is smaller) until no child is greater.
        With `lo` = 1 this restores a heap in which only data[index] was out
        of place; with `lo` = `index` it turns `index` into the root of a
        heap whose sub-heaps were already ordered. */
    method FixDown(index: nat, ghost lo: nat)
      requires Valid() && 1 <= lo <= index < |data|
      modifies this
      ensures |data| == old(|data|) && data[0] == old(data[0])
      ensures multiset(data) == old(multiset(data))
      ensures old(HeapFromExcept(data, lo, index)) ==> HeapFrom(data, lo)
    {
      ghost var repairs := HeapFromExcept(data, lo, index);
      var heapSize := |data| - 1;
      var k: nat := index;
      while 2 * k <= heapSize
        invariant lo <= k < |data| && |data| == old(|data|) && data[0] == old(data[0])
        invariant multiset(data) == old(multiset(data))
        invariant repairs ==> HeapFromExcept(data, lo, k)
        decreases |data| - k
      {
        var largerChild := 2 * k;
        if largerChild < heapSize && data[largerChild] < data[largerChild + 1] {
          largerChild := largerChild + 1;
        }
        if data[largerChild] < data[k] {
          if repairs {
            SiftDownStops(data, lo, k, largerChild);
          }
          break;
        }
        if repairs {
          SiftDownStep(data, lo, k, largerChild);
        }
        Swap(k, largerChild);
        k := largerChild;
      }
      if repairs && 2 * k > heapSize {
        SiftDownLeaf(data, lo, k);
      }
    }

    /** std::swap of two slots. */
    method Swap(i: nat, j: nat)
      requires i < |data| && j < |data|
      modifies this
      ensures data == old(data)[i := old(data)[j]][j := old(data)[i]]
      ensures |data| == old(|data|) && forall m :: 0 <= m < |data| && m != i && m != j ==> data[m] == old(data[m])
      ensures multiset(data) == old(multiset(data))
    {
      data := data[i := data[j]][j := data[i]];
    }

    /** Append and sift up. */
    method Push(val: int)
      requires Valid()
      modifies this
      ensures Valid() && data[0] == old(data[0]) && |data| == old(|data|) + 1
      ensures Contents() == old(Contents()) + multiset{val}
      ensures old(Heap()) ==> Heap()
    {
      data := data + [val];
      MultisetTail(old(data));
      MultisetTail(data);
      FixUp(|data| - 1);
      MultisetTail(data);
    }

    /** Move the last element into slot 1, shrink, and sift down when more
        than one element remains. The queue must not be empty. */
    method Pop()
      requires Valid() && |data| >= 2
      modifies this
      ensures Valid() && data[0] == old(data[0]) && |data| == old(|data|) - 1
      ensures Contents() == old(Contents()) - multiset{old(data[1])}
      ensures old(Heap()) ==> Heap()
    {
      var last := |data| - 1;
      MoveLastToFront(data);
      if Heap() {
        MoveLastKeepsOrder(data);
      }
      data := data[1 := data[last]];
      data := data[..last];
      if |data| > 2 {
        ghost var e := data;
        MultisetTail(e);
        FixDown(1, 1);
        MultisetTail(data);
      }
    }

    /** `data.at(1)`: the element in slot 1, which in a heap no queued
        element exceeds; out of range on an empty queue. */
    function Top(): (r: Option<int>)
      reads this
      requires Valid()
      ensures r.None? <==> Contents() == multiset{}
      ensures r.Some? ==> r.value in Contents()
      ensures r.Some? && Heap() ==> forall v :: v in Contents() ==> v <= r.value
    {
      if |data| < 2 then None else
        assert data[1] == data[1..][0];
        HeapMaxAll();
        Some(data[1])
    }

    lemma HeapMaxAll()
      requires Valid() && |data| >= 2
      ensures Heap() ==> forall v :: v in Contents() ==> v <= data[1]
    {
      if Heap() {
        forall v | v in Contents() ensures v <= data[1] {
          var j :| 0 <= j < |data[1..]| && data[1..][j] == v;
          HeapRootIsMax(data, j + 1);
        }
      }
    }

    /** The number of queued elements: the vector's length less the
        sentinel. */
    function Size(): (n: nat)
      reads this
      requires Valid()
      ensures n == |Contents()|
    {
      |data| - 1
    }

    function Empty(): (r: bool)
      reads this
      requires Valid()
      ensures r <==> Contents() == multiset{}
    {
      |data| - 1 == 0
    }

    /** Bottom-up heapify: sift down every internal slot, from the last one
        to slot 1. */
    method UpdatePriorities()
      requires Valid()
      modifies this
      ensures Valid() && Heap() && data[0] == old(data[0]) && |data| == old(|data|)
      ensures Contents() == old(Contents())
    {
      var i: nat := (|data| - 1) / 2;
      while i >= 1
        invariant i <= (|data| - 1) / 2
        invariant |data| == old(|data|) && data[0] == old(data[0])
        invariant multiset(data) == old(multiset(data))
        invariant HeapFrom(data, i + 1)
      {
        FixDown(i, i);
        i := i - 1;
      }
      MultisetTail(old(data));
      MultisetTail(data);
    }
  }
}
