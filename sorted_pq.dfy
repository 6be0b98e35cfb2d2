/** The sorted-vector priority queue (SortedPQ.hpp) with TYPE = int and
    compare = std::less: `data` is kept ascending, so the most extreme
    (largest) element is at the back. */
module SortedArray {

  /** Ascending under `<`: no later element is less than an earlier one. */
  ghost predicate Sorted(s: seq<int>) {
    forall i, j :: 0 <= i < j < |s| ==> s[i] <= s[j]
  }

  /** Reference definition of the position std::upper_bound returns: the
      first index whose element is greater than `v` (|s| if there is none). */
  ghost function FirstGreater(s: seq<int>, v: int): (k: nat)
    ensures k <= |s|
    ensures forall i :: 0 <= i < k ==> s[i] <= v
    ensures k < |s| ==> v < s[k]
  {
    if s == [] then 0 else if v < s[0] then 0 else 1 + FirstGreater(s[1..], v)
  }

  /** On a sorted sequence every element from the upper bound on is greater
      than `v`, and the upper bound is the only split point with that
      property. */
  lemma {:induction false} FirstGreaterSplits(s: seq<int>, v: int, k: nat)
    requires Sorted(s) && k <= |s|
    requires forall i :: 0 <= i < k ==> s[i] <= v
    requires forall i :: k <= i < |s| ==> v < s[i]
    ensures k == FirstGreater(s, v)
  {
    if s != [] {
      if k == 0 {
        assert v < s[0];
      } else {
        assert s[0] <= v;
        FirstGreaterSplits(s[1..], v, k - 1);
      }
    }
  }

  /** std::upper_bound(begin, end, v, compare): binary search for the first
      element `e` with compare(v, e). Its precondition is that the range is
      partitioned, which a sorted range is. */
  method UpperBound(s: seq<int>, v: int) returns (k: nat)
    requires Sorted(s)
    ensures k == FirstGreater(s, v)
    ensures forall i :: k <= i < |s| ==> v < s[i]
  {
    var lo, hi := 0, |s|;
    while lo < hi
      invariant 0 <= lo <= hi <= |s|
      invariant forall i :: 0 <= i < lo ==> s[i] <= v
      invariant forall i :: hi <= i < |s| ==> v < s[i]
    {
      var mid := lo + (hi - lo) / 2;
      if v < s[mid] {
        hi := mid;
      } else {
        lo := mid + 1;
      }
    }
    k := lo;
    FirstGreaterSplits(s, v, k);
  }

  /** Two sorted halves whose every element on the left is at most every
      element on the right concatenate to a sorted sequence. */
  lemma SortedConcat(a: seq<int>, b: seq<int>)
    requires Sorted(a) && Sorted(b)
    requires forall i, j :: 0 <= i < |a| && 0 <= j < |b| ==> a[i] <= b[j]
    ensures Sorted(a + b)
  {
    forall i, j | 0 <= i < j < |a + b| ensures (a + b)[i] <= (a + b)[j] {
      if j < |a| {
        assert (a + b)[i] == a[i] && (a + b)[j] == a[j];
      } else if i < |a| {
        assert (a + b)[i] == a[i] && (a + b)[j] == b[j - |a|];
      } else {
        assert (a + b)[i] == b[i - |a|] && (a + b)[j] == b[j - |a|];
      }
    }
  }

  /** Inserting `v` at its upper bound keeps a sorted sequence sorted and
      adds exactly one occurrence of `v`. */
  lemma InsertAtUpperBound(s: seq<int>, v: int)
    requires Sorted(s)
    ensures Sorted(s[..FirstGreater(s, v)] + [v] + s[FirstGreater(s, v)..])
    ensures multiset(s[..FirstGreater(s, v)] + [v] + s[FirstGreater(s, v)..]) == multiset(s) + multiset{v}
  {
    var k := FirstGreater(s, v);
    var lo, hi := s[..k], s[k..];
    assert s == lo + hi;
    forall j | 0 <= j < |hi| ensures v < hi[j] {
      assert s[k] <= s[k + j];
    }
    SortedConcat(lo, [v]);
    SortedConcat(lo + [v], hi);
  }

  /** The head of a sorted sequence is at most each of its elements. */
  lemma SortedHeadIsLeast(a: seq<int>, x: int)
    requires Sorted(a) && x in multiset(a)
    ensures a != [] && a[0] <= x
  {
    var i :| 0 <= i < |a| && a[i] == x;
  }

  /** Two sorted sequences holding the same multiset are equal: sorting is
      determined by the contents alone. */
  lemma {:induction false} SortedUnique(a: seq<int>, b: seq<int>)
    requires Sorted(a) && Sorted(b) && multiset(a) == multiset(b)
    ensures a == b
  {
    if a != [] {
      assert a[0] in multiset(a);
      SortedHeadIsLeast(b, a[0]);
      assert b[0] in multiset(b);
      SortedHeadIsLeast(a, b[0]);
      var a', b' := a[1..], b[1..];
      assert a == [a[0]] + a';
      assert b == [b[0]] + b';
      assert multiset(a) == multiset{a[0]} + multiset(a');
      assert multiset(b) == multiset{b[0]} + multiset(b');
      assert a[0] == b[0];
      assert multiset(a') == multiset(a) - multiset{a[0]};
      assert multiset(b') == multiset(b) - multiset{b[0]};
      assert Sorted(a') && Sorted(b');
      SortedUnique(a', b');
    } else {
      assert |multiset(b)| == 0;
    }
  }

  /** std::sort over the whole sequence, ascending under `<`; written as
      insertion at the upper bound. */
  method Sort(s: seq<int>) returns (r: seq<int>)
    ensures Sorted(r) && multiset(r) == multiset(s)
    ensures Sorted(s) ==> r == s
  {
    r := [];
    var i := 0;
    while i < |s|
      invariant i <= |s|
      invariant Sorted(r)
      invariant multiset(r) == multiset(s[..i])
    {
      var k := UpperBound(r, s[i]);
      InsertAtUpperBound(r, s[i]);
      r := r[..k] + [s[i]] + r[k..];
      assert s[..i + 1] == s[..i] + [s[i]];
      i := i + 1;
    }
    assert s[..i] == s;
    if Sorted(s) {
      SortedUnique(r, s);
    }
  }

  class SortedPQ {
    /** The underlying vector, ascending; the back is the most extreme. */
    var data: seq<int>

    ghost predicate Valid()
      reads this
    {
      Sorted(data)
    }

    constructor ()
      ensures Valid() && data == []
    {
      data := [];
    }

    /** Range constructor: copy the input, then sort it. */
    constructor FromSeq(s: seq<int>)
      ensures Valid() && multiset(data) == multiset(s)
      ensures Sorted(s) ==> data == s
    {
      data := s;
      new;
      UpdatePriorities();
    }

    /** Insert at the upper bound: every earlier element is at most `val`,
        every later one is greater. */
    method Push(val: int)
      requires Valid()
      modifies this
      ensures Valid()
      ensures data == old(data)[..FirstGreater(old(data), val)] + [val] + old(data)[FirstGreater(old(data), val)..]
      ensures multiset(data) == old(multiset(data)) + multiset{val}
    {
      var k := UpperBound(data, val);
      InsertAtUpperBound(data, val);
      data := data[..k] + [val] + data[k..];
    }

    /** Remove the back element; no effect on an empty queue. */
    method Pop()
      requires Valid()
      modifies this
      ensures Valid()
      ensures old(data) == [] ==> data == []
      ensures old(data) != [] ==> data == old(data)[..|old(data)| - 1]
      ensures old(data) != [] ==> multiset(data) == old(multiset(data)) - multiset{old(Top())}
    {
      if data != [] {
        assert data == data[..|data| - 1] + [data[|data| - 1]];
        data := data[..|data| - 1];
      }
    }

    /** The back element: under the ordering invariant, no element is greater. */
    function Top(): (r: int)
      reads this
      requires data != []
      ensures r in data
      ensures Valid() ==> forall i :: 0 <= i < |data| ==> data[i] <= r
    {
      data[|data| - 1]
    }

    /** The number of queued elements. */
    function Size(): (n: nat)
      reads this
      ensures n == |multiset(data)|
    {
      |data|
    }

    function Empty(): (r: bool)
      reads this
      ensures r <==> multiset(data) == multiset{}
    {
      |data| == 0
    }

    /** Re-sort after the elements may have changed; sorted contents stay as
        they are. */
    method UpdatePriorities()
      modifies this
      ensures Valid() && multiset(data) == old(multiset(data))
      ensures old(Sorted(data)) ==> data == old(data)
    {
      data := Sort(data);
    }
  }
}
