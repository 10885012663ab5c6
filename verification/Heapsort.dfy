/** The in-place heapsort behind qsort() (src/lib/stdlib.c).

    Elements are numbered from 1, as in the source: element i lives at index
    i - 1.  The comparison is a strcmp()-type function. */
module Heapsort {

  /** What the source asks of COMPARE: a strcmp()-type result that orders the
      elements totally, up to ties. */
  ghost predicate TotalPreorder<T(!new)>(compare: (T, T) -> int) {
    && (forall x, y :: compare(x, y) <= 0 || compare(y, x) <= 0)
    && (forall x, y :: compare(x, y) > 0 <==> compare(y, x) < 0)
    && (forall x, y, z :: compare(x, y) <= 0 && compare(y, z) <= 0 ==> compare(x, z) <= 0)
  }

  /** Element i is not above element j. */
  ghost predicate Leq<T>(s: seq<T>, i: int, j: int, compare: (T, T) -> int)
    requires 1 <= i <= |s| && 1 <= j <= |s|
  {
    compare(s[i - 1], s[j - 1]) <= 0
  }

  /** The heap property at every parent in [lo, cnt] other than `hole`. */
  ghost predicate HeapExcept<T>(s: seq<T>, lo: int, cnt: int, hole: int, compare: (T, T) -> int)
    requires 1 <= lo && cnt <= |s|
  {
    forall k :: 2 <= k <= cnt && lo <= k / 2 != hole ==> Leq(s, k, k / 2, compare)
  }

  ghost predicate Heap<T>(s: seq<T>, lo: int, cnt: int, compare: (T, T) -> int)
    requires 1 <= lo && cnt <= |s|
  {
    forall k :: 2 <= k <= cnt && lo <= k / 2 ==> Leq(s, k, k / 2, compare)
  }

  /** The children of `hole` are not above its parent. */
  ghost predicate GrandHeap<T>(s: seq<T>, lo: int, cnt: int, hole: int, compare: (T, T) -> int)
    requires 1 <= lo && cnt <= |s|
  {
    forall k :: 2 <= k <= cnt && k / 2 == hole && lo <= hole / 2 ==> Leq(s, k, hole / 2, compare)
  }

  ghost predicate Sorted<T>(s: seq<T>, lo: int, hi: int, compare: (T, T) -> int)
    requires 0 <= lo && hi <= |s|
  {
    forall i, j :: lo <= i <= j < hi ==> compare(s[i], s[j]) <= 0
  }

  /** A permutation that moves nothing outside elements lo to hi. */
  ghost predicate PermutedWithin<T>(s: seq<T>, t: seq<T>, lo: int, hi: int) {
    && |s| == |t|
    && multiset(s) == multiset(t)
    && forall k :: 0 <= k < |s| && (k < lo - 1 || hi <= k) ==> s[k] == t[k]
  }

  /** do_swap on elements i and j. */
  method DoSwap<T>(a: array<T>, i: int, j: int)
    requires 1 <= i <= a.Length && 1 <= j <= a.Length
    modifies a
    ensures a[..] == old(a[..])[i - 1 := old(a[j - 1])][j - 1 := old(a[i - 1])]
    ensures multiset(a[..]) == multiset(old(a[..]))
  {
    a[i - 1], a[j - 1] := a[j - 1], a[i - 1];
  }

  /** The index of the largest among element i and its children. */
  method LargestAt<T(!new)>(a: array<T>, i: int, cnt: int, compare: (T, T) -> int) returns (max: int)
    requires TotalPreorder(compare)
    requires 1 <= i <= cnt <= a.Length
    ensures max == i || (max / 2 == i && 2 <= max <= cnt)
    ensures Leq(a[..], i, max, compare)
    ensures 2 * i <= cnt ==> Leq(a[..], 2 * i, max, compare)
    ensures 2 * i + 1 <= cnt ==> Leq(a[..], 2 * i + 1, max, compare)
  {
    var left := 2 * i;
    var right := 2 * i + 1;
    max := i;
    assert compare(a[i - 1], a[i - 1]) <= 0;
    if left <= cnt && compare(a[left - 1], a[max - 1]) > 0 {
      max := left;
      assert compare(a[left - 1], a[left - 1]) <= 0;
    }
    if right <= cnt && compare(a[right - 1], a[max - 1]) > 0 {
      max := right;
      assert compare(a[right - 1], a[right - 1]) <= 0;
    }
  }

  /** heapify: restores the heap on [i, cnt] when only element i may break it.
      The index at least doubles in each round, which is why it ends. */
  method Heapify<T(!new)>(a: array<T>, i0: int, cnt: int, compare: (T, T) -> int)
    requires TotalPreorder(compare)
    requires 1 <= i0 <= cnt <= a.Length
    requires Heap(a[..], i0 + 1, cnt, compare)
    modifies a
    ensures Heap(a[..], i0, cnt, compare)
    ensures PermutedWithin(old(a[..]), a[..], i0, cnt)
  {
    var i := i0;
    while true
      invariant i0 <= i <= cnt
      invariant HeapExcept(a[..], i0, cnt, i, compare)
      invariant GrandHeap(a[..], i0, cnt, i, compare)
      invariant PermutedWithin(old(a[..]), a[..], i0, cnt)
      decreases cnt - i
    {
      var max := LargestAt(a, i, cnt, compare);
      if max == i {
        HoleFilled(a[..], i0, cnt, i, compare);
        break;
      }
      ghost var s := a[..];
      DoSwap(a, i, max);
      FloatDown(s, a[..], i0, cnt, i, max, compare);
      i := max;
    }
  }

  lemma HoleFilled<T(!new)>(s: seq<T>, lo: int, cnt: int, i: int, compare: (T, T) -> int)
    requires 1 <= lo <= i && cnt <= |s|
    requires HeapExcept(s, lo, cnt, i, compare)
    requires 2 * i <= cnt ==> Leq(s, 2 * i, i, compare)
    requires 2 * i + 1 <= cnt ==> Leq(s, 2 * i + 1, i, compare)
    ensures Heap(s, lo, cnt, compare)
  {
    forall k | 2 <= k <= cnt && lo <= k / 2 ensures Leq(s, k, k / 2, compare) {
      if k / 2 == i { assert k == 2 * i || k == 2 * i + 1; }
    }
  }

  /** One round: the larger child moves up and leaves the hole in its place. */
  lemma FloatDown<T(!new)>(s: seq<T>, t: seq<T>, lo: int, cnt: int, i: int, max: int, compare: (T, T) -> int)
    requires TotalPreorder(compare)
    requires 1 <= lo <= i <= cnt <= |s| == |t|
    requires max / 2 == i && 2 <= max <= cnt
    requires HeapExcept(s, lo, cnt, i, compare) && GrandHeap(s, lo, cnt, i, compare)
    requires 2 * i <= cnt ==> Leq(s, 2 * i, max, compare)
    requires 2 * i + 1 <= cnt ==> Leq(s, 2 * i + 1, max, compare)
    requires Leq(s, i, max, compare)
    requires t == s[i - 1 := s[max - 1]][max - 1 := s[i - 1]]
    ensures HeapExcept(t, lo, cnt, max, compare)
    ensures GrandHeap(t, lo, cnt, max, compare)
  {
    hide TotalPreorder;
    forall k | 2 <= k <= cnt && lo <= k / 2 != max ensures Leq(t, k, k / 2, compare) {
      if k == max {
      } else if k / 2 == i {
        assert k == 2 * i || k == 2 * i + 1;
      } else if k == i {
        assert Leq(s, max, i / 2, compare);
      } else {
        assert Leq(s, k, k / 2, compare);
      }
    }
    forall k | 2 <= k <= cnt && k / 2 == max && lo <= max / 2 ensures Leq(t, k, max / 2, compare) {
      assert Leq(s, k, max, compare);
    }
  }

  /** Every element of a heap is at most its root. */
  lemma {:induction false} RootIsMax<T(!new)>(s: seq<T>, cnt: int, k: int, compare: (T, T) -> int)
    requires TotalPreorder(compare)
    requires 1 <= k <= cnt <= |s| && Heap(s, 1, cnt, compare)
    ensures Leq(s, k, 1, compare)
  {
    if k == 1 {
      assert compare(s[0], s[0]) <= 0;
    } else {
      RootIsMax(s, cnt, k / 2, compare);
      assert Leq(s, k, k / 2, compare);
    }
  }

  /** sort: a nondecreasing permutation, for every total preorder and length. */
  method Sort<T(!new)>(a: array<T>, compare: (T, T) -> int)
    requires TotalPreorder(compare)
    modifies a
    ensures Sorted(a[..], 0, a.Length, compare)
    ensures multiset(a[..]) == multiset(old(a[..]))
  {
    var cnt := a.Length;
    var i := cnt / 2;
    while i > 0
      invariant 0 <= i <= cnt / 2
      invariant Heap(a[..], i + 1, cnt, compare)
      invariant multiset(a[..]) == multiset(old(a[..]))
    {
      Heapify(a, i, cnt, compare);
      i := i - 1;
    }

    i := cnt;
    while i > 1
      invariant cnt > 0 ==> 1 <= i <= cnt
      invariant cnt == 0 ==> i == 0
      invariant Heap(a[..], 1, i, compare)
      invariant Settled(a[..], i, compare)
      invariant multiset(a[..]) == multiset(old(a[..]))
    {
      ghost var s := a[..];
      DoSwap(a, 1, i);
      ghost var t := a[..];
      TakeMax(s, t, i, compare);
      Heapify(a, 1, i - 1, compare);
      StillSettled(t, a[..], i - 1, compare);
      i := i - 1;
    }
    AllSettled(a[..], i, compare);
  }

  /** Elements above i are in order and not below any element of the heap. */
  ghost predicate Settled<T>(s: seq<T>, i: int, compare: (T, T) -> int)
    requires 0 <= i <= |s|
  {
    && Sorted(s, i, |s|, compare)
    && forall j, k :: 0 <= j < i <= k < |s| ==> compare(s[j], s[k]) <= 0
  }

  lemma TakeMax<T(!new)>(s: seq<T>, t: seq<T>, i: int, compare: (T, T) -> int)
    requires TotalPreorder(compare)
    requires 2 <= i <= |s| && Heap(s, 1, i, compare) && Settled(s, i, compare)
    requires t == s[0 := s[i - 1]][i - 1 := s[0]]
    ensures Heap(t, 2, i - 1, compare) && Settled(t, i - 1, compare)
  {
    forall k | 2 <= k <= i - 1 && 2 <= k / 2 ensures Leq(t, k, k / 2, compare) {
      assert Leq(s, k, k / 2, compare);
    }
    forall j, k | 0 <= j < i - 1 <= k < |t| ensures compare(t[j], t[k]) <= 0 {
      if k == i - 1 {
        RootIsMax(s, i, if j == 0 then i else j + 1, compare);
      } else {
        assert t[k] == s[k];
      }
    }
    forall j, k | i - 1 <= j <= k < |t| ensures compare(t[j], t[k]) <= 0 {
      assert compare(t[j], t[j]) <= 0;
    }
  }

  /** Rearranging the heap part keeps the rest settled. */
  lemma StillSettled<T(!new)>(s: seq<T>, t: seq<T>, i: int, compare: (T, T) -> int)
    requires 0 <= i <= |s| && PermutedWithin(s, t, 1, i) && Settled(s, i, compare)
    ensures Settled(t, i, compare)
  {
    assert s[i..] == t[i..];
    assert s == s[..i] + s[i..] && t == t[..i] + t[i..];
    assert multiset(s) == multiset(s[..i]) + multiset(s[i..]);
    assert multiset(t) == multiset(t[..i]) + multiset(t[i..]);
    assert multiset(s[..i]) == multiset(s) - multiset(s[i..]) == multiset(t[..i]);
    forall j, k | 0 <= j < i <= k < |t| ensures compare(t[j], t[k]) <= 0 {
      assert t[j] in multiset(t[..i]);
      assert t[j] in s[..i];
    }
  }

  lemma AllSettled<T(!new)>(s: seq<T>, i: int, compare: (T, T) -> int)
    requires TotalPreorder(compare)
    requires 0 <= i <= 1 && i <= |s| && Settled(s, i, compare)
    ensures Sorted(s, 0, |s|, compare)
  {
    forall j, k | 0 <= j <= k < |s| ensures compare(s[j], s[k]) <= 0 {
      assert compare(s[j], s[j]) <= 0;
    }
  }
}
