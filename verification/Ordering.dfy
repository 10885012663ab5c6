/** Ordered insertion, natural merge sort and stability, on sequences.

    This is the pure half of src/lib/kernel/list.c: elements are compared through
    a key, as the source does with list_entry(), and `less` is any strict weak
    order on keys. */
module Ordering {

  ghost predicate StrictWeakOrder<K(!new)>(less: (K, K) -> bool) {
    && (forall x, y :: less(x, y) ==> !less(y, x))
    && (forall x, y, z :: !less(x, y) && !less(y, z) ==> !less(x, z))
  }

  predicate Equiv<K>(less: (K, K) -> bool, x: K, y: K) {
    !less(x, y) && !less(y, x)
  }

  /** No element comes after one it is less than. */
  ghost predicate Sorted<T, K>(s: seq<T>, key: T -> K, less: (K, K) -> bool) {
    forall i, j :: 0 <= i < j < |s| ==> !less(key(s[j]), key(s[i]))
  }

  /** No element of s is less than k. */
  ghost predicate Above<T, K>(s: seq<T>, k: K, key: T -> K, less: (K, K) -> bool) {
    forall i :: 0 <= i < |s| ==> !less(key(s[i]), k)
  }

  /** The elements whose key ties with k, in order. */
  function Ties<T, K>(s: seq<T>, k: K, key: T -> K, less: (K, K) -> bool): seq<T> {
    if s == [] then []
    else if Equiv(less, key(s[0]), k) then [s[0]] + Ties(s[1..], k, key, less)
    else Ties(s[1..], k, key, less)
  }

  ghost predicate SameTies<T, K(!new)>(s: seq<T>, r: seq<T>, key: T -> K, less: (K, K) -> bool) {
    forall k :: Ties(s, k, key, less) == Ties(r, k, key, less)
  }

  /** r is s sorted, with ties left in their original order. */
  ghost predicate StableSortOf<T, K(!new)>(r: seq<T>, s: seq<T>, key: T -> K, less: (K, K) -> bool) {
    Sorted(r, key, less) && SameTies(s, r, key, less)
  }

  // ----- ordered insertion

  /** list_insert_ordered: before the first element that x is less than. */
  function InsertOrdered<T, K>(s: seq<T>, x: T, key: T -> K, less: (K, K) -> bool): (r: seq<T>)
    ensures |r| == |s| + 1
  {
    if s == [] || less(key(x), key(s[0])) then [x] + s
    else [s[0]] + InsertOrdered(s[1..], x, key, less)
  }

  /** Where the search stops is where x goes. */
  lemma {:induction false} InsertAt<T, K>(s: seq<T>, x: T, i: int, key: T -> K, less: (K, K) -> bool)
    requires 0 <= i <= |s|
    requires forall j :: 0 <= j < i ==> !less(key(x), key(s[j]))
    requires i < |s| ==> less(key(x), key(s[i]))
    ensures InsertOrdered(s, x, key, less) == s[..i] + ([x] + s[i..])
  {
    if i == 0 {
      assert s[..0] + ([x] + s[0..]) == [x] + s;
    } else {
      InsertAt(s[1..], x, i - 1, key, less);
      assert s[..i] == [s[0]] + s[1..][..i - 1];
    }
  }

  lemma {:induction false} InsertOrderedPermutes<T, K>(s: seq<T>, x: T, key: T -> K, less: (K, K) -> bool)
    ensures multiset(InsertOrdered(s, x, key, less)) == multiset(s + [x])
  {
    if s != [] && !less(key(x), key(s[0])) {
      InsertOrderedPermutes(s[1..], x, key, less);
      assert s + [x] == [s[0]] + (s[1..] + [x]);
    }
  }

  /** The reference sort: insert the elements one after another. */
  function InsertionSort<T, K>(s: seq<T>, key: T -> K, less: (K, K) -> bool): (r: seq<T>)
    ensures |r| == |s|
  {
    if s == [] then []
    else InsertOrdered(InsertionSort(s[..|s| - 1], key, less), s[|s| - 1], key, less)
  }

  lemma {:induction false} InsertionSortPermutes<T, K>(s: seq<T>, key: T -> K, less: (K, K) -> bool)
    ensures multiset(InsertionSort(s, key, less)) == multiset(s)
  {
    if s != [] {
      var t, x := s[..|s| - 1], s[|s| - 1];
      InsertionSortPermutes(t, key, less);
      InsertOrderedPermutes(InsertionSort(t, key, less), x, key, less);
      assert s == t + [x];
    }
  }

  lemma TiesAppend<T, K>(a: seq<T>, b: seq<T>, k: K, key: T -> K, less: (K, K) -> bool)
    ensures Ties(a + b, k, key, less) == Ties(a, k, key, less) + Ties(b, k, key, less)
  {
    if a == [] {
      assert a + b == b;
    } else {
      assert (a + b)[1..] == a[1..] + b;
      TiesAppend(a[1..], b, k, key, less);
    }
  }

  /** An element above everything that could tie with k leaves no ties behind. */
  lemma NoTies<T, K(!new)>(s: seq<T>, x: K, k: K, key: T -> K, less: (K, K) -> bool)
    requires StrictWeakOrder(less)
    requires forall i :: 0 <= i < |s| ==> less(x, key(s[i]))
    requires Equiv(less, x, k)
    ensures Ties(s, k, key, less) == []
  {
    if s != [] {
      assert less(x, key(s[0]));
      NoTies(s[1..], x, k, key, less);
    }
  }

  lemma SortedCons<T, K>(x: T, s: seq<T>, key: T -> K, less: (K, K) -> bool)
    ensures Sorted([x] + s, key, less) <==> Above(s, key(x), key, less) && Sorted(s, key, less)
  {
    var r := [x] + s;
    if Sorted(r, key, less) {
      forall i | 0 <= i < |s| ensures !less(key(s[i]), key(x)) { assert r[i + 1] == s[i] && r[0] == x; }
      forall i, j | 0 <= i < j < |s| ensures !less(key(s[j]), key(s[i])) {
        assert r[i + 1] == s[i] && r[j + 1] == s[j];
      }
    }
  }

  lemma SortedParts<T, K>(a: seq<T>, b: seq<T>, key: T -> K, less: (K, K) -> bool)
    requires Sorted(a + b, key, less)
    ensures Sorted(a, key, less) && Sorted(b, key, less)
  {
    var r := a + b;
    assert forall i :: 0 <= i < |a| ==> a[i] == r[i];
    forall i, j | 0 <= i < j < |b| ensures !less(key(b[j]), key(b[i])) {
      assert r[|a| + i] == b[i] && r[|a| + j] == b[j];
    }
  }

  lemma AboveMultiset<T, K>(s: seq<T>, r: seq<T>, k: K, key: T -> K, less: (K, K) -> bool)
    requires multiset(s) == multiset(r) && Above(s, k, key, less)
    ensures Above(r, k, key, less)
  {
    forall i | 0 <= i < |r| ensures !less(key(r[i]), k) {
      assert r[i] in multiset(s);
      assert r[i] in s;
    }
  }

  /** Ordered insertion keeps a list sorted. */
  lemma {:induction false} InsertOrderedSorted<T, K(!new)>(s: seq<T>, x: T, key: T -> K, less: (K, K) -> bool)
    requires StrictWeakOrder(less) && Sorted(s, key, less)
    ensures Sorted(InsertOrdered(s, x, key, less), key, less)
  {
    if s == [] {
    } else if less(key(x), key(s[0])) {
      SortedCons(x, s, key, less);
    } else {
      var t := s[1..];
      var r := InsertOrdered(t, x, key, less);
      assert s == [s[0]] + t;
      SortedCons(s[0], t, key, less);
      InsertOrderedSorted(t, x, key, less);
      InsertOrderedPermutes(t, x, key, less);
      AboveMultiset(t + [x], r, key(s[0]), key, less);
      SortedCons(s[0], r, key, less);
    }
  }

  /** Ordered insertion puts x behind everything it ties with. */
  lemma {:induction false} InsertOrderedTies<T, K(!new)>(s: seq<T>, x: T, k: K, key: T -> K, less: (K, K) -> bool)
    requires StrictWeakOrder(less) && Sorted(s, key, less)
    ensures Ties(InsertOrdered(s, x, key, less), k, key, less) == Ties(s, k, key, less) + Ties([x], k, key, less)
  {
    var r := InsertOrdered(s, x, key, less);
    if s == [] {
    } else if less(key(x), key(s[0])) {
      assert r[1..] == s;
      if Equiv(less, key(x), k) {
        NoTies(s, key(x), k, key, less);
      }
    } else {
      assert s == [s[0]] + s[1..];
      SortedCons(s[0], s[1..], key, less);
      InsertOrderedTies(s[1..], x, k, key, less);
      assert r[1..] == InsertOrdered(s[1..], x, key, less);
    }
  }

  /** Inserting the elements one after another is a stable sort. */
  lemma {:induction false} InsertionSortStable<T, K(!new)>(s: seq<T>, key: T -> K, less: (K, K) -> bool)
    requires StrictWeakOrder(less)
    ensures StableSortOf(InsertionSort(s, key, less), s, key, less)
  {
    if s != [] {
      var t, x := s[..|s| - 1], s[|s| - 1];
      var r := InsertionSort(t, key, less);
      InsertionSortStable(t, key, less);
      InsertOrderedSorted(r, x, key, less);
      forall k ensures Ties(s, k, key, less) == Ties(InsertOrdered(r, x, key, less), k, key, less) {
        InsertOrderedTies(r, x, k, key, less);
        TiesAppend(t, [x], k, key, less);
        assert s == t + [x];
      }
    }
  }

  // ----- a stable sort is unique

  lemma TiesContains<T, K(!new)>(s: seq<T>, i: nat, key: T -> K, less: (K, K) -> bool)
    requires StrictWeakOrder(less) && i < |s|
    ensures Ties(s, key(s[i]), key, less) != []
  {
    if i > 0 { TiesContains(s[1..], i - 1, key, less); }
  }

  lemma TiesMember<T, K>(s: seq<T>, k: K, key: T -> K, less: (K, K) -> bool) returns (i: nat)
    requires Ties(s, k, key, less) != []
    ensures i < |s| && Equiv(less, key(s[i]), k)
  {
    if Equiv(less, key(s[0]), k) { i := 0; } else {
      i := TiesMember(s[1..], k, key, less);
      i := i + 1;
    }
  }

  lemma SmallestFirst<T, K(!new)>(r: seq<T>, t: seq<T>, key: T -> K, less: (K, K) -> bool)
    requires StrictWeakOrder(less) && r != [] && t != []
    requires Sorted(t, key, less) && SameTies(r, t, key, less)
    ensures !less(key(r[0]), key(t[0]))
  {
    TiesContains(r, 0, key, less);
    var i := TiesMember(t, key(r[0]), key, less);
    assert !less(key(t[i]), key(t[0]));
  }

  /** Sorted lists with the same ties in the same order are equal, so a stable
      sort has only one result. */
  lemma {:induction false} StableSortUnique<T, K(!new)>(r: seq<T>, t: seq<T>, key: T -> K, less: (K, K) -> bool)
    requires StrictWeakOrder(less)
    requires Sorted(r, key, less) && Sorted(t, key, less) && SameTies(r, t, key, less)
    ensures r == t
  {
    if r == [] {
      if t != [] { TiesContains(t, 0, key, less); }
    } else if t == [] {
      TiesContains(r, 0, key, less);
    } else {
      SmallestFirst(r, t, key, less);
      SmallestFirst(t, r, key, less);
      assert Ties(r, key(r[0]), key, less)[0] == r[0];
      assert Ties(t, key(r[0]), key, less)[0] == t[0];
      var x := r[0];
      assert r == [x] + r[1..] && t == [x] + t[1..];
      SortedCons(x, r[1..], key, less);
      SortedCons(x, t[1..], key, less);
      forall k ensures Ties(r[1..], k, key, less) == Ties(t[1..], k, key, less) {
        assert Ties(r, k, key, less) == Ties(t, k, key, less);
        if Equiv(less, key(x), k) {
          assert Ties(r[1..], k, key, less) == Ties(r, k, key, less)[1..];
          assert Ties(t[1..], k, key, less) == Ties(t, k, key, less)[1..];
        }
      }
      StableSortUnique(r[1..], t[1..], key, less);
    }
  }

  // ----- natural merge sort

  /** find_end_of_run on a nonempty list, as a length. */
  function RunLength<T, K>(s: seq<T>, key: T -> K, less: (K, K) -> bool): (n: nat)
    requires s != []
    ensures 1 <= n <= |s|
  {
    if |s| == 1 || less(key(s[1]), key(s[0])) then 1
    else 1 + RunLength(s[1..], key, less)
  }

  /** inplace_merge: the left list goes first on ties. */
  function Merge<T, K>(a: seq<T>, b: seq<T>, key: T -> K, less: (K, K) -> bool): (r: seq<T>)
    ensures |r| == |a| + |b|
  {
    if a == [] then b
    else if b == [] then a
    else if !less(key(b[0]), key(a[0])) then [a[0]] + Merge(a[1..], b, key, less)
    else [b[0]] + Merge(a, b[1..], key, less)
  }

  lemma FrontOfRight<T>(a: seq<T>, b: seq<T>)
    requires b != []
    ensures multiset(a + b) == multiset([b[0]]) + multiset(a + b[1..])
  {
    assert b == [b[0]] + b[1..];
  }

  lemma {:induction false} MergePermutes<T, K>(a: seq<T>, b: seq<T>, key: T -> K, less: (K, K) -> bool)
    ensures multiset(Merge(a, b, key, less)) == multiset(a + b)
  {
    if a == [] {
      assert a + b == b;
    } else if b == [] {
      assert a + b == a;
    } else if !less(key(b[0]), key(a[0])) {
      MergePermutes(a[1..], b, key, less);
      assert a + b == [a[0]] + (a[1..] + b);
    } else {
      MergePermutes(a, b[1..], key, less);
      FrontOfRight(a, b);
    }
  }

  /** Number of natural runs: one more than the number of descents. */
  function Runs<T, K>(s: seq<T>, key: T -> K, less: (K, K) -> bool): nat {
    if |s| <= 1 then |s|
    else Runs(s[1..], key, less) + if less(key(s[1]), key(s[0])) then 1 else 0
  }

  lemma {:induction false} RunIsSorted<T, K(!new)>(s: seq<T>, key: T -> K, less: (K, K) -> bool)
    requires StrictWeakOrder(less) && s != []
    ensures Sorted(s[..RunLength(s, key, less)], key, less)
  {
    var m := RunLength(s, key, less);
    if m > 1 {
      var t := s[1..];
      RunIsSorted(t, key, less);
      assert s[..m] == [s[0]] + t[..m - 1];
      forall i | 0 <= i < m - 1 ensures !less(key(t[i]), key(s[0])) {
        assert t[..m - 1][i] == t[i] && t[..m - 1][0] == s[1];
      }
      SortedCons(s[0], t[..m - 1], key, less);
    }
  }

  lemma LessExcludes<T, K(!new)>(x: T, y: T, key: T -> K, less: (K, K) -> bool)
    requires StrictWeakOrder(less) && less(key(x), key(y))
    ensures !less(key(y), key(x))
  {
  }

  /** An element not above either of two sorted lists is not above their concatenation. */
  lemma AboveBoth<T, K(!new)>(x: T, a: seq<T>, b: seq<T>, key: T -> K, less: (K, K) -> bool)
    requires StrictWeakOrder(less) && Above(a, key(x), key, less) && Sorted(b, key, less) && b != []
    requires !less(key(b[0]), key(x))
    ensures Above(a + b, key(x), key, less) && Above(b + a, key(x), key, less)
  {
    forall i | 0 <= i < |b| ensures !less(key(b[i]), key(x)) {
      if i > 0 { assert !less(key(b[i]), key(b[0])); }
    }
  }

  lemma {:induction false} MergeSorted<T, K(!new)>(a: seq<T>, b: seq<T>, key: T -> K, less: (K, K) -> bool)
    requires StrictWeakOrder(less) && Sorted(a, key, less) && Sorted(b, key, less)
    ensures Sorted(Merge(a, b, key, less), key, less)
  {
    hide StrictWeakOrder;
    hide Sorted;
    hide Above;
    if a == [] || b == [] {
    } else if !less(key(b[0]), key(a[0])) {
      var rest := Merge(a[1..], b, key, less);
      assert a == [a[0]] + a[1..];
      SortedCons(a[0], a[1..], key, less);
      AboveBoth(a[0], a[1..], b, key, less);
      MergeSorted(a[1..], b, key, less);
      MergePermutes(a[1..], b, key, less);
      AboveMultiset(a[1..] + b, rest, key(a[0]), key, less);
      SortedCons(a[0], rest, key, less);
    } else {
      var rest := Merge(a, b[1..], key, less);
      assert b == [b[0]] + b[1..];
      SortedCons(b[0], b[1..], key, less);
      LessExcludes(b[0], a[0], key, less);
      AboveBoth(b[0], b[1..], a, key, less);
      MergeSorted(a, b[1..], key, less);
      MergePermutes(a, b[1..], key, less);
      AboveMultiset(a + b[1..], rest, key(b[0]), key, less);
      SortedCons(b[0], rest, key, less);
    }
  }

  /** A merge takes an element of the right list early only past elements it
      does not tie with. */
  lemma {:induction false} MergeTies<T, K(!new)>(a: seq<T>, b: seq<T>, k: K, key: T -> K, less: (K, K) -> bool)
    requires StrictWeakOrder(less) && Sorted(a, key, less) && Sorted(b, key, less)
    ensures Ties(Merge(a, b, key, less), k, key, less) == Ties(a, k, key, less) + Ties(b, k, key, less)
  {
    var r := Merge(a, b, key, less);
    if a == [] || b == [] {
    } else if !less(key(b[0]), key(a[0])) {
      assert a == [a[0]] + a[1..];
      SortedCons(a[0], a[1..], key, less);
      MergeTies(a[1..], b, k, key, less);
      assert r[1..] == Merge(a[1..], b, key, less);
    } else {
      assert b == [b[0]] + b[1..];
      SortedCons(b[0], b[1..], key, less);
      MergeTies(a, b[1..], k, key, less);
      assert r[1..] == Merge(a, b[1..], key, less);
      if Equiv(less, key(b[0]), k) {
        NoTies(a, key(b[0]), k, key, less);
      }
    }
  }

  lemma {:induction false} RunsAfterFirst<T, K>(s: seq<T>, m: nat, key: T -> K, less: (K, K) -> bool)
    requires s != [] && m == RunLength(s, key, less)
    ensures Runs(s, key, less) == 1 + Runs(s[m..], key, less)
  {
    if |s| == 1 {
      assert s[m..] == [];
    } else if m > 1 {
      var t := s[1..];
      RunsAfterFirst(t, m - 1, key, less);
      assert s[m..] == t[m - 1..];
    }
  }

  lemma {:induction false} RunsAppend<T, K>(a: seq<T>, b: seq<T>, key: T -> K, less: (K, K) -> bool)
    ensures Runs(a + b, key, less) <= Runs(a, key, less) + Runs(b, key, less)
  {
    if a == [] {
      assert a + b == b;
    } else if |a| == 1 {
      assert (a + b)[1..] == b;
    } else {
      assert (a + b)[1..] == a[1..] + b;
      RunsAppend(a[1..], b, key, less);
    }
  }

  lemma {:induction false} SortedIsOneRun<T, K>(s: seq<T>, key: T -> K, less: (K, K) -> bool)
    requires Sorted(s, key, less)
    ensures Runs(s, key, less) <= 1
  {
    if |s| > 1 {
      assert s == [s[0]] + s[1..];
      SortedCons(s[0], s[1..], key, less);
      SortedIsOneRun(s[1..], key, less);
    }
  }

  /** One run is a sorted list. */
  lemma {:induction false} OneRunIsSorted<T, K(!new)>(s: seq<T>, key: T -> K, less: (K, K) -> bool)
    requires StrictWeakOrder(less) && Runs(s, key, less) <= 1
    ensures Sorted(s, key, less)
  {
    if s != [] {
      RunsAfterFirst(s, RunLength(s, key, less), key, less);
      RunIsSorted(s, key, less);
      var m := RunLength(s, key, less);
      if m < |s| { RunsAfterFirst(s[m..], RunLength(s[m..], key, less), key, less); }
      assert s[..m] == s;
    }
  }

  /** Merging two adjacent runs in the middle of a list reorders no ties. */
  lemma MergeInPlaceTies<T, K(!new)>(p: seq<T>, a: seq<T>, b: seq<T>, c: seq<T>, k: K, key: T -> K,
                                     less: (K, K) -> bool)
    requires StrictWeakOrder(less) && Sorted(a, key, less) && Sorted(b, key, less)
    ensures Ties(p + Merge(a, b, key, less) + c, k, key, less) == Ties(p + (a + (b + c)), k, key, less)
  {
    MergeTies(a, b, k, key, less);
    TiesAppend(b, c, k, key, less);
    TiesAppend(a, b + c, k, key, less);
    TiesAppend(p, a + (b + c), k, key, less);
    TiesAppend(p, Merge(a, b, key, less), k, key, less);
    TiesAppend(p + Merge(a, b, key, less), c, k, key, less);
  }

  // ----- lists without duplicates

  ghost predicate NoDup<T>(q: seq<T>) {
    forall i, j :: 0 <= i < j < |q| ==> q[i] != q[j]
  }

  /** Inserting a new element into a list without duplicates. */
  lemma InsertFacts<T, K>(q: seq<T>, t: T, key: T -> K, less: (K, K) -> bool)
    requires NoDup(q) && t !in q
    ensures var r := InsertOrdered(q, t, key, less);
            NoDup(r) && forall x :: x in r <==> x == t || x in q
  {
    var r := InsertOrdered(q, t, key, less);
    InsertOrderedPermutes(q, t, key, less);
    PermutationFacts(q + [t], r);
  }

  lemma PermutationFacts<T>(q: seq<T>, r: seq<T>)
    requires multiset(q) == multiset(r) && NoDup(q)
    ensures NoDup(r) && forall x :: x in r <==> x in q
  {
    forall x ensures x in r <==> x in q {
      assert x in r <==> x in multiset(r);
      assert x in q <==> x in multiset(q);
    }
    NoDupCounts(q);
    forall i, j | 0 <= i < j < |r| ensures r[i] != r[j] {
      if r[i] == r[j] { TwiceCounts(r, i, j); }
    }
  }

  lemma TwiceCounts<T>(r: seq<T>, i: nat, j: nat)
    requires i < j < |r| && r[i] == r[j]
    ensures r[i] in r && multiset(r)[r[i]] >= 2
  {
    assert r == r[..i] + [r[i]] + r[i + 1..j] + [r[j]] + r[j + 1..];
  }

  lemma {:induction false} NoDupCounts<T>(q: seq<T>)
    requires NoDup(q)
    ensures forall x :: x in q ==> multiset(q)[x] == 1
  {
    if q != [] {
      assert q == [q[0]] + q[1..];
      NoDupCounts(q[1..]);
      assert q[0] !in q[1..];
      assert multiset(q) == multiset{q[0]} + multiset(q[1..]);
    }
  }

  /** Keys that agree on the elements sort alike. */
  lemma SortedSameKeys<T, K>(q: seq<T>, key: T -> K, key': T -> K, less: (K, K) -> bool)
    requires Sorted(q, key, less) && forall x :: x in q ==> key(x) == key'(x)
    ensures Sorted(q, key', less)
  {
  }

  // ----- the comparisons of the thread lists

  /** thread_priority_comparison */
  predicate HigherPriority(a: int, b: int) { a > b }

  /** list_sleep_less_func */
  predicate Earlier(a: int, b: int) { a < b }

  lemma ComparisonsAreOrders()
    ensures StrictWeakOrder(HigherPriority) && StrictWeakOrder(Earlier)
  {
  }
}
