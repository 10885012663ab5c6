/** Doubly linked lists with a head and a tail sentinel (src/lib/kernel/list.c).

    Pointers are rewritten in place, as in the source; the ghost field `all`
    names the elements in order, sentinels included. */
module KernelList {
  import opened Ordering

  /** struct list_elem, with the key that a list_entry() comparison looks at. */
  class Elem<K> {
    var prev: Elem?<K>
    var next: Elem?<K>
    const key: K

    constructor (k: K)
      ensures key == k
    {
      key := k;
      prev, next := null, null;
    }
  }

  /** The elements are chained in this order, both ways, between two ends. */
  ghost predicate Linked<K>(all: seq<Elem<K>>)
    reads all
  {
    && |all| >= 2
    && NoDup(all)
    && all[0].prev == null && all[|all| - 1].next == null
    && (forall i {:trigger all[i].next} :: 0 <= i < |all| - 1 ==> all[i].next == all[i + 1])
    && (forall i {:trigger all[i].prev} :: 1 <= i < |all| ==> all[i].prev == all[i - 1])
  }

  /** Where element x comes from once elements [i, j) have been moved in front of
      element k. */
  ghost function Origin(k: int, i: int, j: int, x: int): int {
    if k < i then
      if x < k || j <= x then x else if x < k + (j - i) then x - k + i else x - (j - i)
    else
      if x < i || k <= x then x else if x < k - (j - i) then x + (j - i) else x - k + j
  }

  /** The element after (before) element o once [i, j) has been moved. */
  ghost function Successor(k: int, i: int, j: int, o: int): int {
    if k == j then o + 1 else if o == i - 1 then j else if o == j - 1 then k else if o == k - 1 then i else o + 1
  }

  ghost function Predecessor(k: int, i: int, j: int, o: int): int {
    if k == j then o - 1 else if o == j then i - 1 else if o == k then j - 1 else if o == i then k - 1 else o - 1
  }

  ghost predicate Movable(n: int, k: int, i: int, j: int) {
    0 < i <= j < n && 0 < k < n && (k < i || j <= k)
  }

  lemma OriginStep(n: int, k: int, i: int, j: int, x: int)
    requires Movable(n, k, i, j) && i < j && 0 <= x < n - 1
    ensures 0 <= Origin(k, i, j, x) < n - 1 && 0 < Origin(k, i, j, x + 1) < n
    ensures Origin(k, i, j, x + 1) == Successor(k, i, j, Origin(k, i, j, x))
    ensures Origin(k, i, j, x) == Predecessor(k, i, j, Origin(k, i, j, x + 1))
  {
  }

  /** all with its elements [i, j) moved in front of element k. */
  ghost function Spliced<T>(all: seq<T>, k: int, i: int, j: int): (r: seq<T>)
    requires Movable(|all|, k, i, j)
  {
    seq(|all|, x requires 0 <= x < |all| => all[Origin(k, i, j, x)])
  }

  lemma OnlyThere<T>(all: seq<T>, i: int)
    requires NoDup(all) && 0 <= i < |all|
    ensures forall x :: 0 <= x < |all| && all[x] == all[i] ==> x == i
  {
  }

  lemma OriginEnds(n: int, k: int, i: int, j: int)
    requires Movable(n, k, i, j) && i < j
    ensures Origin(k, i, j, 0) == 0 && Origin(k, i, j, n - 1) == n - 1
  {
  }

  lemma NeighboursInRange(n: int, k: int, i: int, j: int)
    requires Movable(n, k, i, j) && i < j
    ensures forall o :: 0 <= o < n - 1 ==> 0 <= Successor(k, i, j, o) < n
    ensures forall o :: 0 < o < n ==> 0 <= Predecessor(k, i, j, o) < n
  {
  }

  lemma SameSuffix<T>(s: seq<T>, t: seq<T>, i: int, j: int)
    requires 0 <= i <= j <= |s| == |t| && s[i..] == t[i..]
    ensures s[j..] == t[j..]
  {
    assert s[j..] == s[i..][j - i..] && t[j..] == t[i..][j - i..];
  }

  lemma JoinedParts<T>(a: seq<T>, m: seq<T>, c: seq<T>)
    requires a != [] && c != []
    ensures var s, h, n := a + m + c, |a| + |m|, |a| + |m| + |c| - 1;
            && s[1..h] == a[1..] + m && s[h..] == c
            && s[1..n] == a[1..] + m + c[..|c| - 1] && s[h..n] == c[..|c| - 1]
  {
  }

  lemma SplicedDistinct<T>(all: seq<T>, k: int, i: int, j: int)
    requires Movable(|all|, k, i, j) && NoDup(all)
    ensures NoDup(Spliced(all, k, i, j))
  {
    var r := Spliced(all, k, i, j);
    forall x, y | 0 <= x < y < |r| ensures r[x] != r[y] {
      assert r[x] == all[Origin(k, i, j, x)] && r[y] == all[Origin(k, i, j, y)];
    }
  }

  lemma SplicedNone<T>(all: seq<T>, k: int, i: int)
    requires Movable(|all|, k, i, i)
    ensures Spliced(all, k, i, i) == all
  {
  }

  lemma SplicedFrom<T>(all: seq<T>, k: int, i: int, j: int)
    requires Movable(|all|, k, i, j)
    ensures forall e :: e in Spliced(all, k, i, j) ==> e in all
  {
    var r := Spliced(all, k, i, j);
    forall e | e in r ensures e in all {
      var x :| 0 <= x < |r| && r[x] == e;
      assert r[x] == all[Origin(k, i, j, x)];
    }
  }

  lemma SlicePrefix<T>(s: seq<T>, a: int, b: int, c: int)
    requires 0 <= a <= b <= c <= |s|
    ensures s[a..c][..b - a] == s[a..b]
  {
  }

  lemma SliceSuffix<T>(s: seq<T>, a: int, b: int, c: int)
    requires 0 <= a <= b <= c <= |s|
    ensures s[a..c][b - a..] == s[b..c]
  {
  }

  class List<K(!new)> {
    const head: Elem<K>
    const tail: Elem<K>
    ghost var all: seq<Elem<K>>
    ghost var nodes: set<Elem<K>>

    ghost predicate Valid()
      reads this, nodes
    {
      && (forall e :: e in all ==> e in nodes)
      && Linked(all) && all[0] == head && all[|all| - 1] == tail
    }

    /** The interior elements, in order. */
    ghost function Contents(): seq<Elem<K>>
      requires |all| >= 2
      reads this
    {
      all[1..|all| - 1]
    }

    static function Key(e: Elem<K>): K { e.key }

    constructor (h: Elem<K>, t: Elem<K>)
      requires h != t
      modifies h, t
      ensures Valid() && Contents() == [] && head == h && tail == t
    {
      head, tail := h, t;
      all := [h, t];
      nodes := {h, t};
      h.prev, h.next := null, t;
      t.prev, t.next := h, null;
    }

    ghost predicate At(e: Elem?<K>, i: int)
      reads this
    {
      0 <= i < |all| && all[i] == e
    }

    /** list_insert */
    method Insert(before: Elem<K>, elem: Elem<K>, ghost k: int)
      requires Valid() && At(before, k) && k >= 1
      requires elem !in all
      modifies this, nodes, elem
      ensures nodes == old(nodes) + {elem}
      ensures Valid() && all == old(all)[..k] + [elem] + old(all)[k..]
    {
      ghost var was := all;
      elem.prev := before.prev;
      elem.next := before;
      before.prev.next := elem;
      before.prev := elem;
      all := was[..k] + [elem] + was[k..];
      nodes := nodes + {elem};
      InsertedLinked(was, all, elem, k);
    }

    /** list_remove; the return value is the element that followed. */
    method Remove(elem: Elem<K>, ghost i: int) returns (next: Elem<K>)
      requires Valid() && At(elem, i) && 1 <= i < |all| - 1
      modifies this`all, nodes
      ensures Valid() && all == old(all)[..i] + old(all)[i + 1..]
      ensures next == all[i]
    {
      ghost var was := all;
      elem.prev.next := elem.next;
      elem.next.prev := elem.prev;
      next := elem.next;
      all := was[..i] + was[i + 1..];
      assert forall x :: 0 <= x < i ==> all[x] == was[x];
      assert forall x :: i <= x < |all| ==> all[x] == was[x + 1];
    }

    /** The search of list_insert_ordered: the first element that elem precedes. */
    method FindInsertPoint(elem: Elem<K>, less: (K, K) -> bool) returns (e: Elem<K>, ghost i: int)
      requires Valid()
      ensures 1 <= i < |all| && At(e, i)
      ensures forall x :: 1 <= x < i ==> !less(elem.key, all[x].key)
      ensures i < |all| - 1 ==> less(elem.key, e.key)
    {
      i := 1;
      e := head.next;
      while e != tail && !less(elem.key, e.key)
        invariant 1 <= i < |all| && At(e, i)
        invariant forall x :: 1 <= x < i ==> !less(elem.key, all[x].key)
        decreases |all| - i
      {
        e := e.next;
        i := i + 1;
      }
    }

    /** list_insert_ordered */
    method InsertOrdered(elem: Elem<K>, less: (K, K) -> bool)
      requires Valid() && elem !in all
      modifies this, nodes, elem
      ensures nodes == old(nodes) + {elem}
      ensures Valid()
      ensures Contents() == Ordering.InsertOrdered(old(Contents()), elem, Key, less)
    {
      ghost var c := Contents();
      var e, i := FindInsertPoint(elem, less);
      Ordering.InsertAt(c, elem, i - 1, Key, less);
      InsertedInside(all, c, elem, i);
      Insert(e, elem, i);
    }

    static lemma InsertedInside(s: seq<Elem<K>>, c: seq<Elem<K>>, x: Elem<K>, i: int)
      requires 1 <= i < |s| && c == s[1..|s| - 1]
      ensures (s[..i] + [x] + s[i..])[1..|s|] == c[..i - 1] + ([x] + c[i - 1..])
    {
      var l, r := (s[..i] + [x] + s[i..])[1..|s|], c[..i - 1] + ([x] + c[i - 1..]);
      assert |l| == |r|;
      forall j | 0 <= j < |l| ensures l[j] == r[j] {
        if j < i - 1 { assert l[j] == s[j + 1] == c[j]; } else if j > i - 1 { assert l[j] == s[j] == c[j - 1]; }
      }
    }

    /** find_end_of_run on elements [i, j), with the ghost index of the result. */
    method FindEndOfRun(a: Elem<K>, b: Elem<K>, less: (K, K) -> bool, ghost i: int, ghost j: int)
      returns (r: Elem<K>, ghost m: int)
      requires Valid() && At(a, i) && At(b, j) && 1 <= i < j
      ensures At(r, m) && i < m <= j && m - i == RunLength(all[i..j], Key, less)
    {
      r, m := a, i;
      while true
        invariant i <= m < j && At(r, m)
        invariant RunLength(all[i..j], Key, less) == m - i + RunLength(all[m..j], Key, less)
        decreases j - m
      {
        assert all[m..j][1..] == all[m + 1..j];
        r, m := r.next, m + 1;
        if r == b || less(r.key, r.prev.key) {
          return;
        }
      }
    }

    /** Progress of inplace_merge: [lo, ia) is merged, [ia, im) and [im, hi) are
        what is left of the two runs, and the rest of the list is as it was. */
    static ghost predicate Merging(all: seq<Elem<K>>, was: seq<Elem<K>>, goal: seq<Elem<K>>, lo: int, ia: int,
                                   im: int, hi: int, less: (K, K) -> bool) {
      && 1 <= lo <= ia <= im <= hi < |all| == |was|
      && all[..lo] == was[..lo] && all[hi] == was[hi] && all[hi..] == was[hi..]
      && goal == all[lo..ia] + Merge(all[ia..im], all[im..hi], Key, less)
    }

    static lemma MergingBounds(all: seq<Elem<K>>, was: seq<Elem<K>>, goal: seq<Elem<K>>, lo: int, ia: int,
                               im: int, hi: int, less: (K, K) -> bool)
      requires Merging(all, was, goal, lo, ia, im, hi, less)
      ensures 1 <= lo <= ia <= im <= hi < |all| == |was|
    {
    }

    static lemma Merged(all: seq<Elem<K>>, was: seq<Elem<K>>, goal: seq<Elem<K>>, lo: int, ia: int, im: int, hi: int,
                        less: (K, K) -> bool)
      requires Merging(all, was, goal, lo, ia, im, hi, less) && (ia == im || im == hi)
      ensures all == was[..lo] + goal + was[hi..]
    {
      assert all[ia..hi] == Merge(all[ia..im], all[im..hi], Key, less);
      assert all == all[..lo] + (all[lo..ia] + all[ia..hi]) + all[hi..];
    }

    static lemma MergeStarts(was: seq<Elem<K>>, lo: int, mid: int, hi: int, less: (K, K) -> bool)
      requires 1 <= lo <= mid <= hi < |was|
      ensures Merging(was, was, Merge(was[lo..mid], was[mid..hi], Key, less), lo, lo, mid, hi, less)
    {
      assert was[lo..lo] == [];
    }

    static lemma MergingLeft(s: seq<Elem<K>>, was: seq<Elem<K>>, goal: seq<Elem<K>>, lo: int, ia: int, im: int,
                             hi: int, less: (K, K) -> bool)
      requires Merging(s, was, goal, lo, ia, im, hi, less)
      requires ia < im < hi && !less(s[im].key, s[ia].key)
      ensures Merging(s, was, goal, lo, ia + 1, im, hi, less)
    {
      TookLeft(s, lo, ia, im, hi, less);
    }

    static lemma MergingRight(s: seq<Elem<K>>, t: seq<Elem<K>>, was: seq<Elem<K>>, goal: seq<Elem<K>>, lo: int,
                              ia: int, im: int, hi: int, less: (K, K) -> bool)
      requires Merging(s, was, goal, lo, ia, im, hi, less)
      requires ia < im < hi && less(s[im].key, s[ia].key)
      requires t == Spliced(s, ia, im, im + 1)
      ensures Merging(t, was, goal, lo, ia + 1, im + 1, hi, less)
      ensures t[ia + 1] == s[ia] && t[im + 1] == s[im + 1]
    {
      MovedSlices(s, t, lo, ia, im, hi);
      TookRight(s, t, lo, ia, im, hi, less);
    }

    /** The else branch of inplace_merge: the front of the right run moves to the
        front of what is left of the left run. */
    method TakeRight(a0: Elem<K>, a1b0: Elem<K>, ghost ia: int, ghost im: int) returns (y: Elem<K>)
      requires Valid() && 1 <= ia < im < |all| - 1 && At(a0, ia) && At(a1b0, im)
      modifies this`all, nodes
      ensures Valid() && all == Spliced(old(all), ia, im, im + 1)
      ensures y == old(all)[im + 1]
    {
      y := a1b0.next;
      Splice(a0, y.prev, y, ia, im, im + 1);
    }

    /** One round of the loop of inplace_merge. */
    method MergeStep(a0: Elem<K>, a1b0: Elem<K>, less: (K, K) -> bool,
                     ghost was: seq<Elem<K>>, ghost goal: seq<Elem<K>>, ghost lo: int, ghost ia: int, ghost im: int,
                     ghost hi: int)
      returns (x: Elem<K>, y: Elem<K>, ghost im': int)
      requires Valid() && Merging(all, was, goal, lo, ia, im, hi, less)
      requires ia < im < hi && At(a0, ia) && At(a1b0, im)
      modifies this`all, nodes
      ensures Valid() && Merging(all, was, goal, lo, ia + 1, im', hi, less)
      ensures At(x, ia + 1) && At(y, im')
    {
      hide Merging;
      MergingBounds(all, was, goal, lo, ia, im, hi, less);
      ghost var s := all;
      if !less(a1b0.key, a0.key) {
        x, y, im' := a0.next, a1b0, im;
        MergingLeft(s, was, goal, lo, ia, im, hi, less);
      } else {
        x, im' := a0, im + 1;
        y := TakeRight(a0, a1b0, ia, im);
        MergingRight(s, all, was, goal, lo, ia, im, hi, less);
      }
    }

    /** inplace_merge of elements [lo, mid) with elements [mid, hi). */
    method InplaceMerge(x: Elem<K>, y: Elem<K>, b1: Elem<K>, less: (K, K) -> bool, ghost lo: int, ghost mid: int,
                        ghost hi: int)
      requires Valid() && At(x, lo) && At(y, mid) && At(b1, hi) && 1 <= lo <= mid <= hi
      modifies this`all, nodes
      ensures Valid() && all == old(all)[..lo] + Merge(old(all)[lo..mid], old(all)[mid..hi], Key, less) + old(all)[hi..]
    {
      var a0, a1b0 := x, y;
      ghost var ia, im := lo, mid;
      ghost var was := all;
      ghost var goal := Merge(was[lo..mid], was[mid..hi], Key, less);
      MergeStarts(was, lo, mid, hi, less);
      while a0 != a1b0 && a1b0 != b1
        invariant Valid() && Merging(all, was, goal, lo, ia, im, hi, less)
        invariant At(a0, ia) && At(a1b0, im) && At(b1, hi)
        decreases hi - ia
      {
        a0, a1b0, im := MergeStep(a0, a1b0, less, was, goal, lo, ia, im, hi);
        ia := ia + 1;
      }
      Merged(all, was, goal, lo, ia, im, hi, less);
    }

    /** Interior of a list given with its sentinels. */
    static ghost function Interior(s: seq<Elem<K>>): seq<Elem<K>>
      requires |s| >= 2
    {
      s[1..|s| - 1]
    }

    /** Progress of one pass of list_sort: cnt runs have been output into [1, ia),
        twice as many consumed, and [ia, ...) is untouched. */
    static ghost predicate Passing(all: seq<Elem<K>>, s: seq<Elem<K>>, ia: int, cnt: int, less: (K, K) -> bool) {
      && 1 <= ia < |all| == |s|
      && all[ia..] == s[ia..]
      && Runs(all[1..ia], Key, less) <= cnt
      && Runs(all[ia..|s| - 1], Key, less) + 2 * cnt == Runs(Interior(s), Key, less)
      && SameTies(Interior(s), Interior(all), Key, less)
    }

    static lemma PassingBounds(all: seq<Elem<K>>, s: seq<Elem<K>>, ia: int, cnt: int, less: (K, K) -> bool)
      requires Passing(all, s, ia, cnt, less)
      ensures 1 <= ia < |all| == |s| && SameTies(Interior(s), Interior(all), Key, less)
    {
    }

    static lemma PassStarts(s: seq<Elem<K>>, less: (K, K) -> bool)
      requires |s| >= 2
      ensures Passing(s, s, 1, 0, less)
    {
      assert s[1..1] == [];
    }

    /** What one round outputs. */
    static ghost function Replaced(all: seq<Elem<K>>, ia: int, m: int, h: int, less: (K, K) -> bool): seq<Elem<K>>
      requires 0 <= ia <= m <= h <= |all|
    {
      all[..ia] + Merge(all[ia..m], all[m..h], Key, less) + all[h..]
    }

    static lemma PassStep(all: seq<Elem<K>>, s: seq<Elem<K>>, ia: int, m: int, h: int, cnt: int, less: (K, K) -> bool)
      requires StrictWeakOrder(less) && Passing(all, s, ia, cnt, less)
      requires ia < m < h < |s|
      requires m - ia == RunLength(all[ia..|s| - 1], Key, less)
      requires h - m == RunLength(all[m..|s| - 1], Key, less)
      ensures Passing(Replaced(all, ia, m, h, less), s, h, cnt + 1, less)
    {
      hide StrictWeakOrder;
      hide RunLength;
      hide Runs;
      hide Merge;
      hide Replaced;
      hide Ties;
      var n := |s| - 1;
      var next := Replaced(all, ia, m, h, less);
      var p, a, b, c := all[1..ia], all[ia..m], all[m..h], all[h..n];
      TwoRunsSorted(all, ia, m, h, n, less);
      TwoRunsCount(all, ia, m, h, n, less);
      ReplacedParts(all, ia, m, h, less);
      SameSuffix(all, s, ia, h);
      OneMoreRun(p, a, b, less);
      forall k ensures Ties(Interior(s), k, Key, less) == Ties(Interior(next), k, Key, less) {
        assert Ties(Interior(s), k, Key, less) == Ties(Interior(all), k, Key, less);
        MergeInPlaceTies(p, a, b, c, k, Key, less);
      }
    }

    static lemma ReplacedParts(all: seq<Elem<K>>, ia: int, m: int, h: int, less: (K, K) -> bool)
      requires 1 <= ia <= m <= h < |all|
      ensures var next := Replaced(all, ia, m, h, less);
              var n := |all| - 1;
              var p, a, b, c := all[1..ia], all[ia..m], all[m..h], all[h..n];
              && |next| == |all| && next[1..h] == p + Merge(a, b, Key, less)
              && next[h..] == all[h..] && next[h..n] == c
              && Interior(next) == p + Merge(a, b, Key, less) + c && Interior(all) == p + (a + (b + c))
    {
      hide Merge;
      var n := |all| - 1;
      JoinedParts(all[..ia], Merge(all[ia..m], all[m..h], Key, less), all[h..]);
      assert all[..ia][1..] == all[1..ia] && all[h..][..n - h] == all[h..n];
      assert Interior(all) == all[1..ia] + (all[ia..m] + (all[m..h] + all[h..n]));
    }

    static lemma OneMoreRun(p: seq<Elem<K>>, a: seq<Elem<K>>, b: seq<Elem<K>>, less: (K, K) -> bool)
      requires StrictWeakOrder(less) && Sorted(a, Key, less) && Sorted(b, Key, less)
      ensures Runs(p + Merge(a, b, Key, less), Key, less) <= Runs(p, Key, less) + 1
    {
      var merged := Merge(a, b, Key, less);
      MergeSorted(a, b, Key, less);
      SortedIsOneRun(merged, Key, less);
      RunsAppend(p, merged, Key, less);
    }

    static lemma TwoRunsSorted(all: seq<Elem<K>>, ia: int, m: int, h: int, n: int, less: (K, K) -> bool)
      requires StrictWeakOrder(less) && 0 <= ia < m < h <= n <= |all|
      requires m - ia == RunLength(all[ia..n], Key, less) && h - m == RunLength(all[m..n], Key, less)
      ensures Sorted(all[ia..m], Key, less) && Sorted(all[m..h], Key, less)
    {
      RunIsSorted(all[ia..n], Key, less);
      RunIsSorted(all[m..n], Key, less);
      SlicePrefix(all, ia, m, n);
      SlicePrefix(all, m, h, n);
    }

    static lemma TwoRunsCount(all: seq<Elem<K>>, ia: int, m: int, h: int, n: int, less: (K, K) -> bool)
      requires 0 <= ia < m < h <= n <= |all|
      requires m - ia == RunLength(all[ia..n], Key, less) && h - m == RunLength(all[m..n], Key, less)
      ensures Runs(all[ia..n], Key, less) == 2 + Runs(all[h..n], Key, less)
    {
      RunsAfterFirst(all[ia..n], m - ia, Key, less);
      RunsAfterFirst(all[m..n], h - m, Key, less);
      SliceSuffix(all, ia, m, n);
      SliceSuffix(all, m, h, n);
    }

    /** At the end of a pass nothing is left, or one run without a partner. */
    static lemma PassEnds(all: seq<Elem<K>>, s: seq<Elem<K>>, ia: int, cnt: int, cnt': int, less: (K, K) -> bool)
      requires Passing(all, s, ia, cnt, less)
      requires var rest := all[ia..|s| - 1];
               if rest == [] then cnt' == cnt else cnt' == cnt + 1 && RunLength(rest, Key, less) == |rest|
      ensures cnt' == (Runs(Interior(s), Key, less) + 1) / 2
      ensures Runs(Interior(all), Key, less) <= cnt'
    {
      var rest := all[ia..|s| - 1];
      if rest != [] {
        RunsAfterFirst(rest, |rest|, Key, less);
        assert rest[|rest|..] == [];
      }
      assert Interior(all) == all[1..ia] + rest;
      RunsAppend(all[1..ia], rest, Key, less);
    }

    /** The body of the inner loop of list_sort: locate two runs and merge them.
        `last` says that the first run had no partner. */
    method MergeNextRuns(a0: Elem<K>, less: (K, K) -> bool, ghost s: seq<Elem<K>>, ghost ia: int, ghost cnt: int)
      returns (b1: Elem<K>, last: bool, ghost h: int)
      requires StrictWeakOrder(less) && Valid() && Passing(all, s, ia, cnt, less) && At(a0, ia) && ia < |s| - 1
      modifies this`all, nodes
      ensures Valid()
      ensures last ==> all == old(all) && RunLength(all[ia..|s| - 1], Key, less) == |s| - 1 - ia
      ensures !last ==> ia < h < |s| && At(b1, h) && Passing(all, s, h, cnt + 1, less)
    {
      hide Passing;
      hide StrictWeakOrder;
      hide RunLength;
      hide Merge;
      PassingBounds(all, s, ia, cnt, less);
      var a1b0, m := FindEndOfRun(a0, tail, less, ia, |s| - 1);
      b1, h, last := a1b0, m, a1b0 == tail;
      if !last {
        b1, h := FindEndOfRun(a1b0, tail, less, m, |s| - 1);
        PassStep(all, s, ia, m, h, cnt, less);
        InplaceMerge(a0, a1b0, b1, less, ia, m, h);
      }
    }

    /** One pass of list_sort.  From r natural runs it leaves at most ceil(r / 2),
        which is the count it returns. */
    method Pass(less: (K, K) -> bool) returns (outputRunCnt: nat)
      requires StrictWeakOrder(less) && Valid()
      modifies this`all, nodes
      ensures Valid()
      ensures SameTies(old(Contents()), Contents(), Key, less)
      ensures outputRunCnt == (Runs(old(Contents()), Key, less) + 1) / 2
      ensures Runs(Contents(), Key, less) <= outputRunCnt
    {
      hide Passing;
      hide StrictWeakOrder;
      hide Runs;
      hide SameTies;
      ghost var s := all;
      ghost var ia := 1;
      PassStarts(s, less);
      PassingBounds(all, s, ia, 0, less);
      outputRunCnt := 0;
      var a0, last := head.next, false;
      while a0 != tail
        invariant Valid() && Passing(all, s, ia, outputRunCnt, less) && At(a0, ia) && |all| == |s|
        decreases |s| - ia
      {
        ghost var h;
        a0, last, h := MergeNextRuns(a0, less, s, ia, outputRunCnt);
        outputRunCnt := outputRunCnt + 1;
        if last {
          PassingBounds(all, s, ia, outputRunCnt - 1, less);
          PassEnds(all, s, ia, outputRunCnt - 1, outputRunCnt, less);
          return;
        }
        PassingBounds(all, s, h, outputRunCnt, less);
        ia := h;
      }
      PassingBounds(all, s, ia, outputRunCnt, less);
      PassEnds(all, s, ia, outputRunCnt, outputRunCnt, less);
    }

    /** list_sort: the result is the reference sort of the list, for every strict
        weak order; by `InsertionSortStable` that is the stable sorted
        permutation. */
    method Sort(less: (K, K) -> bool)
      requires StrictWeakOrder(less) && Valid()
      modifies this`all, nodes
      ensures Valid()
      ensures Contents() == InsertionSort(old(Contents()), Key, less)
    {
      ghost var s := Contents();
      var outputRunCnt := 2;
      while outputRunCnt > 1
        invariant Valid() && SameTies(s, Contents(), Key, less)
        invariant Runs(Contents(), Key, less) <= outputRunCnt || outputRunCnt == 2
        decreases outputRunCnt > 1, Runs(Contents(), Key, less)
      {
        outputRunCnt := Pass(less);
      }
      OneRunIsSorted(Contents(), Key, less);
      InsertionSortStable(s, Key, less);
      StableSortUnique(Contents(), InsertionSort(s, Key, less), Key, less);
    }

    static lemma TookLeft(s: seq<Elem<K>>, lo: int, ia: int, im: int, hi: int, less: (K, K) -> bool)
      requires 0 <= lo <= ia < im < hi <= |s| && !less(s[im].key, s[ia].key)
      ensures s[lo..ia] + Merge(s[ia..im], s[im..hi], Key, less)
           == s[lo..ia + 1] + Merge(s[ia + 1..im], s[im..hi], Key, less)
    {
      SliceSuffix(s, ia, ia + 1, im);
      assert s[lo..ia + 1] == s[lo..ia] + [s[ia]];
    }

    static lemma TookRight(s: seq<Elem<K>>, t: seq<Elem<K>>, lo: int, ia: int, im: int, hi: int, less: (K, K) -> bool)
      requires 1 <= lo <= ia < im < hi < |s| && less(s[im].key, s[ia].key)
      requires t == Spliced(s, ia, im, im + 1)
      ensures s[lo..ia] + Merge(s[ia..im], s[im..hi], Key, less)
           == t[lo..ia + 1] + Merge(t[ia + 1..im + 1], t[im + 1..hi], Key, less)
    {
      MovedSlices(s, t, lo, ia, im, hi);
      SliceSuffix(s, im, im + 1, hi);
      MergeRight(s[ia..im], s[im..hi], less);
    }

    static lemma MergeRight(a: seq<Elem<K>>, b: seq<Elem<K>>, less: (K, K) -> bool)
      requires a != [] && b != [] && less(b[0].key, a[0].key)
      ensures Merge(a, b, Key, less) == [b[0]] + Merge(a, b[1..], Key, less)
    {
    }

    static lemma MovedSlices(s: seq<Elem<K>>, t: seq<Elem<K>>, lo: int, ia: int, im: int, hi: int)
      requires 1 <= lo <= ia < im < hi < |s|
      requires t == Spliced(s, ia, im, im + 1)
      ensures t[..lo] == s[..lo] && t[hi..] == s[hi..] && t[hi] == s[hi]
      ensures t[im + 1..hi] == s[im + 1..hi]
      ensures t[lo..ia + 1] == s[lo..ia] + [s[im]]
      ensures t[ia + 1..im + 1] == s[ia..im]
    {
    }

    /** list_splice within one list: elements first up to, but not including,
        end move in front of before. */
    method Splice(before: Elem<K>, first: Elem<K>, end: Elem<K>, ghost k: int, ghost i: int, ghost j: int)
      requires Valid() && At(before, k) && At(first, i) && At(end, j)
      requires Movable(|all|, k, i, j)
      modifies this`all, nodes
      ensures Valid() && all == Spliced(old(all), k, i, j)
    {
      hide Origin;
      hide Successor;
      hide Predecessor;
      hide NoDup;
      ghost var was := all;
      OnlyThere(was, i);
      if first == end {
        SplicedNone(was, k, i);
        return;
      }
      var last := end.prev;
      Bypass(first, last, was, i, j);
      Attach(before, first, last, was, k, i, j);
      SplicedDistinct(was, k, i, j);
      SplicedFrom(was, k, i, j);
      OriginEnds(|was|, k, i, j);
      NeighboursInRange(|was|, k, i, j);
      SplicedLinked(was, k, i, j);
      all := Spliced(was, k, i, j);
    }

    /** The first two pointer writes of list_splice: [i, j) is bypassed. */
    static method Bypass(first: Elem<K>, last: Elem<K>, ghost was: seq<Elem<K>>, ghost i: int, ghost j: int)
      requires Linked(was) && 0 < i < j < |was|
      requires was[i] == first && was[j - 1] == last
      modifies was
      ensures was[0].prev == null && was[|was| - 1].next == null
      ensures forall o {:trigger was[o].next} :: 0 <= o < |was| - 1 ==>
                was[o].next == was[if o == i - 1 then j else o + 1]
      ensures forall o {:trigger was[o].prev} :: 0 < o < |was| ==> was[o].prev == was[if o == j then i - 1 else o - 1]
    {
      var left, right := first.prev, last.next;
      assert left == was[i - 1] && right == was[j];
      left.next := right;
      right.prev := left;
    }

    /** The last four pointer writes: [i, j) is hooked in before element k. */
    static method Attach(before: Elem<K>, first: Elem<K>, last: Elem<K>, ghost was: seq<Elem<K>>, ghost k: int,
                         ghost i: int, ghost j: int)
      requires Movable(|was|, k, i, j) && i < j && NoDup(was)
      requires was[k] == before && was[i] == first && was[j - 1] == last
      requires was[0].prev == null && was[|was| - 1].next == null
      requires forall o {:trigger was[o].next} :: 0 <= o < |was| - 1 ==>
                 was[o].next == was[if o == i - 1 then j else o + 1]
      requires forall o {:trigger was[o].prev} :: 0 < o < |was| ==> was[o].prev == was[if o == j then i - 1 else o - 1]
      modifies was
      ensures was[0].prev == null && was[|was| - 1].next == null
      ensures forall o {:trigger was[o].next} :: 0 <= o < |was| - 1 ==> was[o].next == was[Successor(k, i, j, o)]
      ensures forall o {:trigger was[o].prev} :: 0 < o < |was| ==> was[o].prev == was[Predecessor(k, i, j, o)]
    {
      hide NoDup;
      ghost var m := if k == j then i - 1 else k - 1;
      OnlyThere(was, i);
      OnlyThere(was, j - 1);
      OnlyThere(was, k);
      OnlyThere(was, m);
      var mark := before.prev;
      assert mark == was[m];
      first.prev := mark;
      last.next := before;
      mark.next := first;
      before.prev := last;
    }
  }

  lemma InsertedLinked<K>(was: seq<Elem<K>>, all: seq<Elem<K>>, elem: Elem<K>, k: int)
    requires 1 <= k < |was| && NoDup(was) && elem !in was && all == was[..k] + [elem] + was[k..]
    requires was[0].prev == null && was[|was| - 1].next == null
    requires elem.next == was[k] && elem.prev == was[k - 1] && was[k - 1].next == elem && was[k].prev == elem
    requires forall i {:trigger was[i].next} :: 0 <= i < |was| - 1 && i != k - 1 ==> was[i].next == was[i + 1]
    requires forall i {:trigger was[i].prev} :: 1 <= i < |was| && i != k ==> was[i].prev == was[i - 1]
    ensures Linked(all)
  {
    forall x | 0 <= x < |all| - 1 ensures all[x].next == all[x + 1] {
      assert all[x] == if x < k then was[x] else if x == k then elem else was[x - 1];
    }
    forall x | 1 <= x < |all| ensures all[x].prev == all[x - 1] {
      assert all[x] == if x < k then was[x] else if x == k then elem else was[x - 1];
    }
  }

  lemma SplicedLinked<K>(was: seq<Elem<K>>, k: int, i: int, j: int)
    requires Movable(|was|, k, i, j) && i < j
    requires NoDup(Spliced(was, k, i, j))
    requires was[0].prev == null && was[|was| - 1].next == null
    requires forall o :: 0 <= o < |was| - 1 ==>
               0 <= Successor(k, i, j, o) < |was| && was[o].next == was[Successor(k, i, j, o)]
    requires forall o :: 0 < o < |was| ==>
               0 <= Predecessor(k, i, j, o) < |was| && was[o].prev == was[Predecessor(k, i, j, o)]
    ensures Linked(Spliced(was, k, i, j))
  {
    hide NoDup;
    hide Origin;
    hide Successor;
    hide Predecessor;
    var r := Spliced(was, k, i, j);
    OriginEnds(|was|, k, i, j);
    forall x | 0 <= x < |r| - 1 ensures r[x].next == r[x + 1] && r[x + 1].prev == r[x] {
      OriginStep(|was|, k, i, j, x);
    }
  }
}
