/** The chained hash table with rehashing (src/lib/kernel/hash.c), against a
    finite set. */
module HashTable {
  import opened Arithmetic
  import opened Bits
  import opened Common
  import opened Ordering

  const BEST_ELEMS_PER_BUCKET := 2

  /** What the source asks of its callbacks: LESS is an order, and elements that
      LESS does not tell apart hash alike. */
  ghost predicate Consistent<T(!new)>(hash: T -> nat, less: (T, T) -> bool) {
    && StrictWeakOrder(less)
    && forall x, y :: Equiv(less, x, y) ==> hash(x) == hash(y)
  }

  /** find_bucket: hash & (bucket_cnt - 1) */
  function BucketIdx<T>(x: T, cnt: nat, hash: T -> nat): nat
    requires cnt > 0
  {
    And(hash(x), cnt - 1)
  }

  /** With a power of two of buckets the mask is a remainder, so it is an index. */
  lemma BucketInRange<T>(x: T, cnt: nat, k: nat, hash: T -> nat)
    requires cnt == Pow2(k)
    ensures BucketIdx(x, cnt, hash) == hash(x) % cnt < cnt
  {
    AndMask(hash(x), k, cnt);
  }

  ghost predicate NoTwoEquiv<T>(b: seq<T>, less: (T, T) -> bool) {
    forall i, j :: 0 <= i < j < |b| ==> !Equiv(less, b[i], b[j])
  }

  /** Buckets bs hold exactly the elements of c, each once and in its own bucket. */
  ghost predicate Table<T>(bs: seq<seq<T>>, k: nat, c: set<T>, hash: T -> nat, less: (T, T) -> bool) {
    && |bs| == Pow2(k)
    && (forall i, x :: 0 <= i < |bs| && x in bs[i] ==> x in c && BucketIdx(x, |bs|, hash) == i)
    && (forall x :: x in c ==> BucketIdx(x, |bs|, hash) < |bs| && x in bs[BucketIdx(x, |bs|, hash)])
    && (forall i :: 0 <= i < |bs| ==> NoTwoEquiv(bs[i], less))
  }

  /** No two elements of a table are equivalent. */
  lemma TableDistinct<T(!new)>(bs: seq<seq<T>>, k: nat, c: set<T>, x: T, y: T, hash: T -> nat, less: (T, T) -> bool)
    requires Consistent(hash, less) && Table(bs, k, c, hash, less)
    requires x in c && y in c && Equiv(less, x, y)
    ensures x == y
  {
    var b := bs[BucketIdx(x, |bs|, hash)];
    var i :| 0 <= i < |b| && b[i] == x;
    var j :| 0 <= j < |b| && b[j] == y;
  }

  /** insert_elem: push x on the front of its bucket. */
  lemma PushFront<T(!new)>(bs: seq<seq<T>>, k: nat, c: set<T>, x: T, hash: T -> nat, less: (T, T) -> bool)
    requires Consistent(hash, less) && Table(bs, k, c, hash, less)
    requires forall y :: y in c ==> !Equiv(less, x, y)
    ensures BucketIdx(x, |bs|, hash) < |bs|
    ensures var i := BucketIdx(x, |bs|, hash); Table(bs[i := [x] + bs[i]], k, c + {x}, hash, less)
  {
    BucketInRange(x, |bs|, k, hash);
    var i := BucketIdx(x, |bs|, hash);
    var b := [x] + bs[i];
    var bs' := bs[i := b];
    forall p, q | 0 <= p < q < |b| ensures !Equiv(less, b[p], b[q]) {
      assert b[q] == bs[i][q - 1];
      if p > 0 { assert b[p] == bs[i][p - 1]; }
    }
    forall y | y in c + {x} ensures BucketIdx(y, |bs'|, hash) < |bs'| && y in bs'[BucketIdx(y, |bs'|, hash)] {
      if y == x { assert b[0] == x; } else {
        var p :| 0 <= p < |bs[BucketIdx(y, |bs|, hash)]| && bs[BucketIdx(y, |bs|, hash)][p] == y;
        assert BucketIdx(y, |bs|, hash) == i ==> b[p + 1] == y;
      }
    }
  }

  /** remove_elem: unlink the element at position p of bucket i. */
  lemma Unlink<T(!new)>(bs: seq<seq<T>>, k: nat, c: set<T>, i: nat, p: nat, hash: T -> nat, less: (T, T) -> bool)
    requires Consistent(hash, less) && Table(bs, k, c, hash, less)
    requires i < |bs| && p < |bs[i]|
    ensures Table(bs[i := bs[i][..p] + bs[i][p + 1..]], k, c - {bs[i][p]}, hash, less)
  {
    var x := bs[i][p];
    var b := bs[i][..p] + bs[i][p + 1..];
    var bs' := bs[i := b];
    assert forall q :: 0 <= q < |b| ==> b[q] == bs[i][if q < p then q else q + 1];
    forall q | 0 <= q < |bs[i]| && q != p ensures bs[i][q] != x && bs[i][q] in b {
      assert !Equiv(less, bs[i][q], bs[i][p]) by { assert q < p || p < q; }
      assert b[if q < p then q else q - 1] == bs[i][q];
    }
    forall y | y in c - {x} ensures y in bs'[BucketIdx(y, |bs'|, hash)] {
      var j := BucketIdx(y, |bs|, hash);
      var q :| 0 <= q < |bs[j]| && bs[j][q] == y;
    }
    assert NoTwoEquiv(b, less);
    forall j, y | 0 <= j < |bs'| && y in bs'[j] ensures y in c - {x} && BucketIdx(y, |bs'|, hash) == j {
      if j == i {
        var q :| 0 <= q < |b| && b[q] == y;
        var o := if q < p then q else q + 1;
        assert bs[i][o] == y && o != p;
        assert y != x && y in bs[i];
      } else {
        assert x in bs[i] && BucketIdx(x, |bs|, hash) == i;
        assert y in bs[j] && BucketIdx(y, |bs|, hash) == j;
        assert y != x;
      }
    }
  }

  /** r is the element of c that ties with e, or None if there is none. */
  ghost predicate Match<T>(c: set<T>, e: T, r: Option<T>, less: (T, T) -> bool) {
    && (r.Some? ==> r.value in c && Equiv(less, r.value, e))
    && (r.None? ==> forall x :: x in c ==> !Equiv(less, x, e))
  }

  class Hash<T(==, !new)> {
    const hash: T -> nat
    const less: (T, T) -> bool
    var elemCnt: nat
    var buckets: array<seq<T>>
    ghost var logCnt: nat
    ghost var contents: set<T>

    /** bucket_cnt is a power of two, at least 4. */
    ghost predicate Valid()
      reads this, buckets
    {
      && Consistent(hash, less)
      && 2 <= logCnt
      && Table(buckets[..], logCnt, contents, hash, less)
      && elemCnt == |contents|
    }

    /** There is at most one element that ties with e, so a lookup has only one
        answer. */
    lemma MatchUnique(e: T, r: Option<T>, s: Option<T>)
      requires Valid() && Match(contents, e, r, less) && Match(contents, e, s, less)
      ensures r == s
    {
      if r.Some? && s.Some? {
        assert Equiv(less, r.value, s.value);
        TableDistinct(buckets[..], logCnt, contents, r.value, s.value, hash, less);
      }
    }

    constructor (h: T -> nat, l: (T, T) -> bool)
      requires Consistent(h, l)
      ensures Valid() && contents == {} && fresh(buckets) && hash == h && less == l
    {
      hash, less, elemCnt := h, l, 0;
      buckets := new seq<T>[4](_ => []);
      logCnt, contents := 2, {};
      new;
      assert Pow2(2) == 4;
      assert forall i :: 0 <= i < 4 ==> buckets[..][i] == [];
    }

    /** find_elem in bucket i, with the position of the result. */
    method FindElem(i: nat, e: T) returns (r: Option<T>, p: nat)
      requires Valid() && i < buckets.Length && i == BucketIdx(e, buckets.Length, hash)
      ensures Match(contents, e, r, less)
      ensures r.Some? ==> p < |buckets[i]| && buckets[i][p] == r.value
    {
      var b := buckets[i];
      p := 0;
      while p < |b|
        invariant 0 <= p <= |b|
        invariant forall q :: 0 <= q < p ==> !Equiv(less, b[q], e)
      {
        if !less(b[p], e) && !less(e, b[p]) {
          return Some(b[p]), p;
        }
        p := p + 1;
      }
      r := None;
      assert b == buckets[..][i];
    }

    /** hash_find */
    method Find(e: T) returns (r: Option<T>)
      requires Valid()
      ensures Match(contents, e, r, less)
    {
      BucketInRange(e, buckets.Length, logCnt, hash);
      var p;
      r, p := FindElem(BucketIdx(e, buckets.Length, hash), e);
    }

    method InsertElem(i: nat, e: T)
      requires Valid() && i < buckets.Length && i == BucketIdx(e, buckets.Length, hash)
               && Match(contents, e, None, less)
      modifies this`elemCnt, this`contents, buckets
      ensures Valid() && contents == old(contents) + {e}
    {
      PushFront(buckets[..], logCnt, contents, e, hash, less);
      ghost var was := buckets[..];
      elemCnt := elemCnt + 1;
      buckets[i] := [e] + buckets[i];
      assert e !in contents by { assert Equiv(less, e, e); }
      contents := contents + {e};
      assert buckets[..] == was[i := [e] + was[i]];
    }

    method RemoveElem(i: nat, p: nat)
      requires Valid() && i < buckets.Length && p < |buckets[i]|
      modifies this`elemCnt, this`contents, buckets
      ensures Valid() && contents == old(contents) - {old(buckets[i][p])}
    {
      Unlink(buckets[..], logCnt, contents, i, p, hash, less);
      ghost var was := buckets[..];
      assert was[i][p] in contents;
      contents := contents - {buckets[i][p]};
      elemCnt := elemCnt - 1;
      buckets[i] := buckets[i][..p] + buckets[i][p + 1..];
      assert buckets[..] == was[i := was[i][..p] + was[i][p + 1..]];
    }

    /** hash_insert: leaves an equal element in place. */
    method Insert(e: T, memory: bool) returns (old_: Option<T>)
      requires Valid()
      modifies this, buckets
      ensures Valid() && (buckets == old(buckets) || fresh(buckets))
      ensures Match(old(contents), e, old_, less)
      ensures contents == if old_.Some? then old(contents) else old(contents) + {e}
      ensures memory ==> elemCnt < 4 * buckets.Length
    {
      BucketInRange(e, buckets.Length, logCnt, hash);
      var i := BucketIdx(e, buckets.Length, hash);
      var p;
      old_, p := FindElem(i, e);
      if old_.None? {
        InsertElem(i, e);
      }
      Rehash(memory);
    }

    /** hash_replace: puts e in the place of an equal element. */
    method Replace(e: T, memory: bool) returns (old_: Option<T>)
      requires Valid()
      modifies this, buckets
      ensures Valid() && (buckets == old(buckets) || fresh(buckets))
      ensures Match(old(contents), e, old_, less)
      ensures contents == (if old_.Some? then old(contents) - {old_.value} else old(contents)) + {e}
      ensures memory ==> elemCnt < 4 * buckets.Length
    {
      BucketInRange(e, buckets.Length, logCnt, hash);
      var i := BucketIdx(e, buckets.Length, hash);
      var p;
      old_, p := FindElem(i, e);
      if old_.Some? {
        forall x | x in contents && Equiv(less, x, e) ensures x == old_.value {
          MatchUnique(e, Some(x), old_);
        }
        RemoveElem(i, p);
      }
      InsertElem(i, e);
      Rehash(memory);
    }

    /** hash_delete */
    method Delete(e: T, memory: bool) returns (found: Option<T>)
      requires Valid()
      modifies this, buckets
      ensures Valid() && (buckets == old(buckets) || fresh(buckets))
      ensures Match(old(contents), e, found, less)
      ensures contents == if found.Some? then old(contents) - {found.value} else old(contents)
      ensures memory && found.Some? ==> elemCnt < 4 * buckets.Length
    {
      BucketInRange(e, buckets.Length, logCnt, hash);
      var i := BucketIdx(e, buckets.Length, hash);
      var p;
      found, p := FindElem(i, e);
      if found.Some? {
        RemoveElem(i, p);
        Rehash(memory);
      }
    }

    /** The bucket count rehash() aims for: a power of two, at least four, and
        otherwise the largest that leaves two elements per bucket. */
    static method NewBucketCnt(elemCnt: nat) returns (n: nat, ghost k: nat)
      ensures 2 <= k && n == Pow2(k)
      ensures n <= (if elemCnt / 2 < 4 then 4 else elemCnt / 2) < 2 * n
    {
      n := elemCnt / BEST_ELEMS_PER_BUCKET;
      if n < 4 { n := 4; }
      k := LeadingPower(n);
      assert Pow2(0) == 1 && Pow2(1) == 2;
      ghost var goal := n;
      while !IsPowerOf2(n)
        invariant Pow2(k) <= n <= goal < 2 * Pow2(k) && 4 <= n
        decreases n
      {
        TurnOffKeepsLeading(n, k);
        n := TurnOffLeast1Bit(n);
      }
      PowerOf2Test(n, k);
    }

    /** rehash: keeps the set whether or not memory is available, and with memory
        leaves fewer than four elements per bucket. */
    method Rehash(memory: bool)
      requires Valid()
      modifies this`buckets, this`logCnt
      ensures Valid() && (buckets == old(buckets) || fresh(buckets))
      ensures memory ==> elemCnt < 4 * buckets.Length
    {
      hide Table;
      hide Moved;
      hide BucketIdx;
      var n, k := NewBucketCnt(elemCnt);
      if n == buckets.Length || !memory {
        return;
      }
      var nb := new seq<T>[n](_ => []);
      ghost var bs, moved := buckets[..], {};
      EmptyTable(nb[..], k, hash, less);
      NoneMoved(bs, logCnt, contents, hash, less);
      var i := 0;
      while i < buckets.Length
        invariant 0 <= i <= buckets.Length && buckets[..] == bs
        invariant Table(nb[..], k, moved, hash, less)
        invariant Moved(bs, contents, moved, i, 0, hash)
        modifies nb
      {
        moved := MoveBucket(nb, k, bs, moved, i);
        MovedBucket(bs, logCnt, contents, moved, i, hash, less);
        i := i + 1;
      }
      TableSize(bs, logCnt, contents, hash, less);
      AllMoved(bs, logCnt, contents, moved, hash, less);
      buckets, logCnt := nb, k;
    }

    /** The inner loop of rehash: the elements of bucket i move, front to back. */
    method MoveBucket(nb: array<seq<T>>, ghost k: nat, ghost bs: seq<seq<T>>, ghost before: set<T>, i: nat)
      returns (ghost moved: set<T>)
      requires Valid() && nb != buckets && bs == buckets[..] && i < buckets.Length
      requires Table(nb[..], k, before, hash, less) && Moved(bs, contents, before, i, 0, hash)
      modifies nb
      ensures Table(nb[..], k, moved, hash, less) && Moved(bs, contents, moved, i, |bs[i]|, hash)
    {
      moved := before;
      var b := buckets[i];
      var j := 0;
      while j < |b|
        invariant 0 <= j <= |b|
        invariant Table(nb[..], k, moved, hash, less)
        invariant Moved(bs, contents, moved, i, j, hash)
      {
        var e := b[j];
        NotMoved(bs, logCnt, contents, moved, i, j, hash, less);
        PushFront(nb[..], k, moved, e, hash, less);
        MoveOne(bs, logCnt, contents, moved, i, j, hash, less);
        ghost var was := nb[..];
        var t := BucketIdx(e, nb.Length, hash);
        nb[t] := [e] + nb[t];
        assert nb[..] == was[t := [e] + was[t]];
        moved := moved + {e};
        j := j + 1;
      }
    }
  }

  /** Progress of rehash(): buckets before i and the first j elements of bucket i
      have been moved, and nothing else. */
  ghost predicate Moved<T>(bs: seq<seq<T>>, c: set<T>, moved: set<T>, i: nat, j: nat, hash: T -> nat) {
    && i <= |bs| && (j > 0 ==> i < |bs| && j <= |bs[i]|)
    && moved <= c
    && |bs| > 0
    && forall x :: x in c ==>
         (x in moved <==> BucketIdx(x, |bs|, hash) < i || (j > 0 && BucketIdx(x, |bs|, hash) == i && x in bs[i][..j]))
  }

  lemma Once<T(!new)>(b: seq<T>, j: nat, less: (T, T) -> bool)
    requires StrictWeakOrder(less) && NoTwoEquiv(b, less) && j < |b|
    ensures b[j] !in b[..j]
  {
    forall q | 0 <= q < j ensures b[q] != b[j] {
      assert !Equiv(less, b[q], b[j]);
    }
  }

  lemma NotMoved<T(!new)>(bs: seq<seq<T>>, k: nat, c: set<T>, moved: set<T>, i: nat, j: nat, hash: T -> nat,
                          less: (T, T) -> bool)
    requires Consistent(hash, less) && Table(bs, k, c, hash, less)
    requires Moved(bs, c, moved, i, j, hash) && i < |bs| && j < |bs[i]|
    ensures forall y :: y in moved ==> !Equiv(less, bs[i][j], y)
  {
    var e := bs[i][j];
    assert e in bs[i];
    forall y | y in moved ensures !Equiv(less, e, y) {
      if Equiv(less, e, y) {
        TableDistinct(bs, k, c, e, y, hash, less);
        Once(bs[i], j, less);
      }
    }
  }

  lemma MoveOne<T(!new)>(bs: seq<seq<T>>, k: nat, c: set<T>, moved: set<T>, i: nat, j: nat, hash: T -> nat,
                         less: (T, T) -> bool)
    requires Consistent(hash, less) && Table(bs, k, c, hash, less)
    requires Moved(bs, c, moved, i, j, hash) && i < |bs| && j < |bs[i]|
    ensures Moved(bs, c, moved + {bs[i][j]}, i, j + 1, hash)
  {
    var e := bs[i][j];
    assert e in bs[i];
    assert bs[i][..j + 1] == bs[i][..j] + [e];
  }

  lemma MovedBucket<T(!new)>(bs: seq<seq<T>>, k: nat, c: set<T>, moved: set<T>, i: nat, hash: T -> nat,
                             less: (T, T) -> bool)
    requires Table(bs, k, c, hash, less)
    requires i < |bs| && Moved(bs, c, moved, i, |bs[i]|, hash)
    ensures Moved(bs, c, moved, i + 1, 0, hash)
  {
    assert bs[i][..|bs[i]|] == bs[i];
  }

  lemma TableSize<T(!new)>(bs: seq<seq<T>>, k: nat, c: set<T>, hash: T -> nat, less: (T, T) -> bool)
    requires Table(bs, k, c, hash, less)
    ensures |bs| == Pow2(k)
  {
  }

  lemma EmptyTable<T(!new)>(bs: seq<seq<T>>, k: nat, hash: T -> nat, less: (T, T) -> bool)
    requires |bs| == Pow2(k) && forall i :: 0 <= i < |bs| ==> bs[i] == []
    ensures Table(bs, k, {}, hash, less)
  {
  }

  lemma NoneMoved<T(!new)>(bs: seq<seq<T>>, k: nat, c: set<T>, hash: T -> nat, less: (T, T) -> bool)
    requires Table(bs, k, c, hash, less)
    ensures Moved(bs, c, {}, 0, 0, hash)
  {
  }

  lemma AllMoved<T(!new)>(bs: seq<seq<T>>, k: nat, c: set<T>, moved: set<T>, hash: T -> nat, less: (T, T) -> bool)
    requires Table(bs, k, c, hash, less) && Moved(bs, c, moved, |bs|, 0, hash)
    ensures moved == c
  {
  }
}
