/** The page allocator (src/threads/palloc.c): two first-fit pools.

    Pages are identified by their page number. */
module Palloc {
  import opened Bitmaps
  import opened Common

  const FIRST_FREE_PAGE := 256          // 1 MB
  const SIZEOF_BITMAP := 8              // struct bitmap on a 32-bit machine

  function DivRoundUp(x: nat, step: nat): nat
    requires step > 0
  {
    (x + step - 1) / step
  }

  // ----- layout

  /** Where a pool ends up: its region starts at `start`, the bitmap takes the
      pages up to `base`, and `size` pages are handed out from there. */
  datatype Shape = Shape(start: nat, base: nat, size: nat) {
    function End(): nat { base + size }
    predicate Owns(page: nat) { base <= page < End() }
  }

  /** init_pool; None is the panic.  The bitmap takes as few pages as hold it, and there is
      no pool just when it does not fit. */
  function InitPool(start: nat, pageCnt: nat): (r: Option<Shape>)
    ensures r.Some? ==>
              && r.value.start == start <= r.value.base && r.value.End() == start + pageCnt
              && SIZEOF_BITMAP + ByteCnt(r.value.size) <= (r.value.base - start) * PGSIZE
              && (r.value.base - start - 1) * PGSIZE < SIZEOF_BITMAP + ByteCnt(pageCnt)
    ensures r.None? <==> pageCnt * PGSIZE < SIZEOF_BITMAP + ByteCnt(pageCnt)
  {
    var bmPages := DivRoundUp(SIZEOF_BITMAP + ByteCnt(pageCnt), PGSIZE);
    if bmPages > pageCnt then None
    else
      ByteCntMono(pageCnt - bmPages, pageCnt);
      Some(Shape(start, start + bmPages, pageCnt - bmPages))
  }

  lemma ByteCntMono(m: nat, n: nat)
    requires m <= n
    ensures ByteCnt(m) <= ByteCnt(n)
  {
  }

  datatype Layout = Layout(kernel: Shape, user: Shape)

  /** palloc_init: the user pool gets half of the free pages, but no more than the limit. */
  function Init(ramPages: nat, userPageLimit: nat): (r: Option<Layout>)
    requires FIRST_FREE_PAGE <= ramPages
    ensures r.Some? ==> SoundLayout(r.value) && r.value.user.End() == ramPages
    ensures r.Some? ==>
              var free, userPages := ramPages - FIRST_FREE_PAGE, ramPages - r.value.user.start;
              && r.value.kernel.start == FIRST_FREE_PAGE && userPages <= userPageLimit && 2 * userPages <= free
              && (userPages == userPageLimit || free <= 2 * userPages + 1)
  {
    var freePages := ramPages - FIRST_FREE_PAGE;
    var userPages := if freePages / 2 > userPageLimit then userPageLimit else freePages / 2;
    var kernelPages := freePages - userPages;
    var k := InitPool(FIRST_FREE_PAGE, kernelPages);
    var u := InitPool(FIRST_FREE_PAGE + kernelPages, userPages);
    if k.None? || u.None? then None else Some(Layout(k.value, u.value))
  }

  /** The two pools and their two bitmaps are four disjoint regions above 1 MB. */
  predicate SoundLayout(l: Layout) {
    && FIRST_FREE_PAGE <= l.kernel.start <= l.kernel.base
    && l.kernel.End() == l.user.start <= l.user.base
  }

  // ----- live groups

  /** Page groups handed out and not yet returned: first page to page count. */
  type Groups = map<nat, nat>

  ghost predicate Covers(live: Groups, p: nat, page: int) {
    p in live && p <= page < p + live[p]
  }

  ghost predicate Covered(live: Groups, page: int) {
    exists p: nat :: Covers(live, p, page)
  }

  ghost predicate Disjoint(live: Groups) {
    forall p, q :: p in live && q in live && p < q ==> p + live[p] <= q
  }

  ghost predicate Inside(live: Groups, l: Layout) {
    forall p :: p in live ==>
      && 0 < live[p]
      && ((l.kernel.base <= p && p + live[p] <= l.kernel.End()) || (l.user.base <= p && p + live[p] <= l.user.End()))
  }

  /** A pool's marked bits are exactly the pages of live groups. */
  ghost predicate Exact(bits: seq<bool>, s: Shape, live: Groups) {
    |bits| == s.size && forall i :: 0 <= i < |bits| ==> (bits[i] <==> Covered(live, s.base + i))
  }

  ghost predicate Consistent(kbits: seq<bool>, ubits: seq<bool>, l: Layout, live: Groups) {
    && SoundLayout(l) && Disjoint(live) && Inside(live, l)
    && Exact(kbits, l.kernel, live) && Exact(ubits, l.user, live)
  }

  /** Live groups are disjoint, avoid both bitmaps, and stay in one pool. */
  lemma GroupsAreSeparate(kbits: seq<bool>, ubits: seq<bool>, l: Layout, live: Groups, p: nat, q: nat, page: int)
    requires Consistent(kbits, ubits, l, live) && Covers(live, p, page)
    ensures Covers(live, q, page) ==> p == q
    ensures !(l.kernel.start <= page < l.kernel.base) && !(l.user.start <= page < l.user.base)
    ensures l.kernel.Owns(page) != l.user.Owns(page)
    ensures l.kernel.Owns(page) <==> l.kernel.Owns(p)
  {
  }

  lemma NotCovered(bits: seq<bool>, s: Shape, live: Groups, i: nat, p: nat)
    requires Exact(bits, s, live) && i < |bits| && !bits[i]
    ensures !Covers(live, p, s.base + i)
  {
    assert !Covered(live, s.base + i);
  }

  lemma AllocateExact(bits: seq<bool>, s: Shape, live: Groups, idx: nat, cnt: nat)
    requires Exact(bits, s, live) && 0 < cnt && idx + cnt <= |bits|
    requires AllAre(bits, idx, cnt, false) && forall p :: p in live ==> 0 < live[p]
    ensures s.base + idx !in live
    ensures Exact(Filled(bits, idx, cnt, true), s, live[s.base + idx := cnt])
  {
    var p, live' := s.base + idx, live[s.base + idx := cnt];
    var bits' := Filled(bits, idx, cnt, true);
    NotCovered(bits, s, live, idx, p);
    forall i | 0 <= i < |bits'| ensures bits'[i] <==> Covered(live', s.base + i) {
      if idx <= i < idx + cnt {
        assert Covers(live', p, s.base + i);
      } else {
        CoveredElsewhere(live, live', p, s.base + i);
      }
    }
  }

  /** Adding or removing group p does not change pages it does not cover. */
  lemma CoveredElsewhere(live: Groups, live': Groups, p: nat, page: int)
    requires !Covers(live, p, page) && !Covers(live', p, page)
    requires live' - {p} == live - {p}
    ensures Covered(live, page) <==> Covered(live', page)
  {
    if Covered(live, page) {
      var q :| Covers(live, q, page);
      assert q in live - {p};
      assert Covers(live', q, page);
    }
    if Covered(live', page) {
      var q :| Covers(live', q, page);
      assert q in live' - {p};
      assert Covers(live, q, page);
    }
  }

  /** A group inside one pool leaves the other pool's bits right. */
  lemma OtherPoolExact(bits: seq<bool>, s: Shape, live: Groups, live': Groups, p: nat)
    requires Exact(bits, s, live) && live' - {p} == live - {p}
    requires forall page: nat :: s.Owns(page) ==> !Covers(live, p, page) && !Covers(live', p, page)
    ensures Exact(bits, s, live')
  {
    forall i | 0 <= i < |bits| ensures bits[i] <==> Covered(live', s.base + i) {
      assert s.Owns(s.base + i);
      CoveredElsewhere(live, live', p, s.base + i);
    }
  }

  /** A free stretch does not meet any live group. */
  lemma FreshGroupDisjoint(bits: seq<bool>, s: Shape, live: Groups, idx: nat, cnt: nat)
    requires Exact(bits, s, live) && Disjoint(live)
    requires 0 < cnt && idx + cnt <= |bits| && AllAre(bits, idx, cnt, false)
    requires forall p :: p in live ==> 0 < live[p]
    requires s.base + idx !in live
    ensures Disjoint(live[s.base + idx := cnt])
  {
    var n := s.base + idx;
    forall p | p in live ensures p + live[p] <= n || n + cnt <= p {
      NotCovered(bits, s, live, idx, p);
      if n < p < n + cnt { NotCovered(bits, s, live, p - s.base, p); }
    }
  }

  lemma ReleaseExact(bits: seq<bool>, s: Shape, live: Groups, idx: nat, cnt: nat)
    requires Exact(bits, s, live) && Disjoint(live) && idx + cnt <= |bits|
    requires s.base + idx in live && live[s.base + idx] == cnt
    ensures AllAre(bits, idx, cnt, true)
    ensures Exact(Filled(bits, idx, cnt, false), s, live - {s.base + idx})
  {
    var p, live' := s.base + idx, live - {s.base + idx};
    var bits' := Filled(bits, idx, cnt, false);
    forall i | idx <= i < idx + cnt ensures bits[i] {
      assert Covers(live, p, s.base + i);
    }
    forall i | 0 <= i < |bits'| ensures bits'[i] <==> Covered(live', s.base + i) {
      if idx <= i < idx + cnt {
        if Covered(live', s.base + i) {
          var q :| Covers(live', q, s.base + i);
          assert false;
        }
      } else {
        CoveredElsewhere(live, live', p, s.base + i);
      }
    }
  }

  /** Handing out a free stretch of one pool keeps everything consistent. */
  lemma AllocateConsistent(kbits: seq<bool>, ubits: seq<bool>, l: Layout, live: Groups, user: bool, idx: nat, cnt: nat)
    requires Consistent(kbits, ubits, l, live) && 0 < cnt
    requires FirstFit(if user then ubits else kbits, 0, cnt, false) == Some(idx)
    ensures var p := (if user then l.user else l.kernel).base + idx;
            && p !in live
            && if user then Consistent(kbits, Filled(ubits, idx, cnt, true), l, live[p := cnt])
               else Consistent(Filled(kbits, idx, cnt, true), ubits, l, live[p := cnt])
  {
    hide Disjoint;
    hide FirstFit;
    var bits, s := if user then ubits else kbits, if user then l.user else l.kernel;
    var obits, o := if user then kbits else ubits, if user then l.kernel else l.user;
    var p := s.base + idx;
    FirstFitLeast(bits, 0, cnt, false);
    AllocateExact(bits, s, live, idx, cnt);
    FreshGroupDisjoint(bits, s, live, idx, cnt);
    OtherPoolExact(obits, o, live, live[p := cnt], p);
  }

  /** So does taking a group back. */
  lemma ReleaseConsistent(kbits: seq<bool>, ubits: seq<bool>, l: Layout, live: Groups, user: bool, idx: nat, cnt: nat)
    requires Consistent(kbits, ubits, l, live)
    requires idx + cnt <= |if user then ubits else kbits|
    requires var p := (if user then l.user else l.kernel).base + idx; p in live && live[p] == cnt
    ensures var p := (if user then l.user else l.kernel).base + idx;
            if user then Consistent(kbits, Filled(ubits, idx, cnt, false), l, live - {p})
            else Consistent(Filled(kbits, idx, cnt, false), ubits, l, live - {p})
  {
    var bits, s := if user then ubits else kbits, if user then l.user else l.kernel;
    var obits, o := if user then kbits else ubits, if user then l.kernel else l.user;
    var p := s.base + idx;
    ReleaseExact(bits, s, live, idx, cnt);
    OtherPoolExact(obits, o, live, live - {p}, p);
  }

  // ----- the allocator

  class PageAllocator {
    const layout: Layout
    const kernelMap: Bitmap
    const userMap: Bitmap
    ghost var live: Groups

    ghost predicate Valid()
      reads this, kernelMap.bits, userMap.bits
    {
      && kernelMap.bits != userMap.bits
      && kernelMap.Valid() && userMap.Valid()
      && Consistent(kernelMap.Value(), userMap.Value(), layout, live)
    }

    constructor (l: Layout, k: Bitmap, u: Bitmap)
      requires SoundLayout(l) && k.bits != u.bits && k.Valid() && u.Valid()
      requires k.Value() == seq(l.kernel.size, _ => false) && u.Value() == seq(l.user.size, _ => false)
      ensures Valid() && live == map[] && layout == l && kernelMap == k && userMap == u
    {
      layout, kernelMap, userMap, live := l, k, u, map[];
    }

    ghost function PoolBits(user: bool): seq<bool>
      requires kernelMap.Valid() && userMap.Valid()
      reads kernelMap.bits, userMap.bits
    {
      if user then userMap.Value() else kernelMap.Value()
    }

    function PoolShape(user: bool): Shape {
      if user then layout.user else layout.kernel
    }

    /** The result of a request: the lowest stretch of free pages, or None when
        there is no stretch long enough; the groups grow by exactly that. */
    static ghost predicate Granted(bits: seq<bool>, s: Shape, cnt: nat, was: Groups, pages: Option<nat>, live: Groups) {
      var fit := FirstFit(bits, 0, cnt, false);
      if cnt == 0 || fit.None? then pages.None? && live == was
      else
        && pages == Some(s.base + fit.value)
        && s.base + fit.value !in was && live == was[s.base + fit.value := cnt]
    }

    /** palloc_get_multiple */
    method GetMultiple(user: bool, pageCnt: nat) returns (pages: Option<nat>)
      requires Valid()
      modifies this, kernelMap.bits, userMap.bits
      ensures Valid()
      ensures Granted(old(PoolBits(user)), PoolShape(user), pageCnt, old(live), pages, live)
    {
      hide Consistent;
      hide FirstFit;
      hide Filled;
      hide Unpacked;
      hide AllWords;
      hide SoundLayout;
      if pageCnt == 0 {
        return None;
      }
      ghost var kbits, ubits := kernelMap.Value(), userMap.Value();
      var pool := if user then userMap else kernelMap;
      var idx := pool.ScanAndFlip(0, pageCnt, false);
      if idx.None? {
        return None;
      }
      AllocateConsistent(kbits, ubits, layout, live, user, idx.value, pageCnt);
      pages := Some(PoolShape(user).base + idx.value);
      live := live[pages.value := pageCnt];
    }

    /** page_from_pool */
    predicate PageFromPool(s: Shape, page: nat) {
      s.Owns(page)
    }

    /** palloc_free_multiple of a group that was handed out; None is a null
        pointer.  The pool test picks the pool the group came from. */
    method FreeMultiple(pages: Option<nat>, pageCnt: nat)
      requires Valid()
      requires pages.Some? && pageCnt > 0 ==> pages.value in live && live[pages.value] == pageCnt
      modifies this, kernelMap.bits, userMap.bits
      ensures Valid()
      ensures live == if pages.Some? && pageCnt > 0 then old(live) - {pages.value} else old(live)
    {
      if pages.None? || pageCnt == 0 {
        return;
      }
      var p := pages.value;
      ghost var kbits, ubits := kernelMap.Value(), userMap.Value();
      GroupsAreSeparate(kbits, ubits, layout, live, p, p, p);
      if PageFromPool(layout.kernel, p) {
        var idx := p - layout.kernel.base;
        ReleaseConsistent(kbits, ubits, layout, live, false, idx, pageCnt);
        kernelMap.SetMultiple(idx, pageCnt, false);
      } else {
        assert PageFromPool(layout.user, p);
        var idx := p - layout.user.base;
        ReleaseConsistent(kbits, ubits, layout, live, true, idx, pageCnt);
        userMap.SetMultiple(idx, pageCnt, false);
      }
      live := live - {p};
    }
  }
}
