/** The block allocator (src/threads/malloc.c): size classes of blocks carved out
    of pages called arenas, and whole page groups for big requests.

    Addresses are byte addresses; page a starts at a * PGSIZE. */
module Malloc {
  import opened Arithmetic
  import opened Bits
  import opened Bitmaps
  import opened Common
  import Ordering
  import opened Palloc

  const SIZEOF_ARENA := 12              // magic, desc, free_cnt
  const DESC_CNT := 7                   // 16, 32, ..., 1024
  const SIZE_MAX1 := 0x1_0000_0000      // size_t wraps here

  /** struct arena: desc is None for a big block, whose page count is freeCnt. */
  datatype Arena = Arena(desc: Option<nat>, freeCnt: nat)

  /** The first size class from d on that holds size bytes, DESC_CNT if none does. */
  function DescFrom(size: nat, d: nat): nat
    requires d <= DESC_CNT
    decreases DESC_CNT - d
  {
    if d == DESC_CNT || size <= BlockSize(d) then d else DescFrom(size, d + 1)
  }

  function BlockSize(d: nat): nat
    requires d < DESC_CNT
  {
    if d == 0 then 16 else if d == 1 then 32 else if d == 2 then 64 else if d == 3 then 128
    else if d == 4 then 256 else if d == 5 then 512 else 1024
  }

  function BlocksPerArena(d: nat): (n: nat)
    requires d < DESC_CNT
    ensures 3 <= n && n * BlockSize(d) <= PGSIZE - SIZEOF_ARENA
  {
    (PGSIZE - SIZEOF_ARENA) / BlockSize(d)
  }

  /** arena_to_block */
  function ArenaToBlock(a: nat, d: nat, i: nat): nat
    requires d < DESC_CNT && i < BlocksPerArena(d)
  {
    a * PGSIZE + SIZEOF_ARENA + i * BlockSize(d)
  }

  /** block_to_arena: round down to the page. */
  function BlockToArena(b: nat): nat { b / PGSIZE }

  /** The alignment that block_to_arena asserts, plus being inside the arena. */
  predicate IsBlockAddr(b: nat, d: nat)
    requires d < DESC_CNT
  {
    var ofs := b % PGSIZE;
    && SIZEOF_ARENA <= ofs
    && (ofs - SIZEOF_ARENA) % BlockSize(d) == 0
    && (ofs - SIZEOF_ARENA) / BlockSize(d) < BlocksPerArena(d)
  }

  function BlockIdx(b: nat, d: nat): nat
    requires d < DESC_CNT && IsBlockAddr(b, d)
  {
    (b % PGSIZE - SIZEOF_ARENA) / BlockSize(d)
  }

  lemma InBounds(d: nat, i: nat)
    requires d < DESC_CNT && i < BlocksPerArena(d)
    ensures i * BlockSize(d) + BlockSize(d) <= PGSIZE - SIZEOF_ARENA
  {
    var s, n := BlockSize(d), BlocksPerArena(d);
    assert (i + 1) * s <= n * s;
  }

  lemma MultipleOf(i: nat, s: nat)
    requires s > 0
    ensures i * s % s == 0 && i * s / s == i
  {
    DivUnique(i * s, s, i);
    RemainderUnique(i * s, s, i, 0);
  }

  /** The two address conversions undo each other. */
  lemma BlockRoundTrip(a: nat, d: nat, i: nat)
    requires d < DESC_CNT && i < BlocksPerArena(d)
    ensures var b := ArenaToBlock(a, d, i);
            BlockToArena(b) == a && IsBlockAddr(b, d) && BlockIdx(b, d) == i
  {
    InBounds(d, i);
    MultipleOf(i, BlockSize(d));
    var x := SIZEOF_ARENA + i * BlockSize(d);
    assert (a * PGSIZE + x) / PGSIZE == a && (a * PGSIZE + x) % PGSIZE == x;
  }

  lemma AddressRoundTrip(b: nat, d: nat)
    requires d < DESC_CNT && IsBlockAddr(b, d)
    ensures ArenaToBlock(BlockToArena(b), d, BlockIdx(b, d)) == b
  {
  }

  // ----- free lists

  /** s without the addresses in [lo, hi), in order. */
  function FilterOut(s: seq<nat>, lo: nat, hi: nat): (r: seq<nat>)
    ensures forall x :: x in r <==> x in s && !(lo <= x < hi)
  {
    if s == [] then []
    else
      var rest := FilterOut(s[1..], lo, hi);
      assert forall x :: x in s <==> x == s[0] || x in s[1..];
      if lo <= s[0] < hi then rest else [s[0]] + rest
  }

  lemma {:induction false} FilterOutNoDup(s: seq<nat>, lo: nat, hi: nat)
    requires Ordering.NoDup(s)
    ensures Ordering.NoDup(FilterOut(s, lo, hi))
  {
    if s != [] {
      FilterOutNoDup(s[1..], lo, hi);
      assert s[0] !in s[1..];
      var rest := FilterOut(s[1..], lo, hi);
      assert s[0] !in rest;
      assert Ordering.NoDup([s[0]] + rest);
    }
  }

  /** Two filters in a row, when nothing lies in the gap they leave out. */
  lemma {:induction false} FilterOutMore(s: seq<nat>, lo: nat, mid: nat, hi: nat)
    requires lo <= mid < hi
    requires forall x :: x in s && mid < x ==> hi <= x
    ensures FilterOut(FilterOut(s, lo, mid), mid, mid + 1) == FilterOut(s, lo, hi)
  {
    if s != [] {
      assert forall x :: x in s[1..] ==> x in s;
      FilterOutMore(s[1..], lo, mid, hi);
      var t := FilterOut(s, lo, mid);
      if !(lo <= s[0] < mid) {
        assert t[0] == s[0] && t[1..] == FilterOut(s[1..], lo, mid);
        assert s[0] in s;
      }
    }
  }

  /** Free blocks that lie in arena a. */
  ghost function FreeIn(s: seq<nat>, a: nat): set<nat> {
    set b | b in s && BlockToArena(b) == a
  }

  /** All blocks of an arena. */
  ghost function AllBlocks(a: nat, d: nat): set<nat>
    requires d < DESC_CNT
  {
    FirstBlocks(a, d, BlocksPerArena(d))
  }

  ghost function FirstBlocks(a: nat, d: nat, n: nat): set<nat>
    requires d < DESC_CNT && n <= BlocksPerArena(d)
  {
    set i | 0 <= i < n :: ArenaToBlock(a, d, i)
  }

  lemma {:induction false} FirstBlocksCount(a: nat, d: nat, n: nat)
    requires d < DESC_CNT && n <= BlocksPerArena(d)
    ensures |FirstBlocks(a, d, n)| == n
  {
    if n > 0 {
      FirstBlocksCount(a, d, n - 1);
      var b := ArenaToBlock(a, d, n - 1);
      assert FirstBlocks(a, d, n) == FirstBlocks(a, d, n - 1) + {b};
      BlockRoundTrip(a, d, n - 1);
      forall i | 0 <= i < n - 1 ensures ArenaToBlock(a, d, i) != b {
        BlockRoundTrip(a, d, i);
      }
    }
  }

  lemma AllBlocksMember(a: nat, d: nat, b: nat)
    requires d < DESC_CNT
    ensures b in AllBlocks(a, d) <==> BlockToArena(b) == a && IsBlockAddr(b, d)
  {
    if b in AllBlocks(a, d) {
      var i :| 0 <= i < BlocksPerArena(d) && ArenaToBlock(a, d, i) == b;
      BlockRoundTrip(a, d, i);
    }
    if BlockToArena(b) == a && IsBlockAddr(b, d) {
      AddressRoundTrip(b, d);
    }
  }

  // ----- the invariant

  type Arenas = map<nat, Arena>

  ghost predicate IsSmall(arenas: Arenas, a: nat, d: nat) {
    a in arenas && arenas[a].desc == Some(d)
  }

  /** b is the address of a block of some arena. */
  ghost predicate IsBlock(arenas: Arenas, b: nat) {
    var a := BlockToArena(b);
    && a in arenas
    && match arenas[a].desc
       case None => b % PGSIZE == SIZEOF_ARENA
       case Some(d) => d < DESC_CNT && IsBlockAddr(b, d)
  }

  ghost predicate IsFree(arenas: Arenas, free: seq<seq<nat>>, b: nat) {
    var a := BlockToArena(b);
    a in arenas && arenas[a].desc.Some? && arenas[a].desc.value < |free| && b in free[arenas[a].desc.value]
  }

  /** Arenas are page groups of the page allocator: one page for small blocks. */
  ghost predicate ArenasOk(arenas: Arenas, groups: Groups) {
    forall a :: a in arenas ==>
      && a in groups
      && match arenas[a].desc
         case None => 0 < groups[a] == arenas[a].freeCnt
         case Some(d) => d < DESC_CNT && groups[a] == 1
  }

  /** The free lists hold blocks of their own size class, each once. */
  ghost predicate ListsOk(arenas: Arenas, free: seq<seq<nat>>) {
    && |free| == DESC_CNT
    && (forall d :: 0 <= d < |free| ==> Ordering.NoDup(free[d]))
    && (forall d, b :: 0 <= d < |free| && b in free[d] ==> IsSmall(arenas, BlockToArena(b), d) && IsBlockAddr(b, d))
  }

  /** free_cnt counts the arena's blocks on the free list.  Between calls it is
      below the number of blocks, except in arena `slack` during a call. */
  ghost predicate CountsOk(arenas: Arenas, free: seq<seq<nat>>, slack: Option<nat>)
    requires |free| == DESC_CNT
  {
    forall a: nat, d: nat :: IsSmall(arenas, a, d) && d < DESC_CNT ==>
      && arenas[a].freeCnt == |FreeIn(free[d], a)| <= BlocksPerArena(d)
      && (slack != Some(a) ==> arenas[a].freeCnt < BlocksPerArena(d))
  }

  /** Every block is free or live, and not both. */
  ghost predicate LiveOk(arenas: Arenas, free: seq<seq<nat>>, live: set<nat>) {
    forall b: nat :: b in live <==> IsBlock(arenas, b) && !IsFree(arenas, free, b)
  }

  ghost predicate Inv(arenas: Arenas, free: seq<seq<nat>>, groups: Groups, live: set<nat>, slack: Option<nat>) {
    && ArenasOk(arenas, groups)
    && ListsOk(arenas, free)
    && CountsOk(arenas, free, slack)
    && LiveOk(arenas, free, live)
  }

  // ----- what each step does to the invariant

  /** The free list of a new arena. */
  function NewList(a: nat, d: nat, n: nat): (s: seq<nat>)
    requires d < DESC_CNT && n <= BlocksPerArena(d)
    ensures |s| == n && forall i :: 0 <= i < n ==> s[i] == ArenaToBlock(a, d, i)
  {
    if n == 0 then [] else NewList(a, d, n - 1) + [ArenaToBlock(a, d, n - 1)]
  }

  lemma NewListFacts(a: nat, d: nat)
    requires d < DESC_CNT
    ensures var s := NewList(a, d, BlocksPerArena(d));
            && Ordering.NoDup(s)
            && (forall b :: b in s <==> BlockToArena(b) == a && IsBlockAddr(b, d))
            && FreeIn(s, a) == AllBlocks(a, d)
  {
    var n := BlocksPerArena(d);
    var s := NewList(a, d, n);
    forall i, j | 0 <= i < j < n ensures s[i] != s[j] {
      BlockRoundTrip(a, d, i);
      BlockRoundTrip(a, d, j);
    }
    forall b ensures b in s <==> BlockToArena(b) == a && IsBlockAddr(b, d) {
      AllBlocksMember(a, d, b);
      if b in s {
        var i :| 0 <= i < n && s[i] == b;
        assert b in AllBlocks(a, d);
      }
      if b in AllBlocks(a, d) {
        var i :| 0 <= i < n && ArenaToBlock(a, d, i) == b;
        assert s[i] == b;
      }
    }
    forall b ensures b in FreeIn(s, a) <==> b in AllBlocks(a, d) {
      AllBlocksMember(a, d, b);
    }
  }

  lemma NewArena(arenas: Arenas, free: seq<seq<nat>>, groups: Groups, live: set<nat>, a: nat, d: nat)
    requires Inv(arenas, free, groups, live, None)
    requires d < DESC_CNT && free[d] == [] && a !in groups
    ensures a !in arenas && |free| == DESC_CNT
    ensures Inv(arenas[a := Arena(Some(d), BlocksPerArena(d))], free[d := NewList(a, d, BlocksPerArena(d))],
                groups[a := 1], live, Some(a))
  {
    hide IsBlockAddr;
    hide BlockToArena;
    hide BlocksPerArena;
    var n := BlocksPerArena(d);
    var arenas', free' := arenas[a := Arena(Some(d), n)], free[d := NewList(a, d, n)];
    NewListFacts(a, d);
    FirstBlocksCount(a, d, n);
    assert a !in arenas;
    assert CountsOk(arenas', free', Some(a)) by {
      forall x: nat, e: nat | IsSmall(arenas', x, e) && e < DESC_CNT
        ensures arenas'[x].freeCnt == |FreeIn(free'[e], x)| <= BlocksPerArena(e)
             && (Some(a) != Some(x) ==> arenas'[x].freeCnt < BlocksPerArena(e))
      {
        if x != a {
          assert IsSmall(arenas, x, e);
          assert FreeIn(free'[e], x) == FreeIn(free[e], x);
        }
      }
    }
    NewArenaLive(arenas, free, live, a, d, NewList(a, d, n));
    ListReplaced(arenas, free, arenas', d, NewList(a, d, n));
  }

  lemma NewArenaLive(arenas: Arenas, free: seq<seq<nat>>, live: set<nat>, a: nat, d: nat, list: seq<nat>)
    requires |free| == DESC_CNT && d < DESC_CNT && LiveOk(arenas, free, live)
    requires a !in arenas && free[d] == []
    requires forall b :: b in list <==> BlockToArena(b) == a && IsBlockAddr(b, d)
    ensures LiveOk(arenas[a := Arena(Some(d), BlocksPerArena(d))], free[d := list], live)
  {
    var arenas', free' := arenas[a := Arena(Some(d), BlocksPerArena(d))], free[d := list];
    forall b: nat ensures b in live <==> IsBlock(arenas', b) && !IsFree(arenas', free', b) {
      assert b in live <==> IsBlock(arenas, b) && !IsFree(arenas, free, b);
      if BlockToArena(b) != a {
        assert IsBlock(arenas', b) <==> IsBlock(arenas, b);
        assert IsFree(arenas', free', b) <==> IsFree(arenas, free, b);
      }
    }
  }

  /** The front block of a free list. */
  lemma FrontBlock(arenas: Arenas, free: seq<seq<nat>>, groups: Groups, live: set<nat>, slack: Option<nat>, d: nat,
                   b: nat)
    requires Inv(arenas, free, groups, live, slack) && d < DESC_CNT && free[d] != [] && b == free[d][0]
    ensures var a := BlockToArena(b);
            && IsSmall(arenas, a, d) && IsBlockAddr(b, d) && b !in live && 0 < arenas[a].freeCnt
            && arenas[a].freeCnt == |FreeIn(free[d][1..], a)| + 1 <= BlocksPerArena(d)
    ensures Ordering.NoDup(free[d][1..]) && forall x :: x in free[d] <==> x == b || x in free[d][1..]
    ensures b !in free[d][1..]
    ensures forall x :: x in free[d][1..] ==> IsSmall(arenas, BlockToArena(x), d) && IsBlockAddr(x, d)
  {
    hide CountsOk;
    hide LiveOk;
    hide IsBlockAddr;
    hide BlockToArena;
    hide BlocksPerArena;
    var a, rest := BlockToArena(b), free[d][1..];
    HeadAndRest(free[d]);
    CountOf(arenas, free, slack, a, d);
    FreeInMore(rest, b, free[d], a);
    NotLive(arenas, free, live, b, d);
  }

  lemma HeadAndRest(s: seq<nat>)
    requires Ordering.NoDup(s) && s != []
    ensures Ordering.NoDup(s[1..]) && s[0] !in s[1..] && forall x :: x in s <==> x == s[0] || x in s[1..]
  {
    forall x | x in s ensures x == s[0] || x in s[1..] {
      var i :| 0 <= i < |s| && s[i] == x;
      if i > 0 { assert s[1..][i - 1] == x; }
    }
  }

  lemma CountOf(arenas: Arenas, free: seq<seq<nat>>, slack: Option<nat>, a: nat, d: nat)
    requires |free| == DESC_CNT && CountsOk(arenas, free, slack) && IsSmall(arenas, a, d) && d < DESC_CNT
    ensures arenas[a].freeCnt == |FreeIn(free[d], a)| <= BlocksPerArena(d)
    ensures slack != Some(a) ==> arenas[a].freeCnt < BlocksPerArena(d)
  {
  }

  /** One more block of the arena on the list. */
  lemma FreeInMore(s: seq<nat>, b: nat, s': seq<nat>, a: nat)
    requires b !in s && BlockToArena(b) == a && forall x :: x in s' <==> x == b || x in s
    ensures |FreeIn(s', a)| == |FreeIn(s, a)| + 1
  {
    hide BlockToArena;
    assert FreeIn(s', a) == FreeIn(s, a) + {b};
  }

  lemma NotLive(arenas: Arenas, free: seq<seq<nat>>, live: set<nat>, b: nat, d: nat)
    requires LiveOk(arenas, free, live) && d < |free| && b in free[d] && IsSmall(arenas, BlockToArena(b), d)
    ensures b !in live
  {
    assert IsFree(arenas, free, b);
  }

  /** Taking the front block off free list d. */
  lemma PopBlock(arenas: Arenas, free: seq<seq<nat>>, groups: Groups, live: set<nat>, slack: Option<nat>, d: nat,
                 b: nat, arenas': Arenas)
    requires Inv(arenas, free, groups, live, slack) && d < DESC_CNT && free[d] != [] && b == free[d][0]
    requires slack.Some? ==> BlockToArena(b) == slack.value
    requires var a := BlockToArena(b);
             && a in arenas && 0 < arenas[a].freeCnt
             && arenas' == arenas[a := arenas[a].(freeCnt := arenas[a].freeCnt - 1)]
    ensures b !in live && Inv(arenas', free[d := free[d][1..]], groups, live + {b}, None)
  {
    FrontBlock(arenas, free, groups, live, slack, d, b);
    var free' := free[d := free[d][1..]];
    hide IsBlockAddr;
    hide BlockToArena;
    hide ListsOk;
    hide CountsOk;
    hide LiveOk;
    CountsElsewhere(arenas, free, arenas', free', slack, None, BlockToArena(b), d);
    LiveShift(arenas, free, arenas', free', live, live + {b}, b, d);
    ListReplaced(arenas, free, arenas', d, free[d][1..]);
  }

  /** Replacing list d by another list of blocks of class d. */
  lemma ListReplaced(arenas: Arenas, free: seq<seq<nat>>, arenas': Arenas, d: nat, list: seq<nat>)
    requires ListsOk(arenas, free) && d < DESC_CNT && Ordering.NoDup(list)
    requires forall b :: b in list ==> IsSmall(arenas', BlockToArena(b), d) && IsBlockAddr(b, d)
    requires forall a, e :: IsSmall(arenas, a, e) && e != d ==> IsSmall(arenas', a, e)
    ensures ListsOk(arenas', free[d := list])
  {
  }

  /** Counts of the arenas other than a are not affected by list d changing only in
      blocks of a. */
  lemma CountsElsewhere(arenas: Arenas, free: seq<seq<nat>>, arenas': Arenas, free': seq<seq<nat>>,
                        slack: Option<nat>, slack': Option<nat>, a: nat, d: nat)
    requires |free| == |free'| == DESC_CNT && d < DESC_CNT && CountsOk(arenas, free, slack)
    requires IsSmall(arenas, a, d) && IsSmall(arenas', a, d) && arenas' - {a} == arenas - {a}
    requires forall e :: 0 <= e < DESC_CNT && e != d ==> free'[e] == free[e]
    requires forall b :: BlockToArena(b) != a ==> (b in free'[d] <==> b in free[d])
    requires arenas'[a].freeCnt == |FreeIn(free'[d], a)| <= BlocksPerArena(d)
    requires slack' != Some(a) ==> arenas'[a].freeCnt < BlocksPerArena(d)
    requires slack.Some? ==> slack == Some(a)
    ensures CountsOk(arenas', free', slack')
  {
    forall x: nat, e: nat | IsSmall(arenas', x, e) && e < DESC_CNT
      ensures arenas'[x].freeCnt == |FreeIn(free'[e], x)| <= BlocksPerArena(e)
           && (slack' != Some(x) ==> arenas'[x].freeCnt < BlocksPerArena(e))
    {
      if x != a {
        assert x in arenas' - {a};
        assert x in arenas - {a} && arenas[x] == arenas'[x];
        assert IsSmall(arenas, x, e);
        assert FreeIn(free'[e], x) == FreeIn(free[e], x);
      }
    }
  }

  /** One block b of list d changes from free to live or back. */
  lemma LiveShift(arenas: Arenas, free: seq<seq<nat>>, arenas': Arenas, free': seq<seq<nat>>,
                  live: set<nat>, live': set<nat>, b: nat, d: nat)
    requires |free| == |free'| == DESC_CNT && d < DESC_CNT && LiveOk(arenas, free, live)
    requires IsSmall(arenas, BlockToArena(b), d) && IsBlockAddr(b, d)
    requires arenas'.Keys == arenas.Keys && forall x :: x in arenas ==> arenas'[x].desc == arenas[x].desc
    requires forall e :: 0 <= e < DESC_CNT && e != d ==> free'[e] == free[e]
    requires forall x :: x != b ==> (x in free'[d] <==> x in free[d])
    requires forall x :: x != b ==> (x in live' <==> x in live)
    requires b in live' <==> b !in free'[d]
    ensures LiveOk(arenas', free', live')
  {
    forall x: nat ensures x in live' <==> IsBlock(arenas', x) && !IsFree(arenas', free', x) {
      assert IsBlock(arenas', x) <==> IsBlock(arenas, x);
      if x != b {
        assert x in live <==> IsBlock(arenas, x) && !IsFree(arenas, free, x);
        assert IsFree(arenas', free', x) <==> IsFree(arenas, free, x);
      }
    }
  }

  /** Putting a live small block back on its list. */
  lemma PushBlock(arenas: Arenas, free: seq<seq<nat>>, groups: Groups, live: set<nat>, b: nat, d: nat)
    requires Inv(arenas, free, groups, live, None) && b in live && IsSmall(arenas, BlockToArena(b), d)
    ensures d < DESC_CNT
    ensures var a := BlockToArena(b);
            && b !in free[d]
            && Inv(arenas[a := arenas[a].(freeCnt := arenas[a].freeCnt + 1)], free[d := [b] + free[d]], groups,
                   live - {b}, Some(a))
  {
    hide IsBlockAddr;
    hide BlockToArena;
    hide BlocksPerArena;
    hide ListsOk;
    hide CountsOk;
    hide LiveOk;
    var a := BlockToArena(b);
    PushFacts(arenas, free, live, b, d);
    var free' := free[d := [b] + free[d]];
    var arenas' := arenas[a := arenas[a].(freeCnt := arenas[a].freeCnt + 1)];
    CountOf(arenas, free, None, a, d);
    FreeInMore(free[d], b, free'[d], a);
    CountsElsewhere(arenas, free, arenas', free', None, Some(a), a, d);
    LiveShift(arenas, free, arenas', free', live, live - {b}, b, d);
    ListReplaced(arenas, free, arenas', d, [b] + free[d]);
  }

  lemma PushFacts(arenas: Arenas, free: seq<seq<nat>>, live: set<nat>, b: nat, d: nat)
    requires ListsOk(arenas, free) && LiveOk(arenas, free, live) && b in live && IsSmall(arenas, BlockToArena(b), d)
    ensures d < DESC_CNT == |free| && IsBlockAddr(b, d) && b !in free[d] && Ordering.NoDup([b] + free[d])
    ensures forall x :: x in [b] + free[d] <==> x == b || x in free[d]
    ensures forall x :: x in [b] + free[d] ==> IsSmall(arenas, BlockToArena(x), d) && IsBlockAddr(x, d)
  {
    hide IsBlockAddr;
    hide BlockToArena;
    assert IsBlock(arenas, b) && !IsFree(arenas, free, b);
  }

  lemma SubsetOfSameSize(s: set<nat>, t: set<nat>)
    requires s <= t && |s| == |t|
    ensures s == t
  {
    if s != t {
      assert !(t <= s);
      var x :| x in t && x !in s;
      assert |t| == |t - {x}| + 1;
      SubsetSize(s, t - {x});
    }
  }

  lemma SubsetSize(s: set<nat>, t: set<nat>)
    requires s <= t
    ensures |s| <= |t|
  {
    if s != {} {
      var x :| x in s;
      SubsetSize(s - {x}, t - {x});
    }
  }

  /** The arena is entirely unused just when free_cnt has reached the block
      count. */
  lemma AllFree(arenas: Arenas, free: seq<seq<nat>>, groups: Groups, live: set<nat>, slack: Option<nat>, a: nat, d: nat)
    requires Inv(arenas, free, groups, live, slack) && IsSmall(arenas, a, d) && d < DESC_CNT
    ensures arenas[a].freeCnt == BlocksPerArena(d) <==> (forall b: nat :: b in live ==> BlockToArena(b) != a)
    ensures arenas[a].freeCnt == BlocksPerArena(d) ==>
              forall b: nat :: BlockToArena(b) == a && IsBlockAddr(b, d) ==> b in free[d]
  {
    var f, all := FreeIn(free[d], a), AllBlocks(a, d);
    FirstBlocksCount(a, d, BlocksPerArena(d));
    forall b ensures b in f ==> b in all {
      AllBlocksMember(a, d, b);
    }
    if arenas[a].freeCnt == BlocksPerArena(d) {
      SubsetOfSameSize(f, all);
      forall b: nat | BlockToArena(b) == a && IsBlockAddr(b, d) ensures b in free[d] {
        AllBlocksMember(a, d, b);
      }
    } else {
      assert f != all;
      assert !(all <= f);
      var b :| b in all && b !in f;
      AllBlocksMember(a, d, b);
      assert IsBlock(arenas, b) && !IsFree(arenas, free, b);
    }
  }

  /** Giving an entirely unused arena back. */
  lemma DropArena(arenas: Arenas, free: seq<seq<nat>>, groups: Groups, live: set<nat>, a: nat, d: nat, list: seq<nat>)
    requires Inv(arenas, free, groups, live, Some(a)) && IsSmall(arenas, a, d) && d < DESC_CNT
    requires arenas[a].freeCnt == BlocksPerArena(d)
    requires Ordering.NoDup(list) && forall b :: b in list <==> b in free[d] && BlockToArena(b) != a
    ensures Inv(arenas - {a}, free[d := list], groups - {a}, live, None)
  {
    hide ListsOk;
    hide CountsOk;
    hide LiveOk;
    AllFree(arenas, free, groups, live, Some(a), a, d);
    ListsNumber(arenas, free);
    DropLists(arenas, free, a, d, list);
    DropCounts(arenas, free, a, d, list);
    DropLive(arenas, free, live, a, d, list);
  }

  lemma ListsNumber(arenas: Arenas, free: seq<seq<nat>>)
    requires ListsOk(arenas, free)
    ensures |free| == DESC_CNT
  {
  }

  lemma DropLists(arenas: Arenas, free: seq<seq<nat>>, a: nat, d: nat, list: seq<nat>)
    requires ListsOk(arenas, free) && IsSmall(arenas, a, d) && d < DESC_CNT && Ordering.NoDup(list)
    requires forall b :: b in list <==> b in free[d] && BlockToArena(b) != a
    ensures ListsOk(arenas - {a}, free[d := list])
  {
    hide IsBlockAddr;
    hide BlockToArena;
  }

  lemma DropCounts(arenas: Arenas, free: seq<seq<nat>>, a: nat, d: nat, list: seq<nat>)
    requires |free| == DESC_CNT && CountsOk(arenas, free, Some(a)) && d < DESC_CNT
    requires forall b :: b in list <==> b in free[d] && BlockToArena(b) != a
    ensures CountsOk(arenas - {a}, free[d := list], None)
  {
    hide BlockToArena;
    hide BlocksPerArena;
    var arenas', free' := arenas - {a}, free[d := list];
    forall x: nat, e: nat | IsSmall(arenas', x, e) && e < DESC_CNT
      ensures arenas'[x].freeCnt == |FreeIn(free'[e], x)| < BlocksPerArena(e)
    {
      assert IsSmall(arenas, x, e);
      assert FreeIn(free'[e], x) == FreeIn(free[e], x);
    }
  }

  lemma DropLive(arenas: Arenas, free: seq<seq<nat>>, live: set<nat>, a: nat, d: nat, list: seq<nat>)
    requires LiveOk(arenas, free, live) && d < |free| && IsSmall(arenas, a, d)
    requires forall b: nat :: b in live ==> BlockToArena(b) != a
    requires forall b :: b in list <==> b in free[d] && BlockToArena(b) != a
    ensures LiveOk(arenas - {a}, free[d := list], live)
  {
    hide IsBlockAddr;
    hide BlockToArena;
    var arenas', free' := arenas - {a}, free[d := list];
    forall b: nat ensures b in live <==> IsBlock(arenas', b) && !IsFree(arenas', free', b) {
      if BlockToArena(b) != a {
        assert IsBlock(arenas', b) <==> IsBlock(arenas, b);
        assert IsFree(arenas', free', b) <==> IsFree(arenas, free, b);
      }
    }
  }

  /** A big block comes and goes with its own page group. */
  lemma BigArena(arenas: Arenas, free: seq<seq<nat>>, groups: Groups, live: set<nat>, a: nat, n: nat)
    requires Inv(arenas, free, groups, live, None) && a !in groups && 0 < n
    ensures a !in arenas
    ensures var b := a * PGSIZE + SIZEOF_ARENA;
            && b !in live && Inv(arenas[a := Arena(None, n)], free, groups[a := n], live + {b}, None)
            && BlockToArena(b) == a && Usable(arenas[a := Arena(None, n)], b) == PGSIZE * n - SIZEOF_ARENA
  {
    var b := a * PGSIZE + SIZEOF_ARENA;
    var arenas' := arenas[a := Arena(None, n)];
    assert BlockToArena(b) == a && b % PGSIZE == SIZEOF_ARENA;
    forall x: nat, e: nat | IsSmall(arenas', x, e) && e < DESC_CNT
      ensures arenas'[x].freeCnt == |FreeIn(free[e], x)| < BlocksPerArena(e)
    {
      assert IsSmall(arenas, x, e);
    }
    forall x: nat ensures x in live + {b} <==> IsBlock(arenas', x) && !IsFree(arenas', free, x) {
      if BlockToArena(x) != a {
        assert IsBlock(arenas', x) <==> IsBlock(arenas, x);
        assert IsFree(arenas', free, x) <==> IsFree(arenas, free, x);
      } else {
        assert !IsBlock(arenas, x);
      }
    }
  }

  lemma DropBig(arenas: Arenas, free: seq<seq<nat>>, groups: Groups, live: set<nat>, b: nat)
    requires Inv(arenas, free, groups, live, None) && b in live
    requires arenas[BlockToArena(b)].desc.None?
    ensures Inv(arenas - {BlockToArena(b)}, free, groups - {BlockToArena(b)}, live - {b}, None)
  {
    var a := BlockToArena(b);
    var arenas' := arenas - {a};
    assert IsBlock(arenas, b);
    forall x: nat, e: nat | IsSmall(arenas', x, e) && e < DESC_CNT
      ensures arenas'[x].freeCnt == |FreeIn(free[e], x)| < BlocksPerArena(e)
    {
      assert IsSmall(arenas, x, e);
    }
    forall x: nat ensures x in live - {b} <==> IsBlock(arenas', x) && !IsFree(arenas', free, x) {
      if BlockToArena(x) != a {
        assert IsBlock(arenas', x) <==> IsBlock(arenas, x);
        assert IsFree(arenas', free, x) <==> IsFree(arenas, free, x);
      } else if IsBlock(arenas, x) {
        assert x == b;
      }
    }
  }

  // ----- sizes and separation

  /** block_size: bytes usable in block b. */
  function Usable(arenas: Arenas, b: nat): nat
    requires BlockToArena(b) in arenas
  {
    var a := arenas[BlockToArena(b)];
    match a.desc
    case Some(d) => if d < DESC_CNT then BlockSize(d) else 0
    case None => if b % PGSIZE <= PGSIZE * a.freeCnt then PGSIZE * a.freeCnt - b % PGSIZE else 0
  }

  /** A block lies in its own page group, clear of the arena header. */
  lemma BlockInGroup(arenas: Arenas, groups: Groups, b: nat)
    requires ArenasOk(arenas, groups) && IsBlock(arenas, b)
    ensures var a := BlockToArena(b);
            a * PGSIZE + SIZEOF_ARENA <= b && b + Usable(arenas, b) <= (a + groups[a]) * PGSIZE
  {
    var a := BlockToArena(b);
    if arenas[a].desc.Some? {
      var d := arenas[a].desc.value;
      AddressRoundTrip(b, d);
      InBounds(d, BlockIdx(b, d));
    }
  }

  lemma SameArena(b: nat, c: nat, d: nat)
    requires d < DESC_CNT && IsBlockAddr(b, d) && IsBlockAddr(c, d) && BlockToArena(b) == BlockToArena(c) && b < c
    ensures b + BlockSize(d) <= c
  {
    AddressRoundTrip(b, d);
    AddressRoundTrip(c, d);
    var i, j, s := BlockIdx(b, d), BlockIdx(c, d), BlockSize(d);
    CancelLt(i, j, s);
    MulMono(i + 1, j, s);
  }

  /** Live blocks do not overlap, and neither do any two blocks. */
  lemma BlocksSeparate(arenas: Arenas, groups: Groups, b: nat, c: nat)
    requires ArenasOk(arenas, groups) && Disjoint(groups)
    requires IsBlock(arenas, b) && IsBlock(arenas, c) && b < c
    ensures b + Usable(arenas, b) <= c
  {
    var p, q := BlockToArena(b), BlockToArena(c);
    BlockInGroup(arenas, groups, b);
    BlockInGroup(arenas, groups, c);
    if p == q {
      if arenas[p].desc.Some? { SameArena(b, c, arenas[p].desc.value); }
    } else {
      assert p < q;
      assert p + groups[p] <= q;
    }
  }

  ghost predicate KeptSizes(arenas: Arenas, arenas': Arenas, live: set<nat>) {
    forall b :: b in live ==>
      && BlockToArena(b) in arenas && BlockToArena(b) in arenas'
      && Usable(arenas', b) == Usable(arenas, b)
  }

  lemma SizesKept(arenas: Arenas, free: seq<seq<nat>>, groups: Groups, live: set<nat>, slack: Option<nat>,
                  arenas': Arenas, live': set<nat>)
    requires Inv(arenas, free, groups, live, slack) && live' <= live
    requires forall b :: b in live' ==>
               var a := BlockToArena(b);
               a in arenas ==>
                 (a in arenas' && arenas'[a].desc == arenas[a].desc
                  && (arenas[a].desc.None? ==> arenas'[a] == arenas[a]))
    ensures KeptSizes(arenas, arenas', live')
  {
    forall b | b in live' ensures BlockToArena(b) in arenas {
      assert IsBlock(arenas, b);
    }
  }

  /** Pages for a big request.  Both additions of the source wrap at 2^32. */
  function BigPages(size: nat): nat {
    (size + SIZEOF_ARENA + PGSIZE - 1) % SIZE_MAX1 / PGSIZE
  }

  /** The source's rounding is right exactly as long as the header still fits in
      a size_t next to the request; page count 0 makes malloc() fail. */
  lemma BigPagesRight(size: nat)
    requires 0 < size < SIZE_MAX1
    ensures BigPages(size) == 0 || size + SIZEOF_ARENA <= PGSIZE * BigPages(size) <==> size <= SIZE_MAX1 - SIZEOF_ARENA
  {
  }

  /** The largest request is given a single page. */
  lemma BigPagesWrapped()
    ensures BigPages(SIZE_MAX1 - 1) == 1
  {
  }

  /** Where block i of an arena would start, also for i one past the end. */
  function Offset(a: nat, d: nat, i: nat): nat
    requires d < DESC_CNT
  {
    a * PGSIZE + SIZEOF_ARENA + i * BlockSize(d)
  }

  lemma OffsetNext(a: nat, d: nat, i: nat)
    requires d < DESC_CNT && i < BlocksPerArena(d)
    ensures var b := ArenaToBlock(a, d, i);
            Offset(a, d, i + 1) == b + BlockSize(d) <= (a + 1) * PGSIZE && Offset(a, d, i) == b && Offset(a, d, 0) <= b
  {
    hide BlockSize;
    hide BlocksPerArena;
    InBounds(d, i);
    MulNext(i, BlockSize(d));
    MulMono(0, i, BlockSize(d));
  }

  /** Unlinking block i after blocks 0 to i - 1 of arena a have been unlinked. */
  lemma UnlinkNext(s: seq<nat>, a: nat, d: nat, i: nat)
    requires d < DESC_CNT && i < BlocksPerArena(d)
    requires forall x :: x in s && BlockToArena(x) == a ==> IsBlockAddr(x, d)
    ensures var b := ArenaToBlock(a, d, i);
            FilterOut(FilterOut(s, Offset(a, d, 0), b), b, b + 1) == FilterOut(s, Offset(a, d, 0), Offset(a, d, i + 1))
  {
    hide IsBlockAddr;
    hide ArenaToBlock;
    hide Offset;
    hide BlocksPerArena;
    var b := ArenaToBlock(a, d, i);
    BlockRoundTrip(a, d, i);
    var hi := b + BlockSize(d);
    OffsetNext(a, d, i);
    forall x | x in s && b < x ensures hi <= x {
      if x < hi {
        assert BlockToArena(x) == a;
        SameArena(b, x, d);
      }
    }
    FilterOutMore(s, Offset(a, d, 0), b, hi);
  }

  /** After all of them only blocks of other arenas are left. */
  lemma UnlinkedAll(s: seq<nat>, a: nat, d: nat, x: nat)
    requires d < DESC_CNT
    requires x in s && BlockToArena(x) == a ==> IsBlockAddr(x, d)
    ensures x in FilterOut(s, Offset(a, d, 0), Offset(a, d, BlocksPerArena(d))) <==> x in s && BlockToArena(x) != a
  {
    var n := BlocksPerArena(d);
    if x in s && BlockToArena(x) == a {
      AddressRoundTrip(x, d);
      var i := BlockIdx(x, d);
      MulMono(0, i, BlockSize(d));
      MulMono(i + 1, n, BlockSize(d));
    }
  }

  // ----- memory contents

  type Memory = nat -> int

  function MemSet(m: Memory, a: nat, n: nat, v: int): Memory {
    (x: nat) => if a <= x < a + n then v else m(x)
  }

  function MemCopy(m: Memory, dst: nat, src: nat, n: nat): Memory {
    (x: nat) => if dst <= x < dst + n then m(x - dst + src) else m(x)
  }

  ghost function Bytes(m: Memory, a: nat, n: nat): seq<int> {
    seq(n, i requires 0 <= i => m(a + i))
  }

  ghost predicate SameBytes(m: Memory, m': Memory, a: nat, n: nat) {
    forall x: nat :: a <= x < a + n ==> m'(x) == m(x)
  }

  /** Byte i of a 32-bit word. */
  function WordByte(v: nat, i: nat): int {
    v / (if i == 0 then 1 else if i == 1 then 0x100 else if i == 2 then 0x1_0000 else 0x100_0000) % 0x100
  }

  /** A 32-bit word stored at a, least significant byte first. */
  function PutWord(m: Memory, a: nat, v: nat): Memory {
    (x: nat) => if a <= x < a + 4 then WordByte(v, x - a) else m(x)
  }

  const ARENA_MAGIC := 0x9a548eed
  const SIZEOF_LINK := 8                // struct list_elem: prev, next
  const SIZEOF_DESC := 48

  /** The arena's header as malloc() fills it in. */
  function PutHeader(m: Memory, a: nat, desc: nat, freeCnt: nat): Memory {
    PutWord(PutWord(PutWord(m, a * PGSIZE, ARENA_MAGIC), a * PGSIZE + 4, desc), a * PGSIZE + 8, freeCnt)
  }

  /** a->free_cnt. */
  function PutFreeCnt(m: Memory, a: nat, freeCnt: nat): Memory {
    PutWord(m, a * PGSIZE + 8, freeCnt)
  }

  /** list_insert of block b at position i of free list s, whose ends are at head and
      tail: the links of b and those of its neighbours, as far as they are blocks. */
  function Linked(m: Memory, s: seq<nat>, i: nat, b: nat, head: nat, tail: nat): Memory
    requires i <= |s|
  {
    var m1 := PutWord(PutWord(m, b, if i == 0 then head else s[i - 1]), b + 4, if i == |s| then tail else s[i]);
    var m2 := if i == 0 then m1 else PutWord(m1, s[i - 1] + 4, b);
    if i == |s| then m2 else PutWord(m2, s[i], b)
  }

  /** list_remove of element i: its neighbours are linked to each other. */
  function Unlinked(m: Memory, s: seq<nat>, i: nat, head: nat, tail: nat): Memory
    requires i < |s|
  {
    var m1 := if i == 0 then m else PutWord(m, s[i - 1] + 4, if i + 1 == |s| then tail else s[i + 1]);
    if i + 1 == |s| then m1 else PutWord(m1, s[i + 1], if i == 0 then head else s[i - 1])
  }

  /** Only link fields of listed blocks differ. */
  ghost predicate LinksOnly(m: Memory, m': Memory, s: seq<nat>) {
    forall x: nat :: m'(x) != m(x) ==> InLink(s, x)
  }

  ghost predicate InLink(s: seq<nat>, x: nat) {
    exists b :: b in s && b <= x < b + SIZEOF_LINK
  }

  lemma LinkedOnly(m: Memory, s: seq<nat>, i: nat, b: nat, head: nat, tail: nat, s': seq<nat>)
    requires i <= |s| && b in s' && forall x :: x in s ==> x in s'
    ensures LinksOnly(m, Linked(m, s, i, b, head, tail), s')
  {
    var m' := Linked(m, s, i, b, head, tail);
    forall x: nat | m'(x) != m(x) ensures InLink(s', x) {
      if b <= x < b + SIZEOF_LINK {
      } else if i > 0 && s[i - 1] <= x < s[i - 1] + SIZEOF_LINK {
        assert s[i - 1] in s;
      } else {
        assert s[i] in s;
      }
    }
  }

  lemma UnlinkedOnly(m: Memory, s: seq<nat>, i: nat, head: nat, tail: nat, s': seq<nat>)
    requires i < |s| && forall x :: x in s ==> x in s'
    ensures LinksOnly(m, Unlinked(m, s, i, head, tail), s')
  {
    var m' := Unlinked(m, s, i, head, tail);
    forall x: nat | m'(x) != m(x) ensures InLink(s', x) {
      if i > 0 && s[i - 1] <= x < s[i - 1] + SIZEOF_LINK {
        assert s[i - 1] in s;
      } else {
        assert s[i + 1] in s;
      }
    }
  }

  lemma LinksTransitive(m: Memory, m': Memory, m'': Memory, s: seq<nat>)
    requires LinksOnly(m, m', s) && LinksOnly(m', m'', s)
    ensures LinksOnly(m, m'', s)
  {
    forall x: nat | m''(x) != m(x) ensures InLink(s, x) {
      assert m''(x) != m'(x) || m'(x) != m(x);
    }
  }

  /** Only bytes in [lo, hi) differ. */
  ghost predicate RangeOnly(m: Memory, m': Memory, lo: nat, hi: nat) {
    forall x: nat :: m'(x) != m(x) ==> lo <= x < hi
  }

  /** Every live block keeps its bytes. */
  ghost predicate KeptBytes(m: Memory, m': Memory, arenas: Arenas, live: set<nat>) {
    forall c :: c in live && BlockToArena(c) in arenas ==> SameBytes(m, m', c, Usable(arenas, c))
  }

  lemma KeptTransitive(m: Memory, m': Memory, m'': Memory, arenas: Arenas, live: set<nat>)
    requires KeptBytes(m, m', arenas, live) && KeptBytes(m', m'', arenas, live)
    ensures KeptBytes(m, m'', arenas, live)
  {
    hide Usable;
    hide BlockToArena;
    forall c | c in live && BlockToArena(c) in arenas ensures SameBytes(m, m'', c, Usable(arenas, c)) {
      assert SameBytes(m, m', c, Usable(arenas, c)) && SameBytes(m', m'', c, Usable(arenas, c));
    }
  }

  /** Links are kept inside free blocks, which meet no live block. */
  lemma LinksHarmless(arenas: Arenas, free: seq<seq<nat>>, groups: Groups, live: set<nat>, slack: Option<nat>, d: nat,
                      m: Memory, m': Memory)
    requires Inv(arenas, free, groups, live, slack) && Disjoint(groups) && d < DESC_CNT && LinksOnly(m, m', free[d])
    ensures KeptBytes(m, m', arenas, live)
  {
    forall c | c in live && BlockToArena(c) in arenas ensures SameBytes(m, m', c, Usable(arenas, c)) {
      forall x: nat | c <= x < c + Usable(arenas, c) ensures m'(x) == m(x) {
        if m'(x) != m(x) {
          var b :| b in free[d] && b <= x < b + SIZEOF_LINK;
          LinkOutside(arenas, free, groups, live, slack, d, b, c, x);
        }
      }
    }
  }

  lemma LinkOutside(arenas: Arenas, free: seq<seq<nat>>, groups: Groups, live: set<nat>, slack: Option<nat>, d: nat,
                    b: nat, c: nat, x: nat)
    requires Inv(arenas, free, groups, live, slack) && Disjoint(groups) && d < DESC_CNT
    requires b in free[d] && c in live && BlockToArena(c) in arenas && b <= x < b + SIZEOF_LINK
    ensures !(c <= x < c + Usable(arenas, c))
  {
    FreeIsBlock(arenas, free, groups, live, slack, d, b, c);
    if b < c { BlocksSeparate(arenas, groups, b, c); } else { BlocksSeparate(arenas, groups, c, b); }
  }

  lemma FreeIsBlock(arenas: Arenas, free: seq<seq<nat>>, groups: Groups, live: set<nat>, slack: Option<nat>, d: nat,
                    b: nat, c: nat)
    requires Inv(arenas, free, groups, live, slack) && d < DESC_CNT && b in free[d] && c in live
    ensures ArenasOk(arenas, groups) && IsBlock(arenas, b) && IsBlock(arenas, c) && b != c
    ensures BlockToArena(b) in arenas && SIZEOF_LINK <= BlockSize(d) == Usable(arenas, b)
  {
    hide ArenasOk;
    hide CountsOk;
    hide IsBlockAddr;
    assert IsSmall(arenas, BlockToArena(b), d) && IsBlockAddr(b, d);
    assert IsBlock(arenas, b) && IsFree(arenas, free, b);
  }

  /** The header of an arena is in front of all its blocks, and no other arena's. */
  lemma HeaderHarmless(arenas: Arenas, free: seq<seq<nat>>, groups: Groups, live: set<nat>, slack: Option<nat>,
                       a: nat, m: Memory, m': Memory)
    requires Inv(arenas, free, groups, live, slack) && Disjoint(groups) && a in arenas
    requires RangeOnly(m, m', a * PGSIZE, a * PGSIZE + SIZEOF_ARENA)
    ensures KeptBytes(m, m', arenas, live)
  {
    forall c | c in live && BlockToArena(c) in arenas ensures SameBytes(m, m', c, Usable(arenas, c)) {
      assert IsBlock(arenas, c);
      if BlockToArena(c) == a {
        assert a * PGSIZE + SIZEOF_ARENA <= c;
      } else {
        OtherPage(arenas, groups, c, a);
      }
    }
  }

  /** Neither do the pages of a new arena meet a block that was live before. */
  lemma PagesHarmless(arenas: Arenas, free: seq<seq<nat>>, groups: Groups, live: set<nat>, slack: Option<nat>, a: nat,
                      m: Memory, m': Memory)
    requires Inv(arenas, free, groups, live, slack) && Disjoint(groups) && a in arenas && a in groups
    requires forall c :: c in live ==> BlockToArena(c) != a
    requires RangeOnly(m, m', a * PGSIZE, (a + groups[a]) * PGSIZE)
    ensures KeptBytes(m, m', arenas, live)
  {
    forall c | c in live && BlockToArena(c) in arenas ensures SameBytes(m, m', c, Usable(arenas, c)) {
      assert IsBlock(arenas, c);
      OtherPage(arenas, groups, c, a);
    }
  }

  // ----- the image of the heap in memory

  /** The word at a is v. */
  ghost predicate HasWord(m: Memory, a: nat, v: nat) {
    m(a) == WordByte(v, 0) && m(a + 1) == WordByte(v, 1) && m(a + 2) == WordByte(v, 2) && m(a + 3) == WordByte(v, 3)
  }

  /** Words that fit 32 bits can be read back. */
  lemma WordReads(m: Memory, a: nat, v: nat)
    requires HasWord(m, a, v) && v < 0x1_0000_0000
    ensures v == m(a) + 0x100 * m(a + 1) + 0x1_0000 * m(a + 2) + 0x100_0000 * m(a + 3)
  {
    var b0, b1, b2, b3 := m(a), m(a + 1), m(a + 2), m(a + 3);
    ByteSplit(v, b0, b1, b2, b3);
  }

  lemma ByteSplit(v: nat, b0: int, b1: int, b2: int, b3: int)
    requires v < 0x1_0000_0000 && b0 == v % 0x100 && b1 == v / 0x100 % 0x100
    requires b2 == v / 0x1_0000 % 0x100 && b3 == v / 0x100_0000 % 0x100
    ensures v == b0 + 0x100 * b1 + 0x1_0000 * b2 + 0x100_0000 * b3
  {
    var q1, q2, q3 := v / 0x100, v / 0x1_0000, v / 0x100_0000;
    assert v == b0 + 0x100 * q1 && q2 == q1 / 0x100 && q3 == q2 / 0x100;
    assert q1 == b1 + 0x100 * q2 && q2 == b2 + 0x100 * q3 && q3 == b3;
  }

  lemma WordPut(m: Memory, a: nat, v: nat, b: nat, w: nat)
    ensures HasWord(PutWord(m, a, v), a, v)
    ensures (b + 4 <= a || a + 4 <= b) && HasWord(m, b, w) ==> HasWord(PutWord(m, a, v), b, w)
  {
    hide WordByte;
  }

  lemma WordSame(m: Memory, m': Memory, a: nat, v: nat)
    requires HasWord(m, a, v) && forall x: nat :: a <= x < a + 4 ==> m'(x) == m(x)
    ensures HasWord(m', a, v)
  {
    hide WordByte;
    assert m'(a) == m(a) && m'(a + 1) == m(a + 1) && m'(a + 2) == m(a + 2) && m'(a + 3) == m(a + 3);
  }

  function DescWord(descs: nat, desc: Option<nat>): nat {
    if desc.Some? then descs + SIZEOF_DESC * desc.value else 0
  }

  /** The header of arena a. */
  ghost predicate HeaderIn(m: Memory, a: nat, desc: nat, freeCnt: nat) {
    && HasWord(m, a * PGSIZE, ARENA_MAGIC) && HasWord(m, a * PGSIZE + 4, desc) && HasWord(m, a * PGSIZE + 8, freeCnt)
  }

  ghost predicate HeadersIn(m: Memory, arenas: Arenas, descs: nat) {
    forall a :: a in arenas ==> HeaderIn(m, a, DescWord(descs, arenas[a].desc), arenas[a].freeCnt)
  }

  /** The two links of element i of list s. */
  ghost predicate LinksAt(m: Memory, s: seq<nat>, i: nat, head: nat, tail: nat)
    requires i < |s|
  {
    && HasWord(m, s[i], if i == 0 then head else s[i - 1])
    && HasWord(m, s[i] + 4, if i + 1 == |s| then tail else s[i + 1])
  }

  ghost predicate ListIn(m: Memory, s: seq<nat>, head: nat, tail: nat) {
    forall i :: 0 <= i < |s| ==> LinksAt(m, s, i, head, tail)
  }

  function HeadOf(descs: nat, d: nat): nat { descs + SIZEOF_DESC * d + 8 }

  function TailOf(descs: nat, d: nat): nat { descs + SIZEOF_DESC * d + 16 }

  ghost predicate ListsIn(m: Memory, free: seq<seq<nat>>, descs: nat) {
    forall d :: 0 <= d < |free| ==> ListIn(m, free[d], HeadOf(descs, d), TailOf(descs, d))
  }

  /** The bytes in memory are the heap: every arena has its header, and the links inside the
      free blocks spell out the free lists, in both directions. */
  ghost predicate Image(m: Memory, arenas: Arenas, free: seq<seq<nat>>, descs: nat) {
    HeadersIn(m, arenas, descs) && ListsIn(m, free, descs)
  }

  /** Links lie behind the header of their page and inside it. */
  ghost predicate Inside(b: nat) {
    SIZEOF_ARENA <= b % PGSIZE && b % PGSIZE + SIZEOF_LINK <= PGSIZE
  }

  lemma FreeInside(arenas: Arenas, free: seq<seq<nat>>, d: nat, b: nat)
    requires ListsOk(arenas, free) && d < |free| && b in free[d]
    ensures Inside(b) && BlockToArena(b) in arenas
  {
    assert IsSmall(arenas, BlockToArena(b), d) && IsBlockAddr(b, d);
    AddressRoundTrip(b, d);
    InBounds(d, BlockIdx(b, d));
  }

  /** The links of two free blocks do not overlap. */
  lemma LinksApart(arenas: Arenas, free: seq<seq<nat>>, d: nat, b: nat, e: nat, c: nat)
    requires ListsOk(arenas, free) && d < |free| && b in free[d] && e < |free| && c in free[e] && b != c
    ensures b + SIZEOF_LINK <= c || c + SIZEOF_LINK <= b
    ensures d != e ==> BlockToArena(b) != BlockToArena(c)
  {
    assert IsSmall(arenas, BlockToArena(b), d) && IsBlockAddr(b, d);
    assert IsSmall(arenas, BlockToArena(c), e) && IsBlockAddr(c, e);
    if BlockToArena(b) == BlockToArena(c) {
      if b < c { SameArena(b, c, d); } else { SameArena(c, b, d); }
    } else {
      FreeInside(arenas, free, d, b);
      FreeInside(arenas, free, e, c);
      PagesApart(b, c);
    }
  }

  lemma PagesApart(b: nat, c: nat)
    requires Inside(b) && Inside(c) && BlockToArena(b) != BlockToArena(c)
    ensures b + SIZEOF_LINK <= c || c + SIZEOF_LINK <= b
  {
  }

  /** A byte of a header or of a link field. */
  ghost predicate Meta(arenas: Arenas, free: seq<seq<nat>>, x: nat) {
    || (exists a :: a in arenas && a * PGSIZE <= x < a * PGSIZE + SIZEOF_ARENA)
    || (exists d :: 0 <= d < |free| && InLink(free[d], x))
  }

  lemma HeaderSame(m: Memory, m': Memory, a: nat, desc: nat, freeCnt: nat)
    requires HeaderIn(m, a, desc, freeCnt)
    requires forall x: nat :: a * PGSIZE <= x < a * PGSIZE + SIZEOF_ARENA ==> m'(x) == m(x)
    ensures HeaderIn(m', a, desc, freeCnt)
  {
    hide HasWord;
    WordSame(m, m', a * PGSIZE, ARENA_MAGIC);
    WordSame(m, m', a * PGSIZE + 4, desc);
    WordSame(m, m', a * PGSIZE + 8, freeCnt);
  }

  lemma ListSame(m: Memory, m': Memory, s: seq<nat>, head: nat, tail: nat)
    requires ListIn(m, s, head, tail) && forall x: nat :: InLink(s, x) ==> m'(x) == m(x)
    ensures ListIn(m', s, head, tail)
  {
    hide HasWord;
    forall i | 0 <= i < |s| ensures LinksAt(m', s, i, head, tail) {
      assert LinksAt(m, s, i, head, tail);
      forall x: nat | s[i] <= x < s[i] + SIZEOF_LINK ensures m'(x) == m(x) {
        assert s[i] in s && InLink(s, x);
      }
      WordSame(m, m', s[i], if i == 0 then head else s[i - 1]);
      WordSame(m, m', s[i] + 4, if i + 1 == |s| then tail else s[i + 1]);
    }
  }

  /** Whatever leaves the heap's own bytes alone leaves the image. */
  lemma ImageFrame(m: Memory, m': Memory, arenas: Arenas, free: seq<seq<nat>>, descs: nat)
    requires Image(m, arenas, free, descs) && forall x: nat :: Meta(arenas, free, x) ==> m'(x) == m(x)
    ensures Image(m', arenas, free, descs)
  {
    hide HeaderIn;
    hide ListIn;
    hide InLink;
    forall a | a in arenas ensures HeaderIn(m', a, DescWord(descs, arenas[a].desc), arenas[a].freeCnt) {
      HeaderSame(m, m', a, DescWord(descs, arenas[a].desc), arenas[a].freeCnt);
    }
    forall d | 0 <= d < |free| ensures ListIn(m', free[d], HeadOf(descs, d), TailOf(descs, d)) {
      ListSame(m, m', free[d], HeadOf(descs, d), TailOf(descs, d));
    }
  }

  /** No byte of a live block is the heap's own. */
  lemma LiveNotMeta(arenas: Arenas, free: seq<seq<nat>>, groups: Groups, live: set<nat>, slack: Option<nat>, c: nat,
                    x: nat)
    requires Inv(arenas, free, groups, live, slack) && Disjoint(groups) && c in live
    ensures BlockToArena(c) in arenas && (c <= x < c + Usable(arenas, c) ==> !Meta(arenas, free, x))
  {
    hide CountsOk;
    hide Usable;
    hide IsBlockAddr;
    assert IsBlock(arenas, c);
    if c <= x < c + Usable(arenas, c) {
      forall a | a in arenas ensures !(a * PGSIZE <= x < a * PGSIZE + SIZEOF_ARENA) {
        HeaderOutside(arenas, groups, c, a);
      }
      forall d | 0 <= d < |free| ensures !InLink(free[d], x) {
        if InLink(free[d], x) {
          var b :| b in free[d] && b <= x < b + SIZEOF_LINK;
          LinkOutside(arenas, free, groups, live, slack, d, b, c, x);
        }
      }
    }
  }

  lemma HeaderOutside(arenas: Arenas, groups: Groups, c: nat, a: nat)
    requires ArenasOk(arenas, groups) && Disjoint(groups) && IsBlock(arenas, c) && a in arenas
    ensures c + Usable(arenas, c) <= a * PGSIZE || a * PGSIZE + SIZEOF_ARENA <= c
  {
    if BlockToArena(c) == a {
      BlockInGroup(arenas, groups, c);
    } else {
      OtherPage(arenas, groups, c, a);
    }
  }

  /** The owners of live blocks may write what they like into them: headers and links
      survive. */
  lemma OwnersHarmless(arenas: Arenas, free: seq<seq<nat>>, groups: Groups, live: set<nat>, slack: Option<nat>,
                       m: Memory, m': Memory, descs: nat)
    requires Inv(arenas, free, groups, live, slack) && Disjoint(groups) && Image(m, arenas, free, descs)
    requires forall x: nat :: m'(x) != m(x) ==>
               exists c :: c in live && BlockToArena(c) in arenas && c <= x < c + Usable(arenas, c)
    ensures Image(m', arenas, free, descs)
  {
    hide Inv;
    hide Meta;
    hide Image;
    hide Usable;
    forall x: nat | Meta(arenas, free, x) ensures m'(x) == m(x) {
      if m'(x) != m(x) {
        var c :| c in live && BlockToArena(c) in arenas && c <= x < c + Usable(arenas, c);
        LiveNotMeta(arenas, free, groups, live, slack, c, x);
      }
    }
    ImageFrame(m, m', arenas, free, descs);
  }

  // ----- list operations on the image

  /** The elements of s are far enough apart for their links. */
  ghost predicate Spaced(s: seq<nat>) {
    forall i, j :: 0 <= i < j < |s| ==> s[i] + SIZEOF_LINK <= s[j] || s[j] + SIZEOF_LINK <= s[i]
  }

  lemma ListSpaced(arenas: Arenas, free: seq<seq<nat>>, d: nat)
    requires ListsOk(arenas, free) && d < |free|
    ensures Spaced(free[d])
  {
    var s := free[d];
    forall i, j | 0 <= i < j < |s| ensures s[i] + SIZEOF_LINK <= s[j] || s[j] + SIZEOF_LINK <= s[i] {
      assert s[i] in s && s[j] in s && s[i] != s[j];
      LinksApart(arenas, free, d, s[i], d, s[j]);
    }
  }

  /** list_push_front. */
  lemma PushedFront(m: Memory, s: seq<nat>, b: nat, head: nat, tail: nat)
    requires ListIn(m, s, head, tail) && Spaced([b] + s)
    ensures ListIn(Linked(m, s, 0, b, head, tail), [b] + s, head, tail)
  {
    hide HasWord;
    var t, m' := [b] + s, Linked(m, s, 0, b, head, tail);
    var m1 := PutWord(m, b, head);
    var m2 := PutWord(m1, b + 4, if s == [] then tail else s[0]);
    forall i | 0 <= i < |t| ensures LinksAt(m', t, i, head, tail) {
      var prev, next := if i == 0 then head else t[i - 1], if i + 1 == |t| then tail else t[i + 1];
      if i > 0 {
        assert LinksAt(m, s, i - 1, head, tail) && t[i] == s[i - 1];
        assert t[0] + SIZEOF_LINK <= t[i] || t[i] + SIZEOF_LINK <= t[0];
        if i > 1 { assert t[1] + SIZEOF_LINK <= t[i] || t[i] + SIZEOF_LINK <= t[1]; }
      }
      WordPut(m, b, head, t[i], if i <= 1 then head else prev);
      WordPut(m, b, head, t[i] + 4, next);
      WordPut(m1, b + 4, if s == [] then tail else s[0], t[i], if i <= 1 then head else prev);
      WordPut(m1, b + 4, if s == [] then tail else s[0], t[i] + 4, next);
      if s != [] {
        if i == 0 { assert t[0] + SIZEOF_LINK <= t[1] || t[1] + SIZEOF_LINK <= t[0]; }
        WordPut(m2, s[0], b, t[i], if i <= 1 then head else prev);
        WordPut(m2, s[0], b, t[i] + 4, next);
      }
    }
  }

  /** list_push_back. */
  lemma PushedBack(m: Memory, s: seq<nat>, b: nat, head: nat, tail: nat)
    requires ListIn(m, s, head, tail) && Spaced(s + [b])
    ensures ListIn(Linked(m, s, |s|, b, head, tail), s + [b], head, tail)
  {
    hide HasWord;
    var n := |s|;
    var t, m' := s + [b], Linked(m, s, n, b, head, tail);
    var last := if n == 0 then head else s[n - 1];
    var m1 := PutWord(m, b, last);
    var m2 := PutWord(m1, b + 4, tail);
    forall i | 0 <= i < |t| ensures LinksAt(m', t, i, head, tail) {
      var prev, next := if i == 0 then head else t[i - 1], if i + 1 >= n then tail else t[i + 1];
      if i < n {
        assert LinksAt(m, s, i, head, tail) && t[i] == s[i];
        assert t[i] + SIZEOF_LINK <= t[n] || t[n] + SIZEOF_LINK <= t[i];
        if i < n - 1 { assert t[i] + SIZEOF_LINK <= t[n - 1] || t[n - 1] + SIZEOF_LINK <= t[i]; }
      }
      WordPut(m, b, last, t[i], prev);
      WordPut(m, b, last, t[i] + 4, next);
      WordPut(m1, b + 4, tail, t[i], prev);
      WordPut(m1, b + 4, tail, t[i] + 4, next);
      if n > 0 {
        if i == n { assert t[n - 1] + SIZEOF_LINK <= t[n] || t[n] + SIZEOF_LINK <= t[n - 1]; }
        WordPut(m2, s[n - 1] + 4, b, t[i], prev);
        WordPut(m2, s[n - 1] + 4, b, t[i] + 4, next);
      }
    }
  }

  /** list_remove. */
  lemma TakenOut(m: Memory, s: seq<nat>, k: nat, head: nat, tail: nat)
    requires ListIn(m, s, head, tail) && Spaced(s) && k < |s|
    ensures ListIn(Unlinked(m, s, k, head, tail), s[..k] + s[k + 1..], head, tail)
  {
    hide HasWord;
    hide Unlinked;
    hide Spaced;
    var t := s[..k] + s[k + 1..];
    forall i | 0 <= i < |t| ensures LinksAt(Unlinked(m, s, k, head, tail), t, i, head, tail) {
      var j := if i < k then i else i + 1;
      assert t[i] == s[j] && LinksAt(m, s, j, head, tail);
      TakenOutAt(m, s, k, head, tail, j);
    }
  }

  /** What taking out element k does to the links of element j. */
  lemma TakenOutAt(m: Memory, s: seq<nat>, k: nat, head: nat, tail: nat, j: nat)
    requires Spaced(s) && k < |s| && j < |s| && j != k && LinksAt(m, s, j, head, tail)
    ensures var m' := Unlinked(m, s, k, head, tail);
            var prev := if j == k + 1 then k - 1 else j - 1;
            var next := if j + 1 == k then k + 1 else j + 1;
            && HasWord(m', s[j], if prev < 0 then head else s[prev])
            && HasWord(m', s[j] + 4, if next == |s| then tail else s[next])
  {
    hide HasWord;
    hide Spaced;
    var before, after := if k == 0 then head else s[k - 1], if k + 1 == |s| then tail else s[k + 1];
    var m1 := if k == 0 then m else PutWord(m, s[k - 1] + 4, after);
    var prev, next := if j == 0 then head else s[j - 1], if j + 1 == |s| then tail else s[j + 1];
    SpacedTwo(s, j, k - 1);
    SpacedTwo(s, j, k + 1);
    if k > 0 {
      WordPut(m, s[k - 1] + 4, after, s[j], prev);
      WordPut(m, s[k - 1] + 4, after, s[j] + 4, next);
    }
    if k + 1 < |s| {
      WordPut(m1, s[k + 1], before, s[j], prev);
      WordPut(m1, s[k + 1], before, s[j] + 4, if j + 1 == k then after else next);
    }
  }

  lemma SpacedTwo(s: seq<nat>, i: int, j: int)
    requires Spaced(s)
    ensures 0 <= i < |s| && 0 <= j < |s| && i != j ==> s[i] + SIZEOF_LINK <= s[j] || s[j] + SIZEOF_LINK <= s[i]
  {
  }

  /** Writing links of list d leaves headers and the other lists alone. */
  lemma OthersSame(m: Memory, m': Memory, arenas: Arenas, free: seq<seq<nat>>, d: nat, all: seq<nat>, descs: nat)
    requires Image(m, arenas, free, descs) && d < |free| && LinksOnly(m, m', all)
    requires ListsOk(arenas, free[d := all])
    ensures HeadersIn(m', arenas, descs)
    ensures forall e :: 0 <= e < |free| && e != d ==> ListIn(m', free[e], HeadOf(descs, e), TailOf(descs, e))
  {
    hide HeaderIn;
    hide ListIn;
    var lists := free[d := all];
    forall a | a in arenas ensures HeaderIn(m', a, DescWord(descs, arenas[a].desc), arenas[a].freeCnt) {
      forall x: nat | a * PGSIZE <= x < a * PGSIZE + SIZEOF_ARENA ensures m'(x) == m(x) {
        if m'(x) != m(x) { LinkNotHeader(arenas, lists, d, a, x); }
      }
      HeaderSame(m, m', a, DescWord(descs, arenas[a].desc), arenas[a].freeCnt);
    }
    forall e | 0 <= e < |free| && e != d ensures ListIn(m', free[e], HeadOf(descs, e), TailOf(descs, e)) {
      forall x: nat | InLink(free[e], x) ensures m'(x) == m(x) {
        if m'(x) != m(x) { TwoLinks(arenas, lists, d, e, x); }
      }
      ListSame(m, m', free[e], HeadOf(descs, e), TailOf(descs, e));
    }
  }

  lemma LinkNotHeader(arenas: Arenas, free: seq<seq<nat>>, d: nat, a: nat, x: nat)
    requires ListsOk(arenas, free) && d < |free| && InLink(free[d], x)
    ensures !(a * PGSIZE <= x < a * PGSIZE + SIZEOF_ARENA)
  {
    var b :| b in free[d] && b <= x < b + SIZEOF_LINK;
    FreeInside(arenas, free, d, b);
  }

  lemma TwoLinks(arenas: Arenas, free: seq<seq<nat>>, d: nat, e: nat, x: nat)
    requires ListsOk(arenas, free) && d < |free| && e < |free| && d != e && InLink(free[d], x)
    ensures !InLink(free[e], x)
  {
    if InLink(free[e], x) {
      var b :| b in free[d] && b <= x < b + SIZEOF_LINK;
      var c :| c in free[e] && c <= x < c + SIZEOF_LINK;
      assert IsSmall(arenas, BlockToArena(b), d) && IsSmall(arenas, BlockToArena(c), e);
      LinksApart(arenas, free, d, b, e, c);
    }
  }

  lemma PushedFrontImage(m: Memory, arenas: Arenas, free: seq<seq<nat>>, d: nat, b: nat, descs: nat)
    requires Image(m, arenas, free, descs) && d < |free| && ListsOk(arenas, free[d := [b] + free[d]])
    ensures Image(Linked(m, free[d], 0, b, HeadOf(descs, d), TailOf(descs, d)), arenas, free[d := [b] + free[d]], descs)
  {
    hide Linked;
    hide ListIn;
    hide HeaderIn;
    var s, all := free[d], [b] + free[d];
    var m' := Linked(m, s, 0, b, HeadOf(descs, d), TailOf(descs, d));
    ListSpaced(arenas, free[d := all], d);
    PushedFront(m, s, b, HeadOf(descs, d), TailOf(descs, d));
    LinkedOnly(m, s, 0, b, HeadOf(descs, d), TailOf(descs, d), all);
    OthersSame(m, m', arenas, free, d, all, descs);
  }

  lemma PushedBackImage(m: Memory, arenas: Arenas, free: seq<seq<nat>>, d: nat, b: nat, descs: nat)
    requires Image(m, arenas, free, descs) && d < |free| && ListsOk(arenas, free[d := free[d] + [b]])
    ensures Image(Linked(m, free[d], |free[d]|, b, HeadOf(descs, d), TailOf(descs, d)), arenas,
                  free[d := free[d] + [b]], descs)
  {
    hide Linked;
    hide ListIn;
    hide HeaderIn;
    var s, all := free[d], free[d] + [b];
    var m' := Linked(m, s, |s|, b, HeadOf(descs, d), TailOf(descs, d));
    ListSpaced(arenas, free[d := all], d);
    PushedBack(m, s, b, HeadOf(descs, d), TailOf(descs, d));
    LinkedOnly(m, s, |s|, b, HeadOf(descs, d), TailOf(descs, d), all);
    OthersSame(m, m', arenas, free, d, all, descs);
  }

  lemma TakenOutImage(m: Memory, arenas: Arenas, free: seq<seq<nat>>, d: nat, k: nat, descs: nat)
    requires Image(m, arenas, free, descs) && ListsOk(arenas, free) && d < |free| && k < |free[d]|
    ensures Image(Unlinked(m, free[d], k, HeadOf(descs, d), TailOf(descs, d)), arenas,
                  free[d := free[d][..k] + free[d][k + 1..]], descs)
  {
    hide Unlinked;
    hide ListIn;
    hide HeaderIn;
    var s := free[d];
    var m' := Unlinked(m, s, k, HeadOf(descs, d), TailOf(descs, d));
    ListSpaced(arenas, free, d);
    TakenOut(m, s, k, HeadOf(descs, d), TailOf(descs, d));
    UnlinkedOnly(m, s, k, HeadOf(descs, d), TailOf(descs, d), s);
    assert free[d := s] == free;
    OthersSame(m, m', arenas, free, d, s, descs);
  }

  // ----- headers on the image

  /** Writing inside the header of arena a leaves the rest of the image alone. */
  lemma HeaderWritten(m: Memory, m': Memory, arenas: Arenas, free: seq<seq<nat>>, a: nat, arenas': Arenas, descs: nat)
    requires Image(m, arenas, free, descs) && ListsOk(arenas', free)
    requires RangeOnly(m, m', a * PGSIZE, a * PGSIZE + SIZEOF_ARENA)
    requires a in arenas' && arenas' == arenas[a := arenas'[a]]
    requires HeaderIn(m', a, DescWord(descs, arenas'[a].desc), arenas'[a].freeCnt)
    ensures Image(m', arenas', free, descs)
  {
    hide HeaderIn;
    hide ListIn;
    forall c | c in arenas' && c != a ensures HeaderIn(m', c, DescWord(descs, arenas'[c].desc), arenas'[c].freeCnt) {
      OtherHeader(a, c);
      HeaderSame(m, m', c, DescWord(descs, arenas[c].desc), arenas[c].freeCnt);
    }
    forall d | 0 <= d < |free| ensures ListIn(m', free[d], HeadOf(descs, d), TailOf(descs, d)) {
      forall x: nat | InLink(free[d], x) ensures m'(x) == m(x) {
        LinkNotHeader(arenas', free, d, a, x);
      }
      ListSame(m, m', free[d], HeadOf(descs, d), TailOf(descs, d));
    }
  }

  lemma OtherHeader(a: nat, c: nat)
    requires a != c
    ensures a * PGSIZE + SIZEOF_ARENA <= c * PGSIZE || c * PGSIZE + SIZEOF_ARENA <= a * PGSIZE
  {
  }

  lemma CountImage(m: Memory, arenas: Arenas, free: seq<seq<nat>>, a: nat, freeCnt: nat, descs: nat)
    requires Image(m, arenas, free, descs) && a in arenas
    requires ListsOk(arenas[a := arenas[a].(freeCnt := freeCnt)], free)
    ensures Image(PutFreeCnt(m, a, freeCnt), arenas[a := arenas[a].(freeCnt := freeCnt)], free, descs)
  {
    hide HasWord;
    hide ListsIn;
    var desc := DescWord(descs, arenas[a].desc);
    assert HeaderIn(m, a, desc, arenas[a].freeCnt);
    WordPut(m, a * PGSIZE + 8, freeCnt, a * PGSIZE, ARENA_MAGIC);
    WordPut(m, a * PGSIZE + 8, freeCnt, a * PGSIZE + 4, desc);
    CountOnly(m, a, freeCnt);
    HeaderWritten(m, PutFreeCnt(m, a, freeCnt), arenas, free, a, arenas[a := arenas[a].(freeCnt := freeCnt)], descs);
  }

  lemma CountOnly(m: Memory, a: nat, freeCnt: nat)
    ensures RangeOnly(m, PutFreeCnt(m, a, freeCnt), a * PGSIZE, a * PGSIZE + SIZEOF_ARENA)
  {
  }

  lemma HeaderImage(m: Memory, arenas: Arenas, free: seq<seq<nat>>, a: nat, arena: Arena, descs: nat)
    requires Image(m, arenas, free, descs) && ListsOk(arenas[a := arena], free)
    ensures Image(PutHeader(m, a, DescWord(descs, arena.desc), arena.freeCnt), arenas[a := arena], free, descs)
  {
    hide HasWord;
    hide ListsIn;
    var desc := DescWord(descs, arena.desc);
    var m1 := PutWord(m, a * PGSIZE, ARENA_MAGIC);
    var m2 := PutWord(m1, a * PGSIZE + 4, desc);
    WordPut(m, a * PGSIZE, ARENA_MAGIC, a * PGSIZE, ARENA_MAGIC);
    WordPut(m1, a * PGSIZE + 4, desc, a * PGSIZE, ARENA_MAGIC);
    WordPut(m2, a * PGSIZE + 8, arena.freeCnt, a * PGSIZE, ARENA_MAGIC);
    WordPut(m2, a * PGSIZE + 8, arena.freeCnt, a * PGSIZE + 4, desc);
    HeaderOnly(m, a, desc, arena.freeCnt);
    HeaderWritten(m, PutHeader(m, a, desc, arena.freeCnt), arenas, free, a, arenas[a := arena], descs);
  }

  /** Dropping an arena whose blocks are on no list, and filling its pages. */
  lemma DroppedImage(m: Memory, m': Memory, arenas: Arenas, free: seq<seq<nat>>, groups: Groups, a: nat, descs: nat)
    requires Image(m, arenas, free, descs) && ListsOk(arenas - {a}, free)
    requires ArenasOk(arenas, groups) && Disjoint(groups)
    requires a in arenas && RangeOnly(m, m', a * PGSIZE, (a + groups[a]) * PGSIZE)
    ensures Image(m', arenas - {a}, free, descs)
  {
    hide HeaderIn;
    hide ListIn;
    var rest := arenas - {a};
    assert Image(m, rest, free, descs);
    forall x: nat | Meta(rest, free, x) ensures m'(x) == m(x) {
      MetaElsewhere(arenas, free, groups, a, x);
    }
    ImageFrame(m, m', rest, free, descs);
  }

  lemma MetaElsewhere(arenas: Arenas, free: seq<seq<nat>>, groups: Groups, a: nat, x: nat)
    requires ListsOk(arenas - {a}, free) && ArenasOk(arenas, groups) && Disjoint(groups) && a in arenas
    requires Meta(arenas - {a}, free, x)
    ensures !(a * PGSIZE <= x < (a + groups[a]) * PGSIZE)
  {
    hide ListsOk;
    hide ArenasOk;
    var c := MetaPage(arenas - {a}, free, x);
    assert c in groups && a in groups by {
      ArenaGroups(arenas, groups);
    }
  }

  lemma ArenaGroups(arenas: Arenas, groups: Groups)
    requires ArenasOk(arenas, groups)
    ensures forall a :: a in arenas ==> a in groups && 0 < groups[a]
  {
  }

  /** A byte of the heap is on the first page of an arena. */
  lemma MetaPage(arenas: Arenas, free: seq<seq<nat>>, x: nat) returns (c: nat)
    requires ListsOk(arenas, free) && Meta(arenas, free, x)
    ensures c in arenas && c * PGSIZE <= x < (c + 1) * PGSIZE
  {
    if a :| a in arenas && a * PGSIZE <= x < a * PGSIZE + SIZEOF_ARENA {
      c := a;
    } else {
      var d :| 0 <= d < |free| && InLink(free[d], x);
      var b :| b in free[d] && b <= x < b + SIZEOF_LINK;
      FreeInside(arenas, free, d, b);
      c := BlockToArena(b);
    }
  }

  lemma InvLists(arenas: Arenas, free: seq<seq<nat>>, groups: Groups, live: set<nat>, slack: Option<nat>)
    requires Inv(arenas, free, groups, live, slack)
    ensures ArenasOk(arenas, groups) && ListsOk(arenas, free) && |free| == DESC_CNT
  {
  }

  /** A new arena changes nothing for the lists. */
  lemma ListsWith(arenas: Arenas, free: seq<seq<nat>>, a: nat, arena: Arena)
    requires ListsOk(arenas, free) && a !in arenas
    ensures ListsOk(arenas[a := arena], free)
  {
    hide IsBlockAddr;
    hide BlockToArena;
  }

  /** Nor does a count. */
  lemma ListsRecount(arenas: Arenas, free: seq<seq<nat>>, a: nat, freeCnt: nat)
    requires a in arenas && ListsOk(arenas[a := arenas[a].(freeCnt := freeCnt)], free)
    ensures ListsOk(arenas, free)
  {
    hide IsBlockAddr;
    hide BlockToArena;
    var arenas' := arenas[a := arenas[a].(freeCnt := freeCnt)];
    forall d, b | 0 <= d < |free| && b in free[d] ensures IsSmall(arenas, BlockToArena(b), d) && IsBlockAddr(b, d) {
      assert IsSmall(arenas', BlockToArena(b), d);
    }
  }

  lemma ListsFiltered(arenas: Arenas, free: seq<seq<nat>>, d: nat, lo: nat, hi: nat)
    requires ListsOk(arenas, free) && d < |free|
    ensures ListsOk(arenas, free[d := FilterOut(free[d], lo, hi)])
  {
    hide IsBlockAddr;
    hide BlockToArena;
    hide FilterOut;
    FilterOutNoDup(free[d], lo, hi);
  }

  /** The list of a new arena, as far as it is built. */
  lemma NewListOk(arenas: Arenas, free: seq<seq<nat>>, a: nat, d: nat, n: nat)
    requires ListsOk(arenas, free) && IsSmall(arenas, a, d) && d < DESC_CNT && n <= BlocksPerArena(d)
    ensures ListsOk(arenas, free[d := NewList(a, d, n)])
  {
    hide IsBlockAddr;
    hide BlockToArena;
    hide BlocksPerArena;
    var s := NewList(a, d, n);
    forall i | 0 <= i < n ensures BlockToArena(s[i]) == a && IsBlockAddr(s[i], d) && BlockIdx(s[i], d) == i {
      BlockRoundTrip(a, d, i);
    }
    forall i, j | 0 <= i < j < |s| ensures s[i] != s[j] {
      assert BlockIdx(s[i], d) != BlockIdx(s[j], d);
    }
  }

  lemma {:induction false} FilterOne(s: seq<nat>, i: nat)
    requires Ordering.NoDup(s) && i < |s|
    ensures FilterOut(s, s[i], s[i] + 1) == s[..i] + s[i + 1..]
  {
    var rest, b := s[1..], s[i];
    if i == 0 {
      FilterNone(rest, b);
    } else {
      assert rest[i - 1] == b && s[0] != b;
      FilterOne(rest, i - 1);
      assert s[..i] + s[i + 1..] == [s[0]] + (rest[..i - 1] + rest[i..]);
    }
  }

  lemma {:induction false} FilterNone(s: seq<nat>, b: nat)
    requires b !in s
    ensures FilterOut(s, b, b + 1) == s
  {
    if s != [] {
      assert s[0] in s && forall x :: x in s[1..] ==> x in s;
      FilterNone(s[1..], b);
    }
  }

  /** Writing inside a live block. */
  lemma BlockWritten(arenas: Arenas, free: seq<seq<nat>>, groups: Groups, live: set<nat>, slack: Option<nat>,
                     m: Memory, m': Memory, descs: nat, b: nat, n: nat)
    requires Inv(arenas, free, groups, live, slack) && Disjoint(groups) && Image(m, arenas, free, descs)
    requires b in live && BlockToArena(b) in arenas && n <= Usable(arenas, b) && RangeOnly(m, m', b, b + n)
    ensures Image(m', arenas, free, descs)
  {
    hide Inv;
    hide Image;
    hide Usable;
    hide BlockToArena;
    OwnersHarmless(arenas, free, groups, live, slack, m, m', descs);
  }

  /** The image after free() has put b on its list. */
  lemma FreedImage(arenas: Arenas, free: seq<seq<nat>>, groups: Groups, live: set<nat>, b: nat, a: nat, d: nat,
                   freeCnt: nat, m: Memory, descs: nat)
    requires Inv(arenas, free, groups, live, None) && Disjoint(groups) && Image(m, arenas, free, descs)
    requires b in live && a == BlockToArena(b) && IsSmall(arenas, a, d) && d < DESC_CNT && |free| == DESC_CNT
    requires Inv(arenas[a := arenas[a].(freeCnt := freeCnt)], free[d := [b] + free[d]], groups, live - {b}, Some(a))
    ensures var m1 := Linked(MemSet(m, b, BlockSize(d), 0xcc), free[d], 0, b, HeadOf(descs, d), TailOf(descs, d));
            Image(PutFreeCnt(m1, a, freeCnt), arenas[a := arenas[a].(freeCnt := freeCnt)], free[d := [b] + free[d]],
                  descs)
  {
    hide Inv;
    hide Image;
    hide Linked;
    hide PutFreeCnt;
    hide ListsOk;
    var arenas', free' := arenas[a := arenas[a].(freeCnt := freeCnt)], free[d := [b] + free[d]];
    BlockWritten(arenas, free, groups, live, None, m, MemSet(m, b, BlockSize(d), 0xcc), descs, b, BlockSize(d));
    InvLists(arenas', free', groups, live - {b}, Some(a));
    ListsRecount(arenas, free', a, freeCnt);
    PushedFrontImage(MemSet(m, b, BlockSize(d), 0xcc), arenas, free, d, b, descs);
    var m1 := Linked(MemSet(m, b, BlockSize(d), 0xcc), free[d], 0, b, HeadOf(descs, d), TailOf(descs, d));
    CountImage(m1, arenas, free', a, freeCnt, descs);
  }

  /** The image after malloc() has taken the front of list d. */
  lemma TakenImage(arenas: Arenas, free: seq<seq<nat>>, groups: Groups, live: set<nat>, slack: Option<nat>,
                   groups': Groups, live': set<nat>, slack': Option<nat>, a: nat, d: nat, freeCnt: nat, m: Memory,
                   descs: nat)
    requires Inv(arenas, free, groups, live, slack) && Image(m, arenas, free, descs) && a in arenas
    requires d < DESC_CNT && |free| == DESC_CNT && free[d] != []
    requires Inv(arenas[a := arenas[a].(freeCnt := freeCnt)], free[d := free[d][1..]], groups', live', slack')
    ensures var m1 := Unlinked(m, free[d], 0, HeadOf(descs, d), TailOf(descs, d));
            Image(PutFreeCnt(m1, a, freeCnt), arenas[a := arenas[a].(freeCnt := freeCnt)], free[d := free[d][1..]],
                  descs)
  {
    hide Inv;
    hide Image;
    hide Unlinked;
    hide PutFreeCnt;
    hide ListsOk;
    InvLists(arenas, free, groups, live, slack);
    TakenOutImage(m, arenas, free, d, 0, descs);
    assert free[d][..0] + free[d][1..] == free[d][1..];
    InvLists(arenas[a := arenas[a].(freeCnt := freeCnt)], free[d := free[d][1..]], groups', live', slack');
    CountImage(Unlinked(m, free[d], 0, HeadOf(descs, d), TailOf(descs, d)), arenas, free[d := free[d][1..]], a,
               freeCnt, descs);
  }

  // ----- the allocator

  class Heap {
    const pal: PageAllocator
    const descs: nat                    // address of the descriptor array
    var arenas: Arenas
    var free: seq<seq<nat>>
    var mem: Memory
    ghost var live: set<nat>

    ghost predicate Valid()
      reads this, pal, pal.kernelMap.bits, pal.userMap.bits
    {
      && pal.Valid()
      && Inv(arenas, free, pal.live, live, None)
      && Image(mem, arenas, free, descs)
    }

    /** malloc_init */
    constructor (p: PageAllocator, descs: nat)
      requires p.Valid()
      ensures Valid() && live == {} && pal == p && this.descs == descs
    {
      pal, arenas, live := p, map[], {};
      this.descs := descs;
      free := seq(DESC_CNT, _ => []);
    }

    /** The two ends of free list d, which are in the descriptor. */
    function Head(d: nat): nat { HeadOf(descs, d) }

    function Tail(d: nat): nat { TailOf(descs, d) }

    /** The smallest descriptor that satisfies a request. */
    static method FindDesc(size: nat) returns (d: nat)
      ensures d <= DESC_CNT
      ensures forall e: nat :: e < d ==> BlockSize(e) < size
      ensures d < DESC_CNT ==> size <= BlockSize(d)
      ensures d == DescFrom(size, 0)
    {
      d := 0;
      while d < DESC_CNT && BlockSize(d) < size
        invariant d <= DESC_CNT && forall e: nat :: e < d ==> BlockSize(e) < size
        invariant DescFrom(size, d) == DescFrom(size, 0)
      {
        d := d + 1;
      }
    }

    /** What malloc() promises: None is a null pointer and changes nothing;
        otherwise one new block, wide enough for every request for which the size
        arithmetic does not wrap and for no other.  Other blocks keep their size. */
    static ghost predicate Allocated(size: nat, arenas: Arenas, live: set<nat>, arenas': Arenas, live': set<nat>,
                                     r: Option<nat>) {
      && (r.None? ==> live' == live && arenas' == arenas)
      && (r.Some? ==>
            && r.value !in live && live' == live + {r.value}
            && BlockToArena(r.value) in arenas'
            && (size <= Usable(arenas', r.value) <==> size <= SIZE_MAX1 - SIZEOF_ARENA))
      && KeptSizes(arenas, arenas', live)
    }

    /** No group of that many pages is free, or none is asked for. */
    static ghost predicate NoRoom(bits: seq<bool>, pageCnt: nat) {
      pageCnt == 0 || FirstFit(bits, 0, pageCnt, false).None?
    }

    /** When malloc() returns a null pointer: nothing asked for, or neither a free
        block of the class nor pages for a new arena. */
    static ghost predicate Refused(size: nat, free: seq<seq<nat>>, bits: seq<bool>) {
      var d := DescFrom(size, 0);
      || size == 0
      || (d == DESC_CNT && NoRoom(bits, BigPages(size)))
      || (d < DESC_CNT && d < |free| && free[d] == [] && NoRoom(bits, 1))
    }

    /** malloc */
    method Malloc(size: nat) returns (r: Option<nat>)
      requires Valid() && size < SIZE_MAX1
      modifies this, pal, pal.kernelMap.bits, pal.userMap.bits
      ensures Valid() && KeptBytes(old(mem), mem, old(arenas), old(live)) && (r.None? ==> mem == old(mem))
      ensures Allocated(size, old(arenas), old(live), arenas, live, r)
      ensures r.None? <==> Refused(size, old(free), old(pal.PoolBits(false)))
    {
      if size == 0 {
        return None;
      }
      var d := FindDesc(size);
      if d == DESC_CNT {
        assert BlockSize(6) < size;
        r := MallocBig(size);
      } else {
        r := MallocSmall(d, size);
      }
    }

    method MallocBig(size: nat) returns (r: Option<nat>)
      requires Valid() && 1024 < size < SIZE_MAX1
      modifies this, pal, pal.kernelMap.bits, pal.userMap.bits
      ensures Valid() && KeptBytes(old(mem), mem, old(arenas), old(live)) && (r.None? ==> mem == old(mem))
      ensures Allocated(size, old(arenas), old(live), arenas, live, r)
      ensures r.None? <==> NoRoom(old(pal.PoolBits(false)), BigPages(size))
    {
      hide Inv;
      hide Usable;
      hide KeptSizes;
      hide Consistent;
      hide AllWords;
      hide Unpacked;
      hide SoundLayout;
      hide BigPages;
      hide KeptBytes;
      hide PutHeader;
      hide Image;
      hide ListsOk;
      hide ArenasOk;
      var pageCnt := BigPages(size);
      var a := pal.GetMultiple(false, pageCnt);
      SizesKept(arenas, free, old(pal.live), live, None, arenas, live);
      if a.None? {
        NothingWritten(mem, arenas, live);
        return None;
      }
      BigPagesRight(size);
      BigArena(arenas, free, old(pal.live), live, a.value, pageCnt);
      var arenas' := arenas[a.value := Arena(None, pageCnt)];
      SizesKept(arenas, free, old(pal.live), live, None, arenas', live);
      PalDisjoint();
      InvLists(arenas', free, pal.live, live + {a.value * PGSIZE + SIZEOF_ARENA}, None);
      HeaderImage(mem, arenas, free, a.value, Arena(None, pageCnt), descs);
      HeaderOnly(mem, a.value, 0, pageCnt);
      HeaderHarmless(arenas', free, pal.live, live + {a.value * PGSIZE + SIZEOF_ARENA}, None, a.value, mem,
                     PutHeader(mem, a.value, 0, pageCnt));
      KeptBefore(mem, PutHeader(mem, a.value, 0, pageCnt), arenas, arenas', live,
                 live + {a.value * PGSIZE + SIZEOF_ARENA});
      arenas := arenas';
      mem := PutHeader(mem, a.value, 0, pageCnt);
      r := Some(a.value * PGSIZE + SIZEOF_ARENA);
      live := live + {r.value};
    }

    /** Puts every block of a new arena on its free list, in order. */
    method LinkBlocks(a: nat, d: nat, ghost m0: Memory)
      requires d < DESC_CNT && |free| == DESC_CNT && free[d] == []
      requires RangeOnly(m0, mem, a * PGSIZE, (a + 1) * PGSIZE)
      requires Image(mem, arenas, free, descs) && ListsOk(arenas, free) && IsSmall(arenas, a, d)
      modifies this`free, this`mem
      ensures free == old(free)[d := NewList(a, d, BlocksPerArena(d))]
      ensures RangeOnly(m0, mem, a * PGSIZE, (a + 1) * PGSIZE) && Image(mem, arenas, free, descs)
    {
      hide Image;
      hide ListsOk;
      hide IsSmall;
      hide NewList;
      hide ArenaToBlock;
      hide BlocksPerArena;
      hide Linked;
      hide RangeOnly;
      NewListEmpty(a, d);
      var i := 0;
      while i < BlocksPerArena(d)
        invariant 0 <= i <= BlocksPerArena(d)
        invariant free == old(free)[d := NewList(a, d, i)]
        invariant RangeOnly(m0, mem, a * PGSIZE, (a + 1) * PGSIZE) && Image(mem, arenas, free, descs)
      {
        var b := ArenaToBlock(a, d, i);
        LinkInPage(m0, mem, a, d, i, Head(d), Tail(d));
        NewListGrows(a, d, i);
        NewListOk(arenas, old(free), a, d, i + 1);
        assert free[d := free[d] + [b]] == old(free)[d := NewList(a, d, i + 1)];
        PushedBackImage(mem, arenas, free, d, b, descs);
        mem := Linked(mem, free[d], |free[d]|, b, Head(d), Tail(d));
        free := free[d := free[d] + [b]];
        i := i + 1;
      }
    }

    /** A new arena for descriptor d, with all its blocks on the free list. */
    method AddArena(d: nat) returns (a: Option<nat>)
      requires Valid() && d < DESC_CNT && free[d] == []
      modifies this`arenas, this`free, this`mem, pal, pal.kernelMap.bits, pal.userMap.bits
      ensures pal.Valid()
      ensures a.None? <==> NoRoom(old(pal.PoolBits(false)), 1)
      ensures a.None? ==> pal.live == old(pal.live) && arenas == old(arenas) && free == old(free) && mem == old(mem)
      ensures a.Some? ==> a.value in pal.live && pal.live[a.value] == 1
      ensures a.Some? ==> RangeOnly(old(mem), mem, a.value * PGSIZE, (a.value + 1) * PGSIZE)
      ensures Image(mem, arenas, free, descs)
      ensures a.Some? ==>
                && Inv(arenas, free, pal.live, live, a)
                && a.value !in old(arenas) && arenas == old(arenas)[a.value := Arena(Some(d), BlocksPerArena(d))]
                && free == old(free)[d := NewList(a.value, d, BlocksPerArena(d))]
    {
      hide Inv;
      hide NewList;
      hide ArenaToBlock;
      hide BlocksPerArena;
      hide Linked;
      hide PutHeader;
      hide RangeOnly;
      hide Consistent;
      hide AllWords;
      hide Unpacked;
      hide SoundLayout;
      hide Image;
      hide ListsOk;
      hide ArenasOk;
      InvLists(arenas, free, pal.live, live, None);
      a := pal.GetMultiple(false, 1);
      if a.None? {
        return;
      }
      NewArena(arenas, free, old(pal.live), live, a.value, d);
      ListsWith(arenas, free, a.value, Arena(Some(d), BlocksPerArena(d)));
      HeaderImage(mem, arenas, free, a.value, Arena(Some(d), BlocksPerArena(d)), descs);
      arenas := arenas[a.value := Arena(Some(d), BlocksPerArena(d))];
      HeaderOnly(mem, a.value, DescWord(descs, Some(d)), BlocksPerArena(d));
      HeaderInPage(mem, PutHeader(mem, a.value, DescWord(descs, Some(d)), BlocksPerArena(d)), a.value);
      mem := PutHeader(mem, a.value, DescWord(descs, Some(d)), BlocksPerArena(d));
      LinkBlocks(a.value, d, old(mem));
    }

    /** Gets a block from free list d. */
    method TakeBlock(d: nat, ghost slack: Option<nat>) returns (b: nat)
      requires pal.Valid() && Inv(arenas, free, pal.live, live, slack) && Image(mem, arenas, free, descs)
      requires d < DESC_CNT && free[d] != []
      requires slack.Some? ==> BlockToArena(free[d][0]) == slack.value
      modifies this`arenas, this`free, this`live, this`mem
      ensures Valid() && KeptBytes(old(mem), mem, old(arenas), old(live))
      ensures b !in old(live) && live == old(live) + {b}
      ensures IsSmall(old(arenas), BlockToArena(b), d)
      ensures arenas.Keys == old(arenas).Keys
      ensures forall a :: a in arenas ==>
                arenas[a] == old(arenas)[a] || (a == BlockToArena(b) && arenas[a].desc == Some(d))
    {
      hide Inv;
      hide IsBlockAddr;
      hide Consistent;
      hide AllWords;
      hide Unpacked;
      hide SoundLayout;
      hide KeptBytes;
      hide Unlinked;
      hide PutFreeCnt;
      hide Image;
      ListCount(slack);
      b := free[d][0];
      FrontBlock(arenas, free, pal.live, live, slack, d, b);
      var a := BlockToArena(b);
      var freeCnt := arenas[a].freeCnt - 1;
      var arenas' := arenas[a := arenas[a].(freeCnt := freeCnt)];
      PopBlock(arenas, free, pal.live, live, slack, d, b, arenas');
      PalDisjoint();
      TakenBytes(arenas, free, pal.live, live, slack, d, a, freeCnt, mem, Head(d), Tail(d));
      TakenImage(arenas, free, pal.live, live, slack, pal.live, live + {b}, None, a, d, freeCnt, mem, descs);
      mem := Unlinked(mem, free[d], 0, Head(d), Tail(d));
      free := free[d := free[d][1..]];
      mem := PutFreeCnt(mem, a, freeCnt);
      arenas := arenas';
      live := live + {b};
    }

    lemma ListCount(slack: Option<nat>)
      requires Inv(arenas, free, pal.live, live, slack)
      ensures |free| == DESC_CNT
    {
    }

    method MallocSmall(d: nat, size: nat) returns (r: Option<nat>)
      requires Valid() && d < DESC_CNT && 0 < size <= BlockSize(d)
      modifies this, pal, pal.kernelMap.bits, pal.userMap.bits
      ensures Valid() && KeptBytes(old(mem), mem, old(arenas), old(live)) && (r.None? ==> mem == old(mem))
      ensures Allocated(size, old(arenas), old(live), arenas, live, r)
      ensures r.None? <==> d < |old(free)| && old(free)[d] == [] && NoRoom(old(pal.PoolBits(false)), 1)
    {
      hide Inv;
      hide KeptSizes;
      hide KeptBytes;
      hide Consistent;
      hide AllWords;
      hide Unpacked;
      hide SoundLayout;
      hide Image;
      ListCount(None);
      SizesKept(arenas, free, pal.live, live, None, arenas, live);
      NothingWritten(mem, arenas, live);
      ghost var slack: Option<nat> := None;
      if free[d] == [] {
        var a := AddArena(d);
        if a.None? {
          return None;
        }
        slack := a;
        BlockRoundTrip(a.value, d, 0);
        PalDisjoint();
        ghost var page := a.value;
        NewArenaBytes(old(arenas), old(free), old(pal.live), arenas, free, pal.live, live, page, old(mem), mem);
      }
      ghost var arenas1, mem1 := arenas, mem;
      var b := TakeBlock(d, slack);
      SizesKept(old(arenas), old(free), old(pal.live), old(live), None, arenas1, old(live));
      KeptAfter(old(mem), mem1, mem, old(arenas), arenas1, old(live));
      SizesKept(old(arenas), old(free), old(pal.live), old(live), None, arenas, old(live));
      r := Some(b);
    }

    /** Returns the entirely unused arena a: unlinks its blocks, then frees the
        page, which the page allocator overwrites. */
    method ReleaseArena(a: nat, d: nat)
      requires pal.Valid() && Inv(arenas, free, pal.live, live, Some(a)) && Image(mem, arenas, free, descs)
      requires d < DESC_CNT && IsSmall(arenas, a, d) && arenas[a].freeCnt == BlocksPerArena(d)
      modifies this`arenas, this`free, this`mem, pal, pal.kernelMap.bits, pal.userMap.bits
      ensures Valid() && arenas == old(arenas) - {a} && KeptBytes(old(mem), mem, old(arenas), live)
    {
      hide Inv;
      hide IsBlockAddr;
      hide Consistent;
      hide AllWords;
      hide Unpacked;
      hide SoundLayout;
      hide KeptBytes;
      hide MemSet;
      hide Image;
      hide ListsOk;
      hide ArenasOk;
      DropArenaList(arenas, free, pal.live, live, a, d);
      PalDisjoint();
      InvLists(arenas, free, pal.live, live, Some(a));
      UnlinkArena(a, d);
      ReleasedBytes(arenas, old(free), pal.live, live, a, d, old(mem), mem);
      InvLists(arenas - {a}, free, pal.live - {a}, live, None);
      PagesFilled(mem, a, 1);
      DroppedImage(mem, MemSet(mem, a * PGSIZE, PGSIZE, 0xcc), arenas, free, pal.live, a, descs);
      arenas := arenas - {a};
      pal.FreeMultiple(Some(a), 1);
      mem := MemSet(mem, a * PGSIZE, PGSIZE, 0xcc);
    }

    /** list_remove of one block. */
    method UnlinkBlock(d: nat, b: nat)
      requires d < |free| && b in free[d] && Image(mem, arenas, free, descs) && ListsOk(arenas, free)
      modifies this`free, this`mem
      ensures free == old(free)[d := FilterOut(old(free)[d], b, b + 1)] && LinksOnly(old(mem), mem, old(free)[d])
      ensures Image(mem, arenas, free, descs)
    {
      hide Image;
      hide LinksOnly;
      var i :| 0 <= i < |free[d]| && free[d][i] == b;
      UnlinkedOnly(mem, free[d], i, Head(d), Tail(d), free[d]);
      TakenOutImage(mem, arenas, free, d, i, descs);
      FilterOne(free[d], i);
      mem := Unlinked(mem, free[d], i, Head(d), Tail(d));
      free := free[d := FilterOut(free[d], b, b + 1)];
    }

    /** The loop that takes every block of the arena off its list. */
    method UnlinkArena(a: nat, d: nat)
      requires d < |free| && d < DESC_CNT
      requires forall x :: x in free[d] && BlockToArena(x) == a ==> IsBlockAddr(x, d)
      requires forall i :: 0 <= i < BlocksPerArena(d) ==> ArenaToBlock(a, d, i) in free[d]
      requires Image(mem, arenas, free, descs) && ListsOk(arenas, free)
      modifies this`free, this`mem
      ensures free == old(free)[d := FilterOut(old(free)[d], Offset(a, d, 0), Offset(a, d, BlocksPerArena(d)))]
      ensures LinksOnly(old(mem), mem, old(free)[d]) && Image(mem, arenas, free, descs)
    {
      hide IsBlockAddr;
      hide LinksOnly;
      hide Image;
      hide ListsOk;
      ghost var list := free[d];
      FilterNothing(list, Offset(a, d, 0));
      NoLinks(mem, list);
      var i := 0;
      while i < BlocksPerArena(d)
        invariant 0 <= i <= BlocksPerArena(d)
        invariant free == old(free)[d := FilterOut(list, Offset(a, d, 0), Offset(a, d, i))]
        invariant LinksOnly(old(mem), mem, list) && Image(mem, arenas, free, descs)
      {
        ListsFiltered(arenas, old(free), d, Offset(a, d, 0), Offset(a, d, i));
        UnlinkNext(list, a, d, i);
        ghost var mem1, list1 := mem, free[d];
        UnlinkBlock(d, ArenaToBlock(a, d, i));
        LinksFewer(mem1, mem, list1, list);
        LinksTransitive(old(mem), mem1, mem, list);
        i := i + 1;
      }
    }

    method FreeSmall(b: nat, a: nat, d: nat)
      requires Valid() && b in live && a == BlockToArena(b) && IsSmall(arenas, a, d)
      modifies this, pal, pal.kernelMap.bits, pal.userMap.bits
      ensures Valid() && Freed(b, old(arenas), old(live), old(mem), arenas, live, mem)
    {
      hide Inv;
      hide Freed;
      hide Consistent;
      hide AllWords;
      hide Unpacked;
      hide SoundLayout;
      hide KeptBytes;
      hide KeptSizes;
      hide Linked;
      hide PutFreeCnt;
      hide MemSet;
      hide Image;
      PushBlock(arenas, free, pal.live, live, b, d);
      ListCount(None);
      PalDisjoint();
      var freeCnt := arenas[a].freeCnt + 1;
      var free' := free[d := [b] + free[d]];
      var arenas' := arenas[a := arenas[a].(freeCnt := freeCnt)];
      FreedBytes(arenas, free, free', pal.live, live, b, a, d, freeCnt, mem, Head(d), Tail(d));
      FreedImage(arenas, free, pal.live, live, b, a, d, freeCnt, mem, descs);
      mem := MemSet(mem, b, BlockSize(d), 0xcc);
      mem := Linked(mem, free[d], 0, b, Head(d), Tail(d));
      mem := PutFreeCnt(mem, a, freeCnt);
      free, arenas, live := free', arenas', live - {b};
      AllFree(arenas, free, pal.live, live, Some(a), a, d);
      FreedSmall(old(arenas), old(free), pal.live, old(live), b, a, d, arenas, free);
      ghost var mem1 := mem;
      if freeCnt >= BlocksPerArena(d) {
        ReleaseArena(a, d);
        KeptAfter(old(mem), mem1, mem, old(arenas), arenas', live);
      } else {
        Tighten(arenas, free, pal.live, live, a, d);
      }
      FreedIs(b, old(arenas), old(live), old(mem), arenas, live, mem);
    }

    lemma PalDisjoint()
      requires pal.Valid()
      ensures Disjoint(pal.live)
    {
    }

    method FreeBig(b: nat, a: nat)
      requires Valid() && b in live && a == BlockToArena(b) && a in arenas && arenas[a].desc.None?
      modifies this, pal, pal.kernelMap.bits, pal.userMap.bits
      ensures Valid() && Freed(b, old(arenas), old(live), old(mem), arenas, live, mem)
    {
      hide Inv;
      hide Image;
      hide Freed;
      hide Consistent;
      hide MemSet;
      PalDisjoint();
      DropBig(arenas, free, pal.live, live, b);
      FreedBig(arenas, free, pal.live, live, mem, b, a);
      DroppedBig(arenas, free, pal.live, live, b, a, mem, descs);
      var pageCnt := arenas[a].freeCnt;
      arenas := arenas - {a};
      live := live - {b};
      pal.FreeMultiple(Some(a), pageCnt);
      mem := MemSet(mem, a * PGSIZE, PGSIZE * pageCnt, 0xcc);
    }

    /** free; None is a null pointer. */
    method Free(p: Option<nat>)
      requires Valid() && (p.Some? ==> p.value in live)
      modifies this, pal, pal.kernelMap.bits, pal.userMap.bits
      ensures Valid()
      ensures p.Some? ==> Freed(p.value, old(arenas), old(live), old(mem), arenas, live, mem)
      ensures p.None? ==> arenas == old(arenas) && live == old(live) && mem == old(mem)
    {
      if p.Some? {
        var b := p.value;
        assert IsBlock(arenas, b);
        hide Inv;
        hide Image;
        hide Freed;
        hide Consistent;
        var a := BlockToArena(b);
        if arenas[a].desc.Some? {
          FreeSmall(b, a, arenas[a].desc.value);
        } else {
          FreeBig(b, a);
        }
      }
    }

    /** realloc, for a size that does not wrap. */
    method Realloc(oldBlock: Option<nat>, newSize: nat) returns (r: Option<nat>)
      requires Valid() && newSize < SIZE_MAX1
      requires oldBlock.Some? ==> oldBlock.value in live && newSize <= SIZE_MAX1 - SIZEOF_ARENA
      modifies this, pal, pal.kernelMap.bits, pal.userMap.bits
      ensures Valid()
      ensures newSize == 0 ==> r.None?
      ensures newSize > 0 ==> (r.None? <==> Refused(newSize, old(free), old(pal.PoolBits(false))))
      ensures newSize == 0 && oldBlock.Some? ==>
                Freed(oldBlock.value, old(arenas), old(live), old(mem), arenas, live, mem)
      ensures newSize > 0 && (r.None? || oldBlock.None?) ==>
                && Allocated(newSize, old(arenas), old(live), arenas, live, r)
                && KeptBytes(old(mem), mem, old(arenas), old(live)) && (r.None? ==> mem == old(mem))
      ensures newSize > 0 && r.Some? && oldBlock.Some? ==> BlockToArena(oldBlock.value) in old(arenas)
      ensures newSize > 0 && r.Some? && oldBlock.Some? ==>
                Moved(oldBlock.value, r.value, newSize, old(arenas), old(live), old(mem), arenas, live, mem)
    {
      hide Inv;
      hide Image;
      hide Freed;
      hide Consistent;
      hide KeptSizes;
      hide KeptBytes;
      hide Moved;
      hide MemCopy;
      hide Refused;
      hide AllWords;
      hide Unpacked;
      hide SoundLayout;
      if newSize == 0 {
        Free(oldBlock);
        return None;
      }
      r := Malloc(newSize);
      ghost var mem0 := mem;
      if oldBlock.Some? && r.Some? {
        var o, n := oldBlock.value, r.value;
        OldBlockKept(old(arenas), arenas, old(live), o);
        var oldSize := Usable(arenas, o);
        var minSize := if newSize < oldSize then newSize else oldSize;
        PalDisjoint();
        CopyInto(arenas, free, pal.live, live, mem, o, n, minSize);
        ghost var arenas1, live1 := arenas, live;
        CopyWrites(mem, n, o, minSize);
        BlockWritten(arenas, free, pal.live, live, None, mem, MemCopy(mem, n, o, minSize), descs, n, minSize);
        mem := MemCopy(mem, n, o, minSize);
        ghost var mem1 := mem;
        Free(oldBlock);
        MovedBlock(o, n, newSize, minSize, old(arenas), old(live), old(mem), mem0, arenas1, live1, mem1, arenas, live,
                   mem);
      }
    }
  }

  lemma OldBlockKept(arenas: Arenas, arenas': Arenas, live: set<nat>, o: nat)
    requires KeptSizes(arenas, arenas', live) && o in live
    ensures BlockToArena(o) in arenas && BlockToArena(o) in arenas' && Usable(arenas, o) == Usable(arenas', o)
  {
  }

  /** What a realloc() that moves a block promises: the new block is wide enough and
      starts with the old block's bytes, as far as both reach; the old block is
      gone; no other block's bytes change. */
  ghost predicate Moved(o: nat, n: nat, size: nat, arenas: Arenas, live: set<nat>, mem: Memory, arenas': Arenas,
                        live': set<nat>, mem': Memory)
    requires BlockToArena(o) in arenas
  {
    && n !in live && live' == live - {o} + {n}
    && BlockToArena(n) in arenas' && size <= Usable(arenas', n)
    && (var k := if size < Usable(arenas, o) then size else Usable(arenas, o); Bytes(mem', n, k) == Bytes(mem, o, k))
    && (forall c :: c in live && c != o && BlockToArena(c) in arenas ==> SameBytes(mem, mem', c, Usable(arenas, c)))
  }

  /** Copying into a new block leaves the others alone. */
  lemma CopyInto(arenas: Arenas, free: seq<seq<nat>>, groups: Groups, live: set<nat>, mem: Memory, o: nat, n: nat,
                 k: nat)
    requires Inv(arenas, free, groups, live, None) && Disjoint(groups)
    requires o in live && n in live && o != n && BlockToArena(n) in arenas && k <= Usable(arenas, n)
    ensures var mem' := MemCopy(mem, n, o, k);
            forall c :: c in live && c != n && BlockToArena(c) in arenas ==> SameBytes(mem, mem', c, Usable(arenas, c))
  {
    var mem' := MemCopy(mem, n, o, k);
    assert IsBlock(arenas, n);
    forall c | c in live && c != n && BlockToArena(c) in arenas ensures SameBytes(mem, mem', c, Usable(arenas, c)) {
      assert IsBlock(arenas, c);
      if n < c { BlocksSeparate(arenas, groups, n, c); } else { BlocksSeparate(arenas, groups, c, n); }
    }
  }

  lemma CopiedBytes(mem: Memory, mem1: Memory, mem2: Memory, n: nat, o: nat, k: nat, size: nat)
    requires mem1 == MemCopy(mem, n, o, k) && SameBytes(mem1, mem2, n, size) && k <= size
    ensures Bytes(mem2, n, k) == Bytes(mem, o, k)
  {
    var s, t := Bytes(mem2, n, k), Bytes(mem, o, k);
    forall i | 0 <= i < k ensures s[i] == t[i] {
      assert mem2(n + i) == mem1(n + i);
    }
  }

  /** malloc(), memcpy() and free() in a row. */
  lemma MovedBlock(o: nat, n: nat, size: nat, k: nat, arenas: Arenas, live: set<nat>, mem: Memory, mem0: Memory,
                   arenas1: Arenas, live1: set<nat>, mem1: Memory, arenas2: Arenas, live2: set<nat>, mem2: Memory)
    requires o in live && n !in live && live1 == live + {n} && KeptSizes(arenas, arenas1, live)
    requires BlockToArena(n) in arenas1 && size <= Usable(arenas1, n)
    requires BlockToArena(o) in arenas && k == if size < Usable(arenas, o) then size else Usable(arenas, o)
    requires KeptBytes(mem, mem0, arenas, live) && mem1 == MemCopy(mem0, n, o, k)
    requires forall c :: c in live1 && c != n && BlockToArena(c) in arenas1 ==>
               SameBytes(mem0, mem1, c, Usable(arenas1, c))
    requires Freed(o, arenas1, live1, mem1, arenas2, live2, mem2)
    ensures Moved(o, n, size, arenas, live, mem, arenas2, live2, mem2)
  {
    hide Usable;
    hide BlockToArena;
    hide Bytes;
    hide MemCopy;
    CopiedBytes(mem0, mem1, mem2, n, o, k, Usable(arenas1, n));
    SameBytesSlice(mem, mem0, o, Usable(arenas, o), k);
    forall c | c in live && c != o && BlockToArena(c) in arenas ensures SameBytes(mem, mem2, c, Usable(arenas, c)) {
      assert SameBytes(mem, mem0, c, Usable(arenas, c));
      assert SameBytes(mem0, mem1, c, Usable(arenas1, c));
      assert SameBytes(mem1, mem2, c, Usable(arenas1, c));
    }
  }

  lemma SameBytesSlice(m: Memory, m': Memory, o: nat, n: nat, k: nat)
    requires SameBytes(m, m', o, n) && k <= n
    ensures Bytes(m', o, k) == Bytes(m, o, k)
  {
    var s, t := Bytes(m', o, k), Bytes(m, o, k);
    forall i | 0 <= i < k ensures s[i] == t[i] {
      assert m'(o + i) == m(o + i);
    }
  }

  /** What free() promises: the block is gone, every other block keeps its size and
      its bytes, and the arena goes back just when no block of it is left. */
  ghost predicate Freed(b: nat, arenas: Arenas, live: set<nat>, mem: Memory, arenas': Arenas, live': set<nat>,
                        mem': Memory) {
    && live' == live - {b}
    && KeptSizes(arenas, arenas', live')
    && (forall c :: c in live' && BlockToArena(c) in arenas ==> SameBytes(mem, mem', c, Usable(arenas, c)))
    && (BlockToArena(b) in arenas' <==> exists c :: c in live' && BlockToArena(c) == BlockToArena(b))
  }

  lemma {:induction false} FilterNothing(s: seq<nat>, lo: nat)
    ensures FilterOut(s, lo, lo) == s
  {
    if s != [] { FilterNothing(s[1..], lo); }
  }

  /** The invariant once arena a is gone and its blocks are off the list. */
  lemma DropArenaList(arenas: Arenas, free: seq<seq<nat>>, groups: Groups, live: set<nat>, a: nat, d: nat)
    requires Inv(arenas, free, groups, live, Some(a)) && d < DESC_CNT && IsSmall(arenas, a, d)
    requires arenas[a].freeCnt == BlocksPerArena(d)
    ensures |free| == DESC_CNT && a in groups && groups[a] == 1
    ensures forall x :: x in free[d] && BlockToArena(x) == a ==> IsBlockAddr(x, d)
    ensures forall i :: 0 <= i < BlocksPerArena(d) ==> ArenaToBlock(a, d, i) in free[d]
    ensures forall c :: c in live ==> BlockToArena(c) != a
    ensures Inv(arenas - {a}, free[d := FilterOut(free[d], Offset(a, d, 0), Offset(a, d, BlocksPerArena(d)))],
                groups - {a}, live, None)
  {
    var list := FilterOut(free[d], Offset(a, d, 0), Offset(a, d, BlocksPerArena(d)));
    FilterOutNoDup(free[d], Offset(a, d, 0), Offset(a, d, BlocksPerArena(d)));
    forall b ensures b in list <==> b in free[d] && BlockToArena(b) != a {
      UnlinkedAll(free[d], a, d, b);
    }
    DropArena(arenas, free, groups, live, a, d, list);
    AllFree(arenas, free, groups, live, Some(a), a, d);
    forall i | 0 <= i < BlocksPerArena(d) ensures ArenaToBlock(a, d, i) in free[d] {
      BlockRoundTrip(a, d, i);
    }
  }

  /** An arena with a block in use needs no slack. */
  lemma Tighten(arenas: Arenas, free: seq<seq<nat>>, groups: Groups, live: set<nat>, a: nat, d: nat)
    requires Inv(arenas, free, groups, live, Some(a)) && d < DESC_CNT && IsSmall(arenas, a, d)
    requires arenas[a].freeCnt < BlocksPerArena(d)
    ensures Inv(arenas, free, groups, live, None)
  {
  }

  /** A block of another arena stays clear of a whole page group. */
  lemma OtherPage(arenas: Arenas, groups: Groups, c: nat, a: nat)
    requires ArenasOk(arenas, groups) && Disjoint(groups) && IsBlock(arenas, c)
    requires a in arenas && BlockToArena(c) != a
    ensures c + Usable(arenas, c) <= a * PGSIZE || (a + groups[a]) * PGSIZE <= c
  {
    var q := BlockToArena(c);
    BlockInGroup(arenas, groups, c);
    if q < a { assert q + groups[q] <= a; } else { assert a + groups[a] <= q; }
  }

  lemma FreedBig(arenas: Arenas, free: seq<seq<nat>>, groups: Groups, live: set<nat>, mem: Memory, b: nat, a: nat)
    requires Inv(arenas, free, groups, live, None) && Disjoint(groups)
    requires b in live && a == BlockToArena(b) && a in arenas && arenas[a].desc.None?
    ensures Freed(b, arenas, live, mem, arenas - {a}, live - {b},
                  MemSet(mem, a * PGSIZE, PGSIZE * arenas[a].freeCnt, 0xcc))
  {
    assert IsBlock(arenas, b);
    forall c | c in live - {b} ensures IsBlock(arenas, c) && BlockToArena(c) != a {
      assert IsBlock(arenas, c);
    }
    SizesKept(arenas, free, groups, live, None, arenas - {a}, live - {b});
    forall c | c in live - {b} && BlockToArena(c) in arenas
      ensures SameBytes(mem, MemSet(mem, a * PGSIZE, PGSIZE * arenas[a].freeCnt, 0xcc), c, Usable(arenas, c))
    {
      OtherPage(arenas, groups, c, a);
    }
  }

  /** The image without the arena of a big block. */
  lemma DroppedBig(arenas: Arenas, free: seq<seq<nat>>, groups: Groups, live: set<nat>, b: nat, a: nat, mem: Memory,
                   descs: nat)
    requires Inv(arenas, free, groups, live, None) && Disjoint(groups) && Image(mem, arenas, free, descs)
    requires a in arenas && arenas[a].desc.None?
    requires Inv(arenas - {a}, free, groups - {a}, live - {b}, None)
    ensures a in groups && 0 < groups[a] == arenas[a].freeCnt
    ensures Image(MemSet(mem, a * PGSIZE, PGSIZE * arenas[a].freeCnt, 0xcc), arenas - {a}, free, descs)
  {
    hide Inv;
    hide Image;
    hide ListsOk;
    InvLists(arenas, free, groups, live, None);
    InvLists(arenas - {a}, free, groups - {a}, live - {b}, None);
    PagesFilled(mem, a, arenas[a].freeCnt);
    DroppedImage(mem, MemSet(mem, a * PGSIZE, PGSIZE * arenas[a].freeCnt, 0xcc), arenas, free, groups, a, descs);
  }

  /** The two ways free() of a small block can end. */
  lemma FreedSmall(arenas: Arenas, free: seq<seq<nat>>, groups: Groups, live: set<nat>, b: nat, a: nat, d: nat,
                   arenas': Arenas, free': seq<seq<nat>>)
    requires Inv(arenas, free, groups, live, None) && Disjoint(groups)
    requires b in live && a == BlockToArena(b) && IsSmall(arenas, a, d) && d < DESC_CNT
    requires arenas' == arenas[a := arenas[a].(freeCnt := arenas[a].freeCnt + 1)]
    requires Inv(arenas', free', groups, live - {b}, Some(a))
    ensures arenas'[a].freeCnt <= BlocksPerArena(d) && KeptSizes(arenas, arenas', live - {b})
    ensures arenas'[a].freeCnt == BlocksPerArena(d) ==> KeptSizes(arenas, arenas' - {a}, live - {b})
    ensures arenas'[a].freeCnt == BlocksPerArena(d) <==> (forall c: nat :: c in live - {b} ==> BlockToArena(c) != a)
  {
    var rest := live - {b};
    AllFree(arenas', free', groups, rest, Some(a), a, d);
    assert arenas'[a].freeCnt <= BlocksPerArena(d);
    hide Usable;
    hide BlockToArena;
    hide CountsOk;
    hide ListsOk;
    hide LiveOk;
    SizesKept(arenas, free, groups, live, None, arenas', rest);
    if arenas'[a].freeCnt == BlocksPerArena(d) {
      SizesKept(arenas, free, groups, live, None, arenas' - {a}, rest);
    }
  }

  lemma FreedIs(b: nat, arenas: Arenas, live: set<nat>, mem: Memory, arenas': Arenas, live': set<nat>, mem': Memory)
    requires live' == live - {b} && KeptSizes(arenas, arenas', live') && KeptBytes(mem, mem', arenas, live')
    requires BlockToArena(b) in arenas' <==> exists c :: c in live' && BlockToArena(c) == BlockToArena(b)
    ensures Freed(b, arenas, live, mem, arenas', live', mem')
  {
  }

  /** The bytes free() writes before it looks at the arena: the block itself, the links
      around it and the count. */
  lemma FreedBytes(arenas: Arenas, free: seq<seq<nat>>, free': seq<seq<nat>>, groups: Groups, live: set<nat>,
                   b: nat, a: nat, d: nat, freeCnt: nat, mem: Memory, head: nat, tail: nat)
    requires Inv(arenas, free, groups, live, None) && Disjoint(groups) && |free| == DESC_CNT
    requires b in live && a == BlockToArena(b) && IsSmall(arenas, a, d) && d < DESC_CNT
             && free' == free[d := [b] + free[d]]
    requires Inv(arenas[a := arenas[a].(freeCnt := freeCnt)], free', groups, live - {b}, Some(a))
    ensures var mem1 := Linked(MemSet(mem, b, BlockSize(d), 0xcc), free[d], 0, b, head, tail);
            KeptBytes(mem, PutFreeCnt(mem1, a, freeCnt), arenas, live - {b})
  {
    hide Inv;
    hide KeptBytes;
    hide KeptSizes;
    hide Linked;
    var arenas', rest := arenas[a := arenas[a].(freeCnt := freeCnt)], live - {b};
    var m1 := MemSet(mem, b, BlockSize(d), 0xcc);
    var m2 := Linked(m1, free[d], 0, b, head, tail);
    var m3 := PutFreeCnt(m2, a, freeCnt);
    BytesOutsideBlock(arenas, free, groups, live, mem, b, d);
    SizesKept(arenas, free, groups, live, None, arenas', rest);
    LinkedOnly(m1, free[d], 0, b, head, tail, free'[d]);
    LinksHarmless(arenas', free', groups, rest, Some(a), d, m1, m2);
    KeptAfter(mem, m1, m2, arenas, arenas', rest);
    HeaderHarmless(arenas', free', groups, rest, Some(a), a, m2, m3);
    KeptAfter(mem, m2, m3, arenas, arenas', rest);
  }

  /** The bytes that taking the front block off its list writes. */
  lemma TakenBytes(arenas: Arenas, free: seq<seq<nat>>, groups: Groups, live: set<nat>, slack: Option<nat>, d: nat,
                   a: nat, freeCnt: nat, mem: Memory, head: nat, tail: nat)
    requires Inv(arenas, free, groups, live, slack) && Disjoint(groups) && d < DESC_CNT && |free| == DESC_CNT
             && free[d] != [] && a in arenas
    ensures KeptBytes(mem, PutFreeCnt(Unlinked(mem, free[d], 0, head, tail), a, freeCnt), arenas, live)
  {
    hide Inv;
    hide KeptBytes;
    hide Unlinked;
    var m1 := Unlinked(mem, free[d], 0, head, tail);
    var m2 := PutFreeCnt(m1, a, freeCnt);
    UnlinkedOnly(mem, free[d], 0, head, tail, free[d]);
    LinksHarmless(arenas, free, groups, live, slack, d, mem, m1);
    HeaderHarmless(arenas, free, groups, live, slack, a, m1, m2);
    KeptTransitive(mem, m1, m2, arenas, live);
  }

  /** The bytes of a new arena's page. */
  lemma NewArenaBytes(arenas: Arenas, free: seq<seq<nat>>, groups: Groups, arenas': Arenas, free': seq<seq<nat>>,
                      groups': Groups, live: set<nat>, a: nat, mem: Memory, mem': Memory)
    requires Inv(arenas, free, groups, live, None) && Inv(arenas', free', groups', live, Some(a)) && Disjoint(groups')
    requires a !in arenas && a in arenas' && arenas' == arenas[a := arenas'[a]] && a in groups' && groups'[a] == 1
    requires RangeOnly(mem, mem', a * PGSIZE, (a + 1) * PGSIZE)
    ensures KeptBytes(mem, mem', arenas, live)
  {
    forall c | c in live ensures BlockToArena(c) != a {
      assert IsBlock(arenas, c);
    }
    PagesHarmless(arenas', free', groups', live, Some(a), a, mem, mem');
  }

  /** The bytes that giving an arena back writes. */
  lemma ReleasedBytes(arenas: Arenas, free: seq<seq<nat>>, groups: Groups, live: set<nat>, a: nat, d: nat,
                      mem: Memory, mem': Memory)
    requires Inv(arenas, free, groups, live, Some(a)) && Disjoint(groups) && d < DESC_CNT && |free| == DESC_CNT
    requires a in arenas && a in groups && groups[a] == 1 && forall c :: c in live ==> BlockToArena(c) != a
    requires LinksOnly(mem, mem', free[d])
    ensures KeptBytes(mem, MemSet(mem', a * PGSIZE, PGSIZE, 0xcc), arenas, live)
  {
    hide Inv;
    hide KeptBytes;
    var mem'' := MemSet(mem', a * PGSIZE, PGSIZE, 0xcc);
    LinksHarmless(arenas, free, groups, live, Some(a), d, mem, mem');
    PagesHarmless(arenas, free, groups, live, Some(a), a, mem', mem'');
    KeptTransitive(mem, mem', mem'', arenas, live);
  }

  lemma PagesFilled(m: Memory, a: nat, n: nat)
    ensures RangeOnly(m, MemSet(m, a * PGSIZE, PGSIZE * n, 0xcc), a * PGSIZE, (a + n) * PGSIZE)
  {
  }

  lemma CopyWrites(m: Memory, n: nat, o: nat, k: nat)
    ensures RangeOnly(m, MemCopy(m, n, o, k), n, n + k)
  {
  }

  lemma NothingWritten(m: Memory, arenas: Arenas, live: set<nat>)
    ensures KeptBytes(m, m, arenas, live)
  {
  }

  lemma NoLinks(m: Memory, s: seq<nat>)
    ensures LinksOnly(m, m, s)
  {
  }

  lemma LinksFewer(m: Memory, m': Memory, s: seq<nat>, s': seq<nat>)
    requires LinksOnly(m, m', s) && forall x :: x in s ==> x in s'
    ensures LinksOnly(m, m', s')
  {
    forall x: nat | m'(x) != m(x) ensures InLink(s', x) {
      assert InLink(s, x);
    }
  }

  lemma HeaderOnly(m: Memory, a: nat, desc: nat, freeCnt: nat)
    ensures RangeOnly(m, PutHeader(m, a, desc, freeCnt), a * PGSIZE, a * PGSIZE + SIZEOF_ARENA)
  {
  }

  lemma HeaderInPage(m: Memory, m': Memory, a: nat)
    requires RangeOnly(m, m', a * PGSIZE, a * PGSIZE + SIZEOF_ARENA)
    ensures RangeOnly(m, m', a * PGSIZE, (a + 1) * PGSIZE)
  {
  }

  lemma NewListEmpty(a: nat, d: nat)
    requires d < DESC_CNT
    ensures NewList(a, d, 0) == []
  {
  }

  /** list_push_back of block i of a new arena: its neighbour is block i - 1. */
  lemma LinkInPage(m: Memory, m': Memory, a: nat, d: nat, i: nat, head: nat, tail: nat)
    requires d < DESC_CNT && i < BlocksPerArena(d) && RangeOnly(m, m', a * PGSIZE, (a + 1) * PGSIZE)
    ensures RangeOnly(m, Linked(m', NewList(a, d, i), i, ArenaToBlock(a, d, i), head, tail), a * PGSIZE,
                      (a + 1) * PGSIZE)
  {
    hide Linked;
    hide NewList;
    hide ArenaToBlock;
    hide InLink;
    var r, s, b := NewList(a, d, i), NewList(a, d, i + 1), ArenaToBlock(a, d, i);
    NewListGrows(a, d, i);
    var m'' := Linked(m', r, i, b, head, tail);
    LinkedOnly(m', r, i, b, head, tail, s);
    forall x: nat | m''(x) != m(x) ensures a * PGSIZE <= x < (a + 1) * PGSIZE {
      if m''(x) != m'(x) { LinkOfNewBlock(a, d, i + 1, x); }
    }
  }

  lemma NewListGrows(a: nat, d: nat, i: nat)
    requires d < DESC_CNT && i < BlocksPerArena(d)
    ensures |NewList(a, d, i)| == i && NewList(a, d, i + 1) == NewList(a, d, i) + [ArenaToBlock(a, d, i)]
  {
  }

  lemma LinkOfNewBlock(a: nat, d: nat, n: nat, x: nat)
    requires d < DESC_CNT && n <= BlocksPerArena(d) && InLink(NewList(a, d, n), x)
    ensures a * PGSIZE <= x < (a + 1) * PGSIZE
  {
    var s := NewList(a, d, n);
    var b :| b in s && b <= x < b + SIZEOF_LINK;
    var j :| 0 <= j < |s| && s[j] == b;
    InBounds(d, j);
    MulMono(0, j, BlockSize(d));
  }

  /** Bytes kept in a later state of the arenas are kept. */
  lemma KeptBefore(m: Memory, m': Memory, arenas: Arenas, arenas': Arenas, live: set<nat>, live': set<nat>)
    requires KeptSizes(arenas, arenas', live) && live <= live' && KeptBytes(m, m', arenas', live')
    ensures KeptBytes(m, m', arenas, live)
  {
    hide Usable;
    hide BlockToArena;
  }

  lemma KeptAfter(m: Memory, m': Memory, m'': Memory, arenas: Arenas, arenas': Arenas, live: set<nat>)
    requires KeptSizes(arenas, arenas', live) && KeptBytes(m, m', arenas, live) && KeptBytes(m', m'', arenas', live)
    ensures KeptBytes(m, m'', arenas, live)
  {
    KeptBefore(m', m'', arenas, arenas', live, live);
    KeptTransitive(m, m', m'', arenas, live);
  }

  lemma BytesOutsideBlock(arenas: Arenas, free: seq<seq<nat>>, groups: Groups, live: set<nat>, mem: Memory, b: nat,
                          d: nat)
    requires Inv(arenas, free, groups, live, None) && Disjoint(groups)
    requires b in live && IsSmall(arenas, BlockToArena(b), d) && d < DESC_CNT
    ensures KeptBytes(mem, MemSet(mem, b, BlockSize(d), 0xcc), arenas, live - {b})
  {
    assert IsBlock(arenas, b) && Usable(arenas, b) == BlockSize(d);
    forall c | c in live - {b} && BlockToArena(c) in arenas
      ensures SameBytes(mem, MemSet(mem, b, BlockSize(d), 0xcc), c, Usable(arenas, c))
    {
      assert IsBlock(arenas, c);
      if b < c { BlocksSeparate(arenas, groups, b, c); } else { BlocksSeparate(arenas, groups, c, b); }
    }
  }
}
