/** The paging operations as they update the frame table, the page tables, the user
    pool and the swap device in place, each proved to compute the step it stands for
    in Paging. */
module PagingImpl {
  import opened Common
  import opened Inode
  import opened Clock
  import opened Paging
  import Bitmaps

  /** Sector i of a page. */
  function PageSector(page: PageBytes, i: nat): Sector
    requires i < SECTORS_PER_PAGE
  {
    page[SECTOR * i..SECTOR * i + SECTOR]
  }

  /** Writing the eight sectors of a slot is storing the page in it. */
  lemma SectorsStore(swap: seq<Sector>, swap': seq<Sector>, slot: nat, page: PageBytes)
    requires SlotFits(swap, slot) && |swap'| == |swap|
    requires forall k :: 0 <= k < |swap| ==>
      swap'[k] == if SECTORS_PER_PAGE * slot <= k < SECTORS_PER_PAGE * slot + SECTORS_PER_PAGE
                  then PageSector(page, k - SECTORS_PER_PAGE * slot) else swap[k]
    ensures swap' == SlotStored(swap, slot, page)
  {
    var at := SECTOR * (SECTORS_PER_PAGE * slot);
    var r := SlotStored(swap, slot, page);
    forall k | 0 <= k < |swap| ensures swap'[k] == r[k] {
      assert r[k] == OverwriteSector(swap, at, page, k);
    }
  }

  /** Reading them is reading the slot. */
  lemma SectorsLoad(swap: seq<Sector>, slot: nat, page: PageBytes)
    requires SlotFits(swap, slot)
    requires forall i :: 0 <= i < SECTORS_PER_PAGE ==> PageSector(page, i) == swap[SECTORS_PER_PAGE * slot + i]
    ensures page == SlotContent(swap, slot)
  {
    var c, lo := SlotContent(swap, slot), SECTOR * (SECTORS_PER_PAGE * slot);
    forall j: nat | j < PGSIZE ensures page[j] == c[j] {
      assert page[j] == PageSector(page, j / SECTOR)[j % SECTOR];
      assert c[j] == Flat(swap)[lo + j] == ByteAt(swap, lo + j);
      assert (lo + j) / SECTOR == SECTORS_PER_PAGE * slot + j / SECTOR && (lo + j) % SECTOR == j % SECTOR;
    }
  }

  class VirtualMemory {
    var spt: map<Page, Entry>
    var pd: map<Page, Pte>
    var tables: set<(nat, nat)>
    var frames: seq<Frame>
    var hand: Hand
    var mem: map<nat, PageBytes>
    var free: set<nat>
    const swapTable: Bitmaps.Bitmap
    const swapBlock: Device
    var files: map<nat, seq<Byte>>
    const denied: set<nat>

    /** frame_init and swap_init: nothing mapped, every slot free. */
    constructor (mem: map<nat, PageBytes>, swapTable: Bitmaps.Bitmap, swapBlock: Device, files: map<nat, seq<Byte>>,
                 denied: set<nat>)
      requires swapTable.Valid() && swapTable.Value() == seq(swapTable.bitCnt, _ => false)
      requires SECTORS_PER_PAGE * swapTable.bitCnt <= |swapBlock.sectors| && TwoPages(mem.Keys)
      ensures this.swapTable == swapTable && this.swapBlock == swapBlock && Init(State())
    {
      spt, pd, tables, frames, hand, free := map[], map[], {}, [], Null, mem.Keys;
      this.mem, this.swapTable, this.swapBlock, this.files, this.denied := mem, swapTable, swapBlock, files, denied;
    }

    ghost function State(): Vm
      requires swapTable.Valid()
      reads this, swapBlock, swapTable.bits
    {
      Vm(spt, pd, tables, frames, hand, mem, free, swapTable.Value(), swapBlock.sectors, files, denied)
    }

    ghost predicate Valid()
      reads this, swapBlock, swapTable.bits
    {
      swapTable.Valid() && Inv(State())
    }

    /** swap_out: the slot, or None where swap is full. */
    method SwapOut(page: PageBytes) returns (r: Option<nat>)
      requires swapTable.Valid()
      requires forall i :: 0 <= i < swapTable.bitCnt ==> SlotFits(swapBlock.sectors, i)
      modifies swapBlock, swapTable.bits
      ensures swapTable.Valid() && r == Bitmaps.FirstFit(old(swapTable.Value()), 0, 1, false)
      ensures r.None? ==> swapTable.Value() == old(swapTable.Value()) && swapBlock.sectors == old(swapBlock.sectors)
      ensures r.Some? ==> r.value < swapTable.bitCnt && SlotFits(old(swapBlock.sectors), r.value)
      ensures r.Some? ==> swapTable.Value() == old(swapTable.Value())[r.value := true]
      ensures r.Some? ==> swapBlock.sectors == SlotStored(old(swapBlock.sectors), r.value, page)
    {
      ghost var was, swap := swapTable.Value(), swapBlock.sectors;
      r := swapTable.ScanAndFlip(0, 1, false);
      if r.Some? {
        var slot := r.value;
        assert Bitmaps.Filled(was, slot, 1, true) == was[slot := true];
        assert SlotFits(swap, slot);
        var i := 0;
        while i < SECTORS_PER_PAGE
          modifies swapBlock
          invariant 0 <= i <= SECTORS_PER_PAGE && |swapBlock.sectors| == |swap|
          invariant forall k :: 0 <= k < |swap| ==>
                      swapBlock.sectors[k]
                      == if SECTORS_PER_PAGE * slot <= k < SECTORS_PER_PAGE * slot + i
                         then PageSector(page, k - SECTORS_PER_PAGE * slot) else swap[k]
        {
          swapBlock.BlockWrite(SECTORS_PER_PAGE * slot + i, PageSector(page, i));
          i := i + 1;
        }
        SectorsStore(swap, swapBlock.sectors, slot, page);
      }
    }

    /** swap_in into a frame; false where the slot is free and the kernel panics. */
    method SwapIn(slot: nat, kpage: nat) returns (ok: bool)
      requires swapTable.Valid() && slot < swapTable.bitCnt && SlotFits(swapBlock.sectors, slot) && kpage in mem
      modifies this`mem, swapTable.bits
      ensures swapTable.Valid() && ok == old(swapTable.Value())[slot]
      ensures !ok ==> mem == old(mem) && swapTable.Value() == old(swapTable.Value())
      ensures ok ==> mem == old(mem)[kpage := SlotContent(swapBlock.sectors, slot)]
      ensures ok ==> swapTable.Value() == old(swapTable.Value())[slot := false]
    {
      hide SlotContent;
      ok := swapTable.Test(slot);
      if !ok {
        return;
      }
      var page := ReadSlot(slot, mem[kpage]);
      mem := mem[kpage := page];
      swapTable.Reset(slot);
    }

    /** The loop over the eight sectors of a slot. */
    method ReadSlot(slot: nat, was: PageBytes) returns (page: PageBytes)
      requires SlotFits(swapBlock.sectors, slot)
      ensures page == SlotContent(swapBlock.sectors, slot)
    {
      hide SlotContent;
      hide PageSector;
      page := was;
      var i := 0;
      while i < SECTORS_PER_PAGE
        invariant 0 <= i <= SECTORS_PER_PAGE
        invariant forall j :: 0 <= j < i ==> PageSector(page, j) == swapBlock.sectors[SECTORS_PER_PAGE * slot + j]
      {
        var s := swapBlock.BlockRead(SECTORS_PER_PAGE * slot + i);
        page := WithSector(page, i, s);
        i := i + 1;
      }
      SectorsLoad(swapBlock.sectors, slot, page);
    }

    /** The clock loop of evict_frame. */
    method FindVictim() returns (v: Option<nat>)
      requires |frames| > 0 && HandOk(hand, |frames|) && forall i :: 0 <= i < |frames| ==> frames[i].page in pd
      modifies this`hand, this`pd
      ensures var r := Sweep(frames, Accessed(old(pd)), StartOf(old(hand)), 2 * |frames|);
              v == r.1 && pd == WithAccessed(old(pd), r.0)
      ensures v.Some? ==> hand == At(v.value)
    {
      hide Accessed;
      hide WithAccessed;
      if hand == Null || hand == End {
        hand := At(0);
      }
      v := None;
      var iterations, maxIterations := 0, 2 * |frames|;
      AccessedSame(pd);
      while iterations < maxIterations
        invariant 0 <= iterations <= maxIterations && hand.At? && hand.i < |frames|
        invariant pd.Keys == old(pd).Keys && pd == WithAccessed(old(pd), Accessed(pd))
        invariant Sweep(frames, Accessed(pd), hand.i, maxIterations - iterations)
               == Sweep(frames, Accessed(old(pd)), StartOf(old(hand)), maxIterations)
      {
        var entry := frames[hand.i];
        if !entry.pinned {
          AccessedIs(pd, entry.page);
          if pd[entry.page].accessed {
            AccessedCleared(old(pd), pd, entry.page);
            pd := pd[entry.page := pd[entry.page].(accessed := false)];
          } else {
            v := Some(hand.i);
            break;
          }
        }
        hand := At(Next(hand.i, |frames|));
        iterations := iterations + 1;
      }
    }

    /** evict_frame from the update of the supplemental page table on: where the
        victim's contents go.  False where swap is full. */
    method WritePageOut(p: Page, kpage: nat, dirty: bool, env: Env) returns (ok: bool)
      requires swapTable.Valid() && p in spt && kpage in mem
      requires forall i :: 0 <= i < swapTable.bitCnt ==> SlotFits(swapBlock.sectors, i)
      modifies this`spt, this`files, swapBlock, swapTable.bits
      ensures swapTable.Valid()
      ensures ok <==> WriteOut(old(State()), p, kpage, dirty, env).Some?
      ensures ok ==> State() == WriteOut(old(State()), p, kpage, dirty, env).value
    {
      hide SlotStored;
      hide WrittenBack;
      ghost var was := spt;
      var e := spt[p].(loaded := false, kpage := 0);
      spt := spt[p := e];
      if e.kind == Mmap {
        if dirty {
          files := WrittenBack(files, denied, e, mem[kpage], env.wrote);
        }
      } else if dirty || e.writable {
        var slot := SwapOut(mem[kpage]);
        if slot.None? {
          return false;
        }
        spt := spt[p := e.(kind := Swap, slot := slot.value)];
        assert spt == was[p := e.(kind := Swap, slot := slot.value)];
      }
      ok := true;
    }

    /** list_remove and free of entry i.  The hand is a pointer: it stays where it is,
        and dangles if it points to that entry. */
    method RemoveFrame(i: nat)
      requires i < |frames|
      modifies this`frames, this`hand
      ensures frames == Without(old(frames), i) && hand == Reindexed(old(hand), i)
    {
      DropIs(frames, i);
      frames := frames[..i] + frames[i + 1..];
      hand := Reindexed(hand, i);
    }

    /** The victim's page table entry goes, the hand moves on, and the victim leaves the
        table. */
    method UnmapVictim(v: nat) returns (dirty: bool)
      requires v < |frames| && frames[v].page in pd
      modifies this`pd, this`hand, this`frames
      ensures dirty == old(pd)[old(frames)[v].page].dirty && pd == old(pd) - {old(frames)[v].page}
      ensures frames == Without(old(frames), v) && hand == Reindexed(At(Next(v, |old(frames)|)), v)
    {
      var page := frames[v].page;
      dirty := pd[page].dirty;
      pd := pd - {page};
      hand := At(Next(v, |frames|));
      RemoveFrame(v);
    }

    /** evict_frame: the page of the victim, or None where the kernel panics. */
    method EvictFrame(env: Env) returns (r: Option<nat>)
      requires Valid()
      modifies this`spt, this`pd, this`frames, this`hand, this`files, swapBlock, swapTable.bits
      ensures swapTable.Valid()
      ensures r.Some? <==> Evict(old(State()), env).Some?
      ensures r.Some? ==> (State(), r.value) == Evict(old(State()), env).value
    {
      hide Holding;
      hide Sweep;
      hide WriteOut;
      hide WithAccessed;
      hide Accessed;
      hide Without;
      hide Reindexed;
      hide Bitmaps.Unpacked;
      hide Bitmaps.AllWords;
      ghost var vm := State();
      TableReady(vm);
      if frames == [] {
        return None;
      }
      var v := FindVictim();
      if v.None? {
        return None;
      }
      VictimMapped(vm, v.value);
      var f := frames[v.value];
      ghost var accessed := Sweep(vm.frames, Accessed(vm.pd), StartOf(vm.hand), 2 * |vm.frames|).0;
      DirtyKept(vm.pd, pd, accessed, f.page);
      var dirty := UnmapVictim(v.value);
      assert State() == Unmapped(vm, accessed, v.value);
      var ok := WritePageOut(f.page, f.kpage, dirty, env);
      if !ok {
        return None;
      }
      r := Some(f.kpage);
    }

    /** frame_alloc: the new frame joins the table; None where there is no memory for
        its entry. */
    method FrameAlloc(p: Page, env: Env) returns (panic: bool, r: Option<nat>)
      requires Valid() && (free != {} ==> env.kpage in free)
      modifies this`spt, this`pd, this`frames, this`hand, this`files, this`free, swapBlock, swapTable.bits
      ensures swapTable.Valid()
      ensures panic <==> Obtain(old(State()), env).None?
      ensures !panic ==> var (vm, k) := Obtain(old(State()), env).value;
                         if env.malloc then r == Some(k) && State() == vm.(frames := vm.frames + [Frame(k, p, false)])
                         else r == None && k in vm.mem && State() == GiveBack(vm, k, vm.mem[k])
    {
      hide Holding;
      hide Evict;
      ghost var vm0 := State();
      panic, r := false, None;
      var kpage := env.kpage;
      if free != {} {
        free := free - {kpage};
      } else {
        var evicted := EvictFrame(env);
        if evicted.None? {
          return true, None;
        }
        kpage := evicted.value;
      }
      ObtainKeeps(vm0, env);
      if !env.malloc {
        SameMem(mem, kpage);
        free := free + {kpage};
        return false, None;
      }
      frames := frames + [Frame(kpage, p, false)];
      r := Some(kpage);
    }

    /** frame_free: takes the frame out of the table, moves the hand off it, and gives
        the page back. */
    method FrameFree(kpage: nat)
      modifies this`frames, this`hand, this`free
      ensures free == old(free) + {kpage}
      ensures var i := FrameIndex(old(frames), kpage, 0);
              if i < |old(frames)|
              then frames == Without(old(frames), i) && hand == FreedHand(old(hand), i, |old(frames)|)
              else frames == old(frames) && hand == old(hand)
    {
      var i := 0;
      while i < |frames| && frames[i].kpage != kpage
        invariant 0 <= i <= |frames| && FrameIndex(frames, kpage, 0) == FrameIndex(frames, kpage, i)
        invariant frames == old(frames) && hand == old(hand) && free == old(free)
      {
        i := i + 1;
      }
      if i < |frames| {
        if hand == At(i) {
          hand := At(Next(i, |frames|));
        }
        RemoveFrame(i);
      }
      free := free + {kpage};
    }

    /** spt_load_page; panic where the kernel panics. */
    method SptLoadPage(p: Page, env: Env) returns (panic: bool, success: bool)
      requires Valid() && (free != {} ==> env.kpage in free)
      modifies this, swapBlock, swapTable.bits
      ensures swapTable.Valid()
      ensures panic <==> Load(old(State()), p, env).None?
      ensures !panic ==> Valid() && (State(), success) == Load(old(State()), p, env).value
    {
      hide Holding;
      hide FillFrame;
      hide Obtain;
      hide SameView;
      ghost var vm0 := State();
      if p !in spt || spt[p].loaded {
        return false, false;
      }
      var kpage;
      panic, kpage := FrameAlloc(p, env);
      if panic {
        return true, false;
      }
      ObtainKeeps(vm0, env);
      if kpage.None? {
        LoadKeeps(vm0, p, env);
        return false, false;
      }
      ghost var vm := Obtain(vm0, env).value.0;
      FillKeeps(vm, p, kpage.value, env);
      LoadKeeps(vm0, p, env);
      success := Fill(p, kpage.value, env, vm);
    }

    /** The file branch: file_read, then zeros. */
    method FillFromFile(e: Entry, kpage: nat, got: nat) returns (ok: bool)
      requires kpage in mem && e.readBytes + e.zeroBytes <= PGSIZE
      requires ReadCount(files, e, got) == ReadCount(files, e, ReadCount(files, e, got))
      modifies this`mem
      ensures ok <==> ReadCount(files, e, got) == e.readBytes
      ensures mem == old(mem)[kpage := Filled(files, e, old(mem)[kpage], ReadCount(files, e, got))]
    {
      ghost var was := mem;
      var n := ReadCount(files, e, got);
      mem := mem[kpage := ReadInto(files, e, mem[kpage], n)];
      ok := n == e.readBytes;
      if ok {
        mem := mem[kpage := ZeroBehind(e, mem[kpage])];
        assert mem == was[kpage := Filled(files, e, was[kpage], n)];
      }
    }

    /** pagedir_set_page and the update of the entry; if there is no memory for a page
        table the frame is given back. */
    method InstallPage(p: Page, e: Entry, kpage: nat, env: Env) returns (success: bool)
      requires swapTable.Valid()
      modifies this`spt, this`pd, this`tables, this`frames, this`hand, this`free
      ensures success <==> Table(p) in old(tables) || env.table
      ensures success ==>
                State() == old(State()).(pd := old(pd)[p := Pte(kpage, e.writable, false, false)],
                                         tables := old(tables) + {Table(p)},
                                         spt := old(spt)[p := e.(kpage := kpage, loaded := true)])
      ensures !success ==>
                && free == old(free) + {kpage} && unchanged(`spt) && unchanged(`pd) && unchanged(`tables)
                && var i := FrameIndex(old(frames), kpage, 0);
                   if i < |old(frames)|
                   then frames == Without(old(frames), i) && hand == FreedHand(old(hand), i, |old(frames)|)
                   else frames == old(frames) && hand == old(hand)
    {
      success := Table(p) in tables || env.table;
      if !success {
        FrameFree(kpage);
        return;
      }
      pd := pd[p := Pte(kpage, e.writable, false, false)];
      tables := tables + {Table(p)};
      spt := spt[p := e.(kpage := kpage, loaded := true)];
    }

    /** The page's contents, by its kind. */
    method FillBytes(e: Entry, kpage: nat, got: nat) returns (ok: bool)
      requires swapTable.Valid() && kpage in mem
      requires e.kind == File || e.kind == Mmap ==> e.readBytes + e.zeroBytes == PGSIZE
      requires ReadCount(files, e, got) == ReadCount(files, e, ReadCount(files, e, got))
      requires e.kind == Swap ==>
                 e.slot < swapTable.bitCnt && swapTable.Value()[e.slot] && SlotFits(swapBlock.sectors, e.slot)
      modifies this`mem, swapTable.bits
      ensures swapTable.Valid() && (ok <==> e.kind == Zero || e.kind == Swap || ReadCount(files, e, got) == e.readBytes)
      ensures swapTable.Value()
              == if e.kind == Swap then old(swapTable.Value())[e.slot := false] else old(swapTable.Value())
      ensures mem == old(mem)[kpage :=
                match e.kind
                case Zero => ZeroPage()
                case Swap => SlotContent(swapBlock.sectors, e.slot)
                case _ => Filled(files, e, old(mem)[kpage], ReadCount(files, e, got))]
    {
      hide SlotContent;
      hide Filled;
      hide ReadCount;
      if e.kind == File || e.kind == Mmap {
        ok := FillFromFile(e, kpage, got);
      } else if e.kind == Zero {
        mem := mem[kpage := ZeroPage()];
        ok := true;
      } else {
        ok := SwapIn(e.slot, kpage);
      }
    }

    /** spt_load_page from the point where it has a frame. */
    method Fill(p: Page, kpage: nat, env: Env, ghost vm: Vm) returns (success: bool)
      requires swapTable.Valid() && Holding(vm, {kpage}) && kpage in vm.mem && p in vm.spt && !vm.spt[p].loaded
      requires State() == vm.(frames := vm.frames + [Frame(kpage, p, false)])
      modifies this, swapTable.bits
      ensures swapTable.Valid() && Some((State(), success)) == FillFrame(vm, p, kpage, env)
    {
      hide Holding;
      hide SlotContent;
      hide Without;
      hide FrameIndex;
      hide FreedHand;
      hide Filled;
      hide ReadCount;
      var e := spt[p];
      EntrySizes(vm, {kpage}, p);
      SwapReady(vm, {kpage}, p);
      FreeLast(vm, p, kpage);
      ReadCountFixed(files, e, env.got);
      success := FillBytes(e, kpage, env.got);
      if !success {
        FrameFree(kpage);
        return;
      }
      success := InstallPage(p, e, kpage, env);
    }
  }

  /** file_read into the page. */
  function ReadInto(files: map<nat, seq<Byte>>, e: Entry, page: PageBytes, n: nat): PageBytes
    requires n == ReadCount(files, e, n) && n <= PGSIZE
  {
    Patch(page, 0, FileBytes(files, e, n))
  }

  /** memset behind what was read. */
  function ZeroBehind(e: Entry, page: PageBytes): PageBytes
    requires e.readBytes + e.zeroBytes <= PGSIZE
  {
    Patch(page, e.readBytes, seq(e.zeroBytes, _ => 0))
  }

  /** find_frame. */
  function FrameIndex(frames: seq<Frame>, kpage: nat, i: nat): nat
    requires i <= |frames|
    decreases |frames| - i
  {
    if i == |frames| || frames[i].kpage == kpage then i else FrameIndex(frames, kpage, i + 1)
  }

  /** Where frame_free leaves the hand when it takes out entry i of n. */
  function FreedHand(hand: Hand, i: nat, n: nat): Hand
    requires i < n
  {
    Reindexed(if hand == At(i) then At(Next(i, n)) else hand, i)
  }

  /** frame_free leaves the hand on an entry of the table unless it frees the only
      frame while the hand is on it. */
  lemma FreedHandStays(hand: Hand, i: nat, n: nat)
    requires i < n && HandOk(hand, n)
    ensures HandOk(FreedHand(hand, i, n), n - 1) <==> !(n == 1 && hand == At(i))
  {
  }

  lemma {:induction false} FrameIndexLast(frames: seq<Frame>, f: Frame, i: nat)
    requires i <= |frames| && f.kpage !in KpagesOf(frames)
    ensures FrameIndex(frames + [f], f.kpage, i) == |frames|
    decreases |frames| - i
  {
    if i < |frames| {
      KpageListed(frames, i);
      FrameIndexLast(frames, f, i + 1);
    }
  }

  /** Freeing the frame that was just added leaves the table as it was. */
  lemma FreeLast(vm: Vm, p: Page, k: nat)
    requires Holding(vm, {k})
    ensures var frames := vm.frames + [Frame(k, p, false)];
            && FrameIndex(frames, k, 0) == |vm.frames| < |frames|
            && Without(frames, |vm.frames|) == vm.frames
            && FreedHand(vm.hand, |vm.frames|, |frames|) == vm.hand
  {
    hide Holding;
    HeldNotListed(vm, k);
    FrameIndexLast(vm.frames, Frame(k, p, false), 0);
  }

  lemma HeldNotListed(vm: Vm, k: nat)
    requires Holding(vm, {k})
    ensures k !in KpagesOf(vm.frames) && HandOk(vm.hand, |vm.frames|)
  {
  }

  lemma DropIs(frames: seq<Frame>, i: nat)
    requires i < |frames|
    ensures frames[..i] + frames[i + 1..] == Without(frames, i)
  {
  }

  lemma SameMem(mem: map<nat, PageBytes>, k: nat)
    requires k in mem
    ensures mem[k := mem[k]] == mem
  {
  }

  lemma TableReady(vm: Vm)
    requires Inv(vm)
    ensures HandOk(vm.hand, |vm.frames|)
    ensures forall i :: 0 <= i < |vm.frames| ==> vm.frames[i].page in vm.pd
  {
  }

  lemma DirtyKept(was: map<Page, Pte>, pd: map<Page, Pte>, accessed: set<Page>, p: Page)
    requires p in was && pd == WithAccessed(was, accessed)
    ensures p in pd && pd[p].dirty == was[p].dirty
  {
  }

  function WithSector(page: PageBytes, i: nat, s: Sector): (r: PageBytes)
    requires i < SECTORS_PER_PAGE
    ensures forall j :: 0 <= j < SECTORS_PER_PAGE ==> PageSector(r, j) == if j == i then s else PageSector(page, j)
  {
    var r := Patch(page, SECTOR * i, s);
    SectorPatched(page, i, s);
    r
  }

  lemma SectorPatched(page: PageBytes, i: nat, s: Sector)
    requires i < SECTORS_PER_PAGE
    ensures var r: PageBytes := Patch(page, SECTOR * i, s);
            forall j :: 0 <= j < SECTORS_PER_PAGE ==> PageSector(r, j) == if j == i then s else PageSector(page, j)
  {
  }

  lemma AccessedIs(pd: map<Page, Pte>, p: Page)
    requires p in pd
    ensures p in Accessed(pd) <==> pd[p].accessed
  {
  }

  lemma AccessedSame(pd: map<Page, Pte>)
    ensures pd == WithAccessed(pd, Accessed(pd))
  {
  }

  /** pagedir_set_accessed to false. */
  lemma AccessedCleared(was: map<Page, Pte>, pd: map<Page, Pte>, p: Page)
    requires p in pd && pd.Keys == was.Keys && pd == WithAccessed(was, Accessed(pd))
    ensures var pd' := pd[p := pd[p].(accessed := false)];
            Accessed(pd') == Accessed(pd) - {p} && pd' == WithAccessed(was, Accessed(pd'))
  {
    var pd' := pd[p := pd[p].(accessed := false)];
    assert pd'.Keys == pd.Keys;
    assert Accessed(pd') == Accessed(pd) - {p};
    var w := WithAccessed(was, Accessed(pd'));
    forall q | q in pd' ensures q in w && w[q] == pd'[q] {
      assert pd[q] == WithAccessed(was, Accessed(pd))[q];
    }
  }
}
