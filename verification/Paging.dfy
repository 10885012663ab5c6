/** Demand paging as a state machine (src/vm/frame.c, src/vm/page.c, src/vm/swap.c):
    user pages move between frames, swap slots and files, and no process can tell. */
module Paging {
  import opened Common
  import opened Inode
  import opened Clock
  import Bitmaps

  const SECTORS_PER_PAGE := 8

  type PageBytes = s: seq<Byte> | |s| == PGSIZE witness seq(PGSIZE, _ => 0)

  function ZeroPage(): PageBytes { seq(PGSIZE, _ => 0) }

  datatype Kind = File | Swap | Zero | Mmap

  /** struct spt_entry. */
  datatype Entry = Entry(kind: Kind, writable: bool, loaded: bool, kpage: nat,
                         file: nat, ofs: nat, readBytes: nat, zeroBytes: nat, slot: nat)

  /** A present page table entry. */
  datatype Pte = Pte(kpage: nat, writable: bool, accessed: bool, dirty: bool)

  /** The clock hand; Dangling is a pointer to an entry that has been freed. */
  datatype Hand = Null | End | At(i: nat) | Dangling

  datatype Vm = Vm(
    spt: map<Page, Entry>,
    pd: map<Page, Pte>,
    tables: set<(nat, nat)>,       // page tables that exist: owner and upage / 1024
    frames: seq<Frame>,
    hand: Hand,
    mem: map<nat, PageBytes>,      // the user pool
    free: set<nat>,
    slots: seq<bool>,
    swap: seq<Sector>,
    files: map<nat, seq<Byte>>,
    denied: set<nat>)              // files that are being executed

  /** What the environment decides during one call: the free page handed out, whether
      memory was there for a frame entry and a page table, and how many bytes file
      reads and writes managed to move. */
  datatype Env = Env(kpage: nat, malloc: bool, table: bool, got: nat, wrote: nat)

  function Table(p: Page): (nat, nat) { (p.owner, p.upage / 1024) }

  // ----- swap slots

  function SlotHeader(i: nat): Header { Header(SECTORS_PER_PAGE * i, PGSIZE) }

  predicate SlotFits(swap: seq<Sector>, i: nat) { SECTORS_PER_PAGE * (i + 1) <= |swap| }

  function SlotContent(swap: seq<Sector>, i: nat): PageBytes
    requires SlotFits(swap, i)
  {
    assert Sectors(PGSIZE) == SECTORS_PER_PAGE;
    Contents(swap, SlotHeader(i))
  }

  function SlotStored(swap: seq<Sector>, i: nat, page: PageBytes): (r: seq<Sector>)
    requires SlotFits(swap, i)
    ensures |r| == |swap|
  {
    Overwrite(swap, SECTOR * (SECTORS_PER_PAGE * i), page)
  }

  /** A page swapped out is read back unchanged, and disturbs no other slot. */
  lemma SlotStoredIs(swap: seq<Sector>, i: nat, page: PageBytes, j: nat)
    requires SlotFits(swap, i) && SlotFits(swap, j)
    ensures SlotFits(SlotStored(swap, i, page), j)
    ensures SlotContent(SlotStored(swap, i, page), j) == if j == i then page else SlotContent(swap, j)
  {
    assert Sectors(PGSIZE) == SECTORS_PER_PAGE;
    if j == i {
      WriteMeaning(swap, SlotHeader(i), 0, page);
      PatchAll(Contents(swap, SlotHeader(i)), page);
    } else {
      ReadAfterWrite(swap, SlotHeader(i), 0, page, SlotHeader(j));
    }
  }

  lemma PatchAll(s: seq<Byte>, b: seq<Byte>)
    requires |s| == |b|
    ensures Patch(s, 0, b) == b
  {
  }

  // ----- files

  /** What a file page holds: the file's bytes, zeros behind them. */
  function Image(files: map<nat, seq<Byte>>, e: Entry): PageBytes {
    seq(PGSIZE, i requires 0 <= i < PGSIZE => ImageByte(files, e, i))
  }

  function ImageByte(files: map<nat, seq<Byte>>, e: Entry, i: nat): Byte {
    if i < e.readBytes && e.file in files && e.ofs + i < |files[e.file]| then files[e.file][e.ofs + i] else 0
  }

  /** A page's contents before it is first written. */
  function Source(files: map<nat, seq<Byte>>, e: Entry): PageBytes {
    if e.kind == Zero then ZeroPage() else Image(files, e)
  }

  /** The bytes file_read moves: as many as were asked for, are there, and were got. */
  function ReadCount(files: map<nat, seq<Byte>>, e: Entry, got: nat): nat {
    if e.file in files && e.ofs <= |files[e.file]|
    then Min(Min(e.readBytes, |files[e.file]| - e.ofs), Min(got, PGSIZE)) else 0
  }

  function FileBytes(files: map<nat, seq<Byte>>, e: Entry, n: nat): (b: seq<Byte>)
    requires n <= ReadCount(files, e, n)
    ensures |b| == n
  {
    if n == 0 then [] else files[e.file][e.ofs..e.ofs + n]
  }

  /** file_write of the leading bytes of a page: nothing beyond end of file, and
      nothing at all to a file that is being executed. */
  function WrittenBack(files: map<nat, seq<Byte>>, denied: set<nat>, e: Entry, page: PageBytes, wrote: nat)
    : map<nat, seq<Byte>>
  {
    var n := ReadCount(files, e, wrote);
    if e.file in denied || n == 0 then files else files[e.file := Patch(files[e.file], e.ofs, page[..n])]
  }

  // ----- the machine

  function Accessed(pd: map<Page, Pte>): set<Page> {
    set p | p in pd && pd[p].accessed
  }

  function WithAccessed(pd: map<Page, Pte>, accessed: set<Page>): map<Page, Pte> {
    map p | p in pd :: pd[p].(accessed := p in accessed)
  }

  /** Where the search starts. */
  function StartOf(hand: Hand): nat {
    if hand.At? then hand.i else 0
  }

  /** The same pointer once entry i has been taken out of the table: positions behind i
      move up, and a pointer to entry i itself is left dangling. */
  function Reindexed(hand: Hand, i: nat): Hand {
    if !hand.At? then hand
    else if hand.i == i then Dangling
    else if hand.i < i then hand
    else At(hand.i - 1)
  }

  ghost predicate HandOk(hand: Hand, n: nat) {
    hand.Null? || hand.End? || (hand.At? && hand.i < n)
  }

  /** evict_frame's second half: where the victim's contents go.  None where swap is
      full and the kernel panics. */
  ghost function WriteOut(vm: Vm, p: Page, kpage: nat, dirty: bool, env: Env): Option<Vm>
    requires p in vm.spt && kpage in vm.mem
    requires forall i :: 0 <= i < |vm.slots| ==> SlotFits(vm.swap, i)
  {
    var e := vm.spt[p].(loaded := false, kpage := 0);
    if e.kind == Mmap then
      Some(vm.(spt := vm.spt[p := e],
               files := if dirty then WrittenBack(vm.files, vm.denied, e, vm.mem[kpage], env.wrote) else vm.files))
    else if dirty || e.writable then
      match Bitmaps.FirstFit(vm.slots, 0, 1, false)
      case None => None
      case Some(slot) =>
        Some(vm.(spt := vm.spt[p := e.(kind := Swap, slot := slot)],
                 slots := vm.slots[slot := true],
                 swap := SlotStored(vm.swap, slot, vm.mem[kpage])))
    else Some(vm.(spt := vm.spt[p := e]))
  }

  /** The table and page directory once frame v has been taken out. */
  function Unmapped(vm: Vm, accessed: set<Page>, v: nat): Vm
    requires v < |vm.frames|
  {
    vm.(pd := WithAccessed(vm.pd, accessed) - {vm.frames[v].page},
        frames := Without(vm.frames, v),
        hand := Reindexed(At(Next(v, |vm.frames|)), v))
  }

  // ----- invariant

  ghost function PagesOf(frames: seq<Frame>): set<Page> {
    set i | 0 <= i < |frames| :: frames[i].page
  }

  ghost function KpagesOf(frames: seq<Frame>): set<nat> {
    set i | 0 <= i < |frames| :: frames[i].kpage
  }

  /** The page directory and the supplemental page table agree. */
  ghost predicate MapsOk(spt: map<Page, Entry>, pd: map<Page, Pte>, tables: set<(nat, nat)>) {
    && (forall p :: p in pd ==>
          && p in spt && spt[p].loaded && spt[p].kpage == pd[p].kpage && pd[p].writable == spt[p].writable
          && Table(p) in tables && (pd[p].dirty ==> pd[p].writable))
    && (forall p :: p in spt && spt[p].loaded ==> p in pd)
  }

  /** The frame table lists exactly the mapped pages, and the user pool is made of the
      frames, the free pages and the pages in `held`, all apart. */
  ghost predicate FramesOk(frames: seq<Frame>, pd: map<Page, Pte>, pool: set<nat>, free: set<nat>, held: set<nat>) {
    && DistinctPages(frames)
    && (forall i :: 0 <= i < |frames| ==> frames[i].page in pd && pd[frames[i].page].kpage == frames[i].kpage)
    && PagesOf(frames) == pd.Keys
    && (forall i, j :: 0 <= i < j < |frames| ==> frames[i].kpage != frames[j].kpage)
    && KpagesOf(frames) + free + held == pool
    && KpagesOf(frames) !! free && KpagesOf(frames) !! held && free !! held
  }

  /** p is a page whose contents are in a swap slot. */
  predicate InSlot(spt: map<Page, Entry>, p: Page) {
    p in spt && spt[p].kind == Swap && !spt[p].loaded
  }

  /** The swapped-out pages are in bijection with the occupied slots. */
  ghost predicate SlotsOk(spt: map<Page, Entry>, slots: seq<bool>) {
    && (forall p :: InSlot(spt, p) ==> spt[p].slot < |slots| && slots[spt[p].slot])
    && (forall p, q :: InSlot(spt, p) && InSlot(spt, q) && p != q ==> spt[p].slot != spt[q].slot)
    && (forall i :: 0 <= i < |slots| && slots[i] ==> exists p :: InSlot(spt, p) && spt[p].slot == i)
  }

  /** Only writable pages go to swap, and their page table stays; file pages are
      backed by files nobody can write. */
  ghost predicate EntriesOk(vm: Vm) {
    && (forall p :: p in vm.spt && vm.spt[p].kind == Swap ==> vm.spt[p].writable && Table(p) in vm.tables)
    && (forall p :: p in vm.spt && vm.spt[p].kind == File ==> vm.spt[p].file in vm.denied)
    && (forall p :: p in vm.spt && (vm.spt[p].kind == File || vm.spt[p].kind == Mmap) ==>
          vm.spt[p].readBytes + vm.spt[p].zeroBytes == PGSIZE)
    && (forall i :: 0 <= i < |vm.slots| ==> SlotFits(vm.swap, i))
  }

  /** A read-only page in memory is what its source says. */
  ghost predicate CleanOk(vm: Vm) {
    forall p :: p in vm.pd && p in vm.spt && vm.pd[p].kpage in vm.mem && vm.spt[p].kind != Mmap
                && !vm.spt[p].writable ==>
      vm.mem[vm.pd[p].kpage] == Source(vm.files, vm.spt[p])
  }

  /** The pool has two pages or more, so the hand is never left on a freed entry. */
  ghost predicate TwoPages(pool: set<nat>) {
    exists a, b :: a in pool && b in pool && a != b
  }

  ghost predicate Holding(vm: Vm, held: set<nat>) {
    && MapsOk(vm.spt, vm.pd, vm.tables)
    && FramesOk(vm.frames, vm.pd, vm.mem.Keys, vm.free, held)
    && SlotsOk(vm.spt, vm.slots)
    && EntriesOk(vm)
    && CleanOk(vm)
    && HandOk(vm.hand, |vm.frames|)
    && TwoPages(vm.mem.Keys)
  }

  ghost predicate Inv(vm: Vm) { Holding(vm, {}) }

  /** The 4096 bytes process sees at page p; None where reading them would panic. */
  ghost function Visible(vm: Vm, p: Page): Option<PageBytes>
    requires p in vm.spt
  {
    var e := vm.spt[p];
    if p in vm.pd then (if vm.pd[p].kpage in vm.mem then Some(vm.mem[vm.pd[p].kpage]) else None)
    else if e.kind == Swap then
      (if e.slot < |vm.slots| && vm.slots[e.slot] && SlotFits(vm.swap, e.slot) then Some(SlotContent(vm.swap, e.slot))
       else None)
    else Some(Source(vm.files, e))
  }

  ghost predicate Private(vm: Vm, p: Page) { p in vm.spt && vm.spt[p].kind != Mmap }

  /** Every page that is not memory-mapped looks the same. */
  ghost predicate SameView(vm: Vm, vm': Vm) {
    && vm.spt.Keys <= vm'.spt.Keys
    && forall p :: Private(vm, p) ==> Private(vm', p) && Visible(vm', p) == Visible(vm, p)
  }

  // ----- eviction

  lemma VictimMapped(vm: Vm, v: nat)
    requires Inv(vm) && v < |vm.frames|
    ensures var f := vm.frames[v];
            && f.page in vm.pd && f.page in vm.spt && f.kpage in vm.mem && vm.pd[f.page].kpage == f.kpage
            && vm.spt[f.page].loaded && vm.pd[f.page].writable == vm.spt[f.page].writable
            && (vm.pd[f.page].dirty ==> vm.pd[f.page].writable)
    ensures forall i :: 0 <= i < |vm.slots| ==> SlotFits(vm.swap, i)
  {
    assert vm.frames[v].kpage in KpagesOf(vm.frames);
  }

  /** evict_frame: the victim's page and where everything is afterwards; None where
      there is no victim or no swap slot, and the kernel panics. */
  ghost function Evict(vm: Vm, env: Env): Option<(Vm, nat)>
    requires Inv(vm)
  {
    if vm.frames == [] then None
    else
      var (accessed, v) := Sweep(vm.frames, Accessed(vm.pd), StartOf(vm.hand), 2 * |vm.frames|);
      if v.None? then None
      else
        var f := vm.frames[v.value];
        VictimMapped(vm, v.value);
        match WriteOut(Unmapped(vm, accessed, v.value), f.page, f.kpage, vm.pd[f.page].dirty, env)
        case None => None
        case Some(vm') => Some((vm', f.kpage))
  }

  lemma DropPages(frames: seq<Frame>, v: nat)
    requires v < |frames| && DistinctPages(frames)
    ensures PagesOf(Without(frames, v)) == PagesOf(frames) - {frames[v].page}
    ensures DistinctPages(Without(frames, v))
  {
    var frames' := Without(frames, v);
    forall i | 0 <= i < |frames| && i != v ensures frames[i].page in PagesOf(frames') {
      assert frames'[if i < v then i else i - 1].page == frames[i].page;
    }
    forall j | 0 <= j < |frames'| ensures frames'[j].page in PagesOf(frames) - {frames[v].page} {
      var i := if j < v then j else j + 1;
      assert frames'[j].page == frames[i].page && i != v;
    }
  }

  lemma DropKpages(frames: seq<Frame>, v: nat)
    requires v < |frames| && forall i, j :: 0 <= i < j < |frames| ==> frames[i].kpage != frames[j].kpage
    ensures KpagesOf(Without(frames, v)) == KpagesOf(frames) - {frames[v].kpage}
  {
    var frames' := Without(frames, v);
    forall i | 0 <= i < |frames| && i != v ensures frames[i].kpage in KpagesOf(frames') {
      assert frames'[if i < v then i else i - 1].kpage == frames[i].kpage;
    }
    forall j | 0 <= j < |frames'| ensures frames'[j].kpage in KpagesOf(frames) - {frames[v].kpage} {
      var i := if j < v then j else j + 1;
      assert frames'[j].kpage == frames[i].kpage && i != v;
    }
  }

  lemma FramesDrop(frames: seq<Frame>, pd: map<Page, Pte>, accessed: set<Page>, pool: set<nat>, free: set<nat>, v: nat)
    requires v < |frames| && FramesOk(frames, pd, pool, free, {})
    ensures FramesOk(Without(frames, v), WithAccessed(pd, accessed) - {frames[v].page}, pool, free, {frames[v].kpage})
  {
    hide PagesOf;
    hide KpagesOf;
    DropPages(frames, v);
    DropKpages(frames, v);
    KpageListed(frames, v);
    var frames', pd' := Without(frames, v), WithAccessed(pd, accessed) - {frames[v].page};
    forall j | 0 <= j < |frames'| ensures frames'[j].page in pd' && pd'[frames'[j].page].kpage == frames'[j].kpage {
      var i := if j < v then j else j + 1;
      assert frames'[j] == frames[i] && i != v;
    }
  }

  lemma KpageListed(frames: seq<Frame>, i: nat)
    requires i < |frames|
    ensures frames[i].kpage in KpagesOf(frames) && frames[i].page in PagesOf(frames)
  {
  }

  lemma MapsUnmap(spt: map<Page, Entry>, pd: map<Page, Pte>, tables: set<(nat, nat)>, accessed: set<Page>, p: Page,
                  e: Entry)
    requires MapsOk(spt, pd, tables) && p in spt && !e.loaded
    ensures MapsOk(spt[p := e], WithAccessed(pd, accessed) - {p}, tables)
  {
  }

  lemma SlotTaken(spt: map<Page, Entry>, slots: seq<bool>, p: Page, e: Entry)
    requires SlotsOk(spt, slots) && p in spt && spt[p].loaded
    requires e.kind == Swap && !e.loaded && e.slot < |slots| && !slots[e.slot]
    ensures SlotsOk(spt[p := e], slots[e.slot := true])
  {
    var spt', slots' := spt[p := e], slots[e.slot := true];
    forall i | 0 <= i < |slots'| && slots'[i] ensures exists q :: InSlot(spt', q) && spt'[q].slot == i {
      if i == e.slot {
        assert InSlot(spt', p);
      } else {
        var q :| InSlot(spt, q) && spt[q].slot == i;
        assert InSlot(spt', q);
      }
    }
    forall q | InSlot(spt', q) && q != p ensures InSlot(spt, q) {
    }
  }

  /** Changing an entry that neither was nor becomes swapped out. */
  lemma SlotsSame(spt: map<Page, Entry>, slots: seq<bool>, p: Page, e: Entry)
    requires SlotsOk(spt, slots) && !InSlot(spt, p) && !(e.kind == Swap && !e.loaded)
    ensures SlotsOk(spt[p := e], slots)
  {
    var spt' := spt[p := e];
    forall q ensures InSlot(spt', q) <==> InSlot(spt, q) {
    }
    forall i | 0 <= i < |slots| && slots[i] ensures exists q :: InSlot(spt', q) && spt'[q].slot == i {
      var q :| InSlot(spt, q) && spt[q].slot == i;
      assert InSlot(spt', q);
    }
  }

  /** Two states of the files that agree on the files being executed. */
  ghost predicate SameExecutables(files: map<nat, seq<Byte>>, files': map<nat, seq<Byte>>, denied: set<nat>) {
    forall f :: f in denied ==> (f in files' <==> f in files) && (f in files ==> files'[f] == files[f])
  }

  lemma SourceFrame(files: map<nat, seq<Byte>>, files': map<nat, seq<Byte>>, denied: set<nat>, e: Entry)
    requires SameExecutables(files, files', denied) && (e.kind == File ==> e.file in denied)
             && (e.kind == File || e.kind == Zero)
    ensures Source(files', e) == Source(files, e)
  {
    if e.kind == File {
      forall i | 0 <= i < PGSIZE ensures ImageByte(files', e, i) == ImageByte(files, e, i) {
      }
    }
  }

  /** The source of a page does not depend on where it is. */
  lemma SourceSame(files: map<nat, seq<Byte>>, e: Entry, e': Entry)
    requires e'.kind == e.kind && e'.file == e.file && e'.ofs == e.ofs && e'.readBytes == e.readBytes
    ensures Source(files, e') == Source(files, e)
  {
    forall i | 0 <= i < PGSIZE ensures ImageByte(files, e', i) == ImageByte(files, e, i) {
    }
  }

  /** What a step may do to the rest of the system while it works on page p. */
  ghost predicate Elsewhere(vm: Vm, vm': Vm, p: Page) {
    && vm'.mem.Keys == vm.mem.Keys && vm'.denied == vm.denied && vm.tables <= vm'.tables
    && SameExecutables(vm.files, vm'.files, vm.denied)
    && |vm'.slots| == |vm.slots| && |vm'.swap| == |vm.swap|
    && (forall q :: q != p ==> (q in vm'.spt <==> q in vm.spt) && (q in vm'.pd <==> q in vm.pd))
    && (forall q :: q != p && q in vm.spt ==> vm'.spt[q] == vm.spt[q])
    && (forall q :: q != p && q in vm.pd ==> vm'.pd[q].kpage == vm.pd[q].kpage)
    && (forall q :: q != p && q in vm.pd && vm.pd[q].kpage in vm.mem ==>
          vm'.mem[vm.pd[q].kpage] == vm.mem[vm.pd[q].kpage])
    && (forall q :: q != p && InSlot(vm.spt, q) && vm.spt[q].slot < |vm.slots| && SlotFits(vm.swap, vm.spt[q].slot) ==>
          && vm'.slots[vm.spt[q].slot] == vm.slots[vm.spt[q].slot]
          && SlotContent(vm'.swap, vm.spt[q].slot) == SlotContent(vm.swap, vm.spt[q].slot))
  }

  lemma ElsewhereView(vm: Vm, vm': Vm, p: Page, q: Page)
    requires EntriesOk(vm) && MapsOk(vm.spt, vm.pd, vm.tables) && SlotsOk(vm.spt, vm.slots) && Elsewhere(vm, vm', p)
    requires q != p && Private(vm, q)
    ensures Private(vm', q) && Visible(vm', q) == Visible(vm, q)
  {
    hide SlotContent;
    hide Source;
    var e := vm.spt[q];
    if q !in vm.pd && e.kind == Swap {
      assert InSlot(vm.spt, q);
    } else if q !in vm.pd {
      SourceFrame(vm.files, vm'.files, vm.denied, e);
    }
  }

  /** The parts of EntriesOk and CleanOk about one page. */
  ghost predicate EntryAt(vm: Vm, p: Page) {
    p in vm.spt ==>
      && (vm.spt[p].kind == Swap ==> vm.spt[p].writable && Table(p) in vm.tables)
      && (vm.spt[p].kind == File ==> vm.spt[p].file in vm.denied)
      && (vm.spt[p].kind == File || vm.spt[p].kind == Mmap ==> vm.spt[p].readBytes + vm.spt[p].zeroBytes == PGSIZE)
  }

  ghost predicate CleanAt(vm: Vm, p: Page) {
    p in vm.pd && p in vm.spt && vm.pd[p].kpage in vm.mem && vm.spt[p].kind != Mmap && !vm.spt[p].writable ==>
      vm.mem[vm.pd[p].kpage] == Source(vm.files, vm.spt[p])
  }

  lemma RestKeeps(vm: Vm, vm': Vm, p: Page)
    requires EntriesOk(vm) && CleanOk(vm) && Elsewhere(vm, vm', p) && EntryAt(vm', p) && CleanAt(vm', p)
    ensures EntriesOk(vm') && CleanOk(vm')
  {
    hide Source;
    forall q | q in vm'.pd && q in vm'.spt && vm'.pd[q].kpage in vm'.mem && vm'.spt[q].kind != Mmap
               && !vm'.spt[q].writable
      ensures vm'.mem[vm'.pd[q].kpage] == Source(vm'.files, vm'.spt[q])
    {
      if q != p { SourceFrame(vm.files, vm'.files, vm.denied, vm.spt[q]); }
    }
    forall q | q in vm'.spt ensures EntryAt(vm', q) {
      if q != p { assert EntryAt(vm, q); }
    }
    assert CleanOk(vm');
    forall i | 0 <= i < |vm'.slots| ensures SlotFits(vm'.swap, i) {
      assert SlotFits(vm.swap, i);
    }
  }

  lemma WrittenBackKeeps(files: map<nat, seq<Byte>>, denied: set<nat>, e: Entry, page: PageBytes, wrote: nat)
    ensures SameExecutables(files, WrittenBack(files, denied, e, page, wrote), denied)
  {
  }

  lemma FreeSlot(slots: seq<bool>)
    ensures var r := Bitmaps.FirstFit(slots, 0, 1, false);
            r.Some? ==> r.value < |slots| && !slots[r.value]
  {
    Bitmaps.FirstFitLeast(slots, 0, 1, false);
  }

  /** The three ways out of memory leave everything else as it was. */
  lemma WriteOutElsewhere(vm: Vm, accessed: set<Page>, v: nat, env: Env)
    requires Inv(vm) && v < |vm.frames|
    ensures var f := vm.frames[v];
            && f.page in vm.spt && f.kpage in vm.mem && f.page in vm.pd
            && (forall i :: 0 <= i < |vm.slots| ==> SlotFits(vm.swap, i))
            && var r := WriteOut(Unmapped(vm, accessed, v), f.page, f.kpage, vm.pd[f.page].dirty, env);
               r.Some? ==> Elsewhere(vm, r.value, f.page)
  {
    hide Holding;
    hide SlotContent;
    hide Unmapped;
    hide Elsewhere;
    VictimMapped(vm, v);
    UnmappedIs(vm, accessed, v);
    var f := vm.frames[v];
    var e := vm.spt[f.page].(loaded := false, kpage := 0);
    var u := Unmapped(vm, accessed, v);
    WrittenBackKeeps(vm.files, vm.denied, e, vm.mem[f.kpage], env.wrote);
    if e.kind == Mmap {
      var back := WrittenBack(vm.files, vm.denied, e, vm.mem[f.kpage], env.wrote);
      var files' := if vm.pd[f.page].dirty then back else vm.files;
      OneEntryElsewhere(vm, accessed, v, u.(spt := vm.spt[f.page := e], files := files'));
    } else if vm.pd[f.page].dirty || e.writable {
      StoredElsewhere(vm, accessed, v);
    } else {
      OneEntryElsewhere(vm, accessed, v, u.(spt := vm.spt[f.page := e]));
    }
  }

  lemma UnmappedIs(vm: Vm, accessed: set<Page>, v: nat)
    requires v < |vm.frames|
    ensures var u := Unmapped(vm, accessed, v);
            && u == vm.(pd := u.pd, frames := u.frames, hand := u.hand)
            && (forall q :: q != vm.frames[v].page ==> (q in u.pd <==> q in vm.pd))
            && (forall q :: q != vm.frames[v].page && q in vm.pd ==> u.pd[q].kpage == vm.pd[q].kpage)
  {
    hide Without;
  }

  /** Taking frame v out and changing its page's entry, and possibly a mapped file. */
  lemma OneEntryElsewhere(vm: Vm, accessed: set<Page>, v: nat, vm': Vm)
    requires v < |vm.frames| && vm.frames[v].page in vm'.spt && vm.frames[v].page in vm.spt
    requires vm'.spt == vm.spt[vm.frames[v].page := vm'.spt[vm.frames[v].page]]
    requires vm' == Unmapped(vm, accessed, v).(spt := vm'.spt, files := vm'.files)
    requires SameExecutables(vm.files, vm'.files, vm.denied)
    ensures Elsewhere(vm, vm', vm.frames[v].page)
  {
    hide Unmapped;
    hide SlotContent;
    hide SameExecutables;
    UnmappedIs(vm, accessed, v);
  }

  /** The same with the page stored in the first free slot. */
  lemma StoredElsewhere(vm: Vm, accessed: set<Page>, v: nat)
    requires Inv(vm) && v < |vm.frames|
    ensures var f := vm.frames[v];
            && f.page in vm.spt && f.kpage in vm.mem && (forall i :: 0 <= i < |vm.slots| ==> SlotFits(vm.swap, i))
            && var slot := Bitmaps.FirstFit(vm.slots, 0, 1, false);
               slot.Some? ==>
                 var e := vm.spt[f.page].(loaded := false, kpage := 0, kind := Swap, slot := slot.value);
                 var swap' := SlotStored(vm.swap, slot.value, vm.mem[f.kpage]);
                 var vm' := Unmapped(vm, accessed, v).(spt := vm.spt[f.page := e], swap := swap',
                                                       slots := vm.slots[slot.value := true]);
                 Elsewhere(vm, vm', f.page)
  {
    hide Holding;
    hide SlotContent;
    hide Unmapped;
    VictimMapped(vm, v);
    UnmappedIs(vm, accessed, v);
    var f := vm.frames[v];
    FreeSlot(vm.slots);
    var slot := Bitmaps.FirstFit(vm.slots, 0, 1, false);
    if slot.Some? { OtherSlots(vm, slot.value, vm.mem[f.kpage]); }
  }

  lemma OtherSlots(vm: Vm, slot: nat, page: PageBytes)
    requires Inv(vm) && slot < |vm.slots| && !vm.slots[slot]
    ensures SlotFits(vm.swap, slot)
    ensures var swap' := SlotStored(vm.swap, slot, page);
            && |swap'| == |vm.swap|
            && forall q :: InSlot(vm.spt, q) ==>
                 && vm.spt[q].slot < |vm.slots| && vm.spt[q].slot != slot
                 && SlotFits(vm.swap, vm.spt[q].slot) && SlotFits(swap', vm.spt[q].slot)
                 && SlotContent(swap', vm.spt[q].slot) == SlotContent(vm.swap, vm.spt[q].slot)
  {
    hide SlotContent;
    hide SlotStored;
    assert SlotFits(vm.swap, slot);
    forall q | InSlot(vm.spt, q)
      ensures var swap' := SlotStored(vm.swap, slot, page);
              && vm.spt[q].slot < |vm.slots| && vm.spt[q].slot != slot
              && SlotFits(vm.swap, vm.spt[q].slot) && SlotFits(swap', vm.spt[q].slot)
              && SlotContent(swap', vm.spt[q].slot) == SlotContent(vm.swap, vm.spt[q].slot)
    {
      OtherSlot(vm, slot, page, q);
    }
  }

  lemma OtherSlot(vm: Vm, slot: nat, page: PageBytes, q: Page)
    requires SlotsOk(vm.spt, vm.slots) && EntriesOk(vm) && InSlot(vm.spt, q)
    requires slot < |vm.slots| && !vm.slots[slot]
    ensures SlotFits(vm.swap, slot)
    ensures var swap' := SlotStored(vm.swap, slot, page);
            && vm.spt[q].slot < |vm.slots| && vm.spt[q].slot != slot
            && SlotFits(vm.swap, vm.spt[q].slot) && SlotFits(swap', vm.spt[q].slot)
            && SlotContent(swap', vm.spt[q].slot) == SlotContent(vm.swap, vm.spt[q].slot)
  {
    assert SlotFits(vm.swap, slot) && SlotFits(vm.swap, vm.spt[q].slot);
    SlotStoredIs(vm.swap, slot, page, vm.spt[q].slot);
  }

  /** The victim page itself: same bytes, now out of memory. */
  lemma WriteOutVictim(vm: Vm, accessed: set<Page>, v: nat, env: Env)
    requires Inv(vm) && v < |vm.frames|
    ensures var f := vm.frames[v];
            && f.page in vm.spt && f.kpage in vm.mem && f.page in vm.pd
            && (forall i :: 0 <= i < |vm.slots| ==> SlotFits(vm.swap, i))
            && var r := WriteOut(Unmapped(vm, accessed, v), f.page, f.kpage, vm.pd[f.page].dirty, env);
               r.Some? ==>
                 && f.page in r.value.spt && !r.value.spt[f.page].loaded && f.page !in r.value.pd
                 && EntryAt(r.value, f.page)
                 && SlotsOk(r.value.spt, r.value.slots)
                 && (Private(vm, f.page) ==>
                       Private(r.value, f.page) && Visible(r.value, f.page) == Visible(vm, f.page))
  {
    hide FramesOk;
    hide SlotContent;
    hide Without;
    hide SlotsOk;
    hide Source;
    VictimMapped(vm, v);
    var f := vm.frames[v];
    var p := f.page;
    var e := vm.spt[p].(loaded := false, kpage := 0);
    var vm0 := Unmapped(vm, accessed, v);
    assert EntryAt(vm, p);
    assert !InSlot(vm.spt, p);
    if e.kind != Mmap && (vm.pd[p].dirty || e.writable) {
      FreeSlot(vm.slots);
      var slot := Bitmaps.FirstFit(vm.slots, 0, 1, false);
      if slot.Some? {
        SlotTaken(vm.spt, vm.slots, p, e.(kind := Swap, slot := slot.value));
        SlotStoredIs(vm.swap, slot.value, vm.mem[f.kpage], slot.value);
      }
    } else {
      SlotsSame(vm.spt, vm.slots, p, e);
      SourceSame(vm.files, vm.spt[p], e);
    }
  }

  /** Eviction is invisible. */
  lemma EvictKeeps(vm: Vm, env: Env)
    requires Inv(vm) && Evict(vm, env).Some?
    ensures var (vm', k) := Evict(vm, env).value;
            && (|vm.frames| >= 2 ==> Holding(vm', {k}))
            && vm'.mem == vm.mem && vm'.free == vm.free
            && SameView(vm, vm')
            && forall q :: q in vm.spt && !vm.spt[q].loaded ==> q in vm'.spt && vm'.spt[q] == vm.spt[q]
  {
    hide FramesOk;
    hide SlotsOk;
    hide MapsOk;
    hide EntriesOk;
    hide CleanOk;
    hide Elsewhere;
    hide WriteOut;
    var (accessed, v) := Sweep(vm.frames, Accessed(vm.pd), StartOf(vm.hand), 2 * |vm.frames|);
    var i := v.value;
    var f := vm.frames[i];
    var (vm', k) := Evict(vm, env).value;
    VictimMapped(vm, i);
    WriteOutElsewhere(vm, accessed, i, env);
    WriteOutVictim(vm, accessed, i, env);
    WriteOutShape(vm, accessed, i, env);
    MapsUnmap(vm.spt, vm.pd, vm.tables, accessed, f.page, vm'.spt[f.page]);
    FramesDrop(vm.frames, vm.pd, accessed, vm.mem.Keys, vm.free, i);
    RestKeeps(vm, vm', f.page);
    forall q | Private(vm, q) ensures Private(vm', q) && Visible(vm', q) == Visible(vm, q) {
      if q != f.page { ElsewhereView(vm, vm', f.page, q); }
    }
  }

  /** evict_frame gives up only where every frame is pinned or swap is full, and
      always where every frame is pinned. */
  lemma EvictPanics(vm: Vm, env: Env)
    requires Inv(vm)
    ensures (forall i :: 0 <= i < |vm.frames| ==> vm.frames[i].pinned) ==> Evict(vm, env).None?
    ensures Evict(vm, env).None? ==>
              || (forall i :: 0 <= i < |vm.frames| ==> vm.frames[i].pinned)
              || (forall i :: 0 <= i < |vm.slots| ==> vm.slots[i])
  {
    hide MapsOk;
    hide SlotsOk;
    hide CleanOk;
    hide Sweep;
    hide Accessed;
    hide Without;
    hide SlotStored;
    if vm.frames != [] {
      VictimExists(vm.frames, Accessed(vm.pd), StartOf(vm.hand));
    }
    NoFreeSlot(vm.slots);
  }

  lemma NoFreeSlot(slots: seq<bool>)
    ensures Bitmaps.FirstFit(slots, 0, 1, false).None? <==> forall i :: 0 <= i < |slots| ==> slots[i]
  {
    Bitmaps.FirstFitLeast(slots, 0, 1, false);
    var r := Bitmaps.FirstFit(slots, 0, 1, false);
    if r.Some? {
      assert !slots[r.value];
    } else {
      forall i | 0 <= i < |slots| ensures slots[i] {
        assert !Bitmaps.AllAre(slots, i, 1, false);
      }
    }
  }

  lemma WriteOutShape(vm: Vm, accessed: set<Page>, v: nat, env: Env)
    requires Inv(vm) && v < |vm.frames|
    ensures var f := vm.frames[v];
            && f.page in vm.spt && f.kpage in vm.mem && f.page in vm.pd
            && (forall i :: 0 <= i < |vm.slots| ==> SlotFits(vm.swap, i))
            && var vm0 := Unmapped(vm, accessed, v);
               var r := WriteOut(vm0, f.page, f.kpage, vm.pd[f.page].dirty, env);
               r.Some? ==>
                 && f.page in r.value.spt && r.value.spt == vm.spt[f.page := r.value.spt[f.page]]
                 && r.value.pd == vm0.pd && r.value.tables == vm.tables && r.value.frames == vm0.frames
                 && r.value.hand == vm0.hand && r.value.mem == vm.mem && r.value.free == vm.free
  {
    hide MapsOk;
    hide FramesOk;
    hide SlotsOk;
    hide CleanOk;
    hide SlotStored;
    hide WrittenBack;
    hide Without;
    hide WithAccessed;
    VictimMapped(vm, v);
  }

  // ----- loading a page

  lemma TwoFrames(vm: Vm)
    requires Inv(vm) && vm.free == {}
    ensures |vm.frames| >= 2
  {
    hide MapsOk;
    hide SlotsOk;
    hide EntriesOk;
    hide CleanOk;
    hide KpagesOf;
    var a, b :| a in vm.mem.Keys && b in vm.mem.Keys && a != b;
    TwoListed(vm.frames, a, b);
  }

  lemma TwoListed(frames: seq<Frame>, a: nat, b: nat)
    requires a in KpagesOf(frames) && b in KpagesOf(frames) && a != b
    ensures |frames| >= 2
  {
    var i :| 0 <= i < |frames| && frames[i].kpage == a;
    var j :| 0 <= j < |frames| && frames[j].kpage == b;
  }

  /** The palloc call and the eviction of frame_alloc. */
  ghost function Obtain(vm: Vm, env: Env): Option<(Vm, nat)>
    requires Inv(vm) && (vm.free != {} ==> env.kpage in vm.free)
  {
    if vm.free != {} then Some((vm.(free := vm.free - {env.kpage}), env.kpage)) else Evict(vm, env)
  }

  lemma ObtainKeeps(vm: Vm, env: Env)
    requires Inv(vm) && (vm.free != {} ==> env.kpage in vm.free) && Obtain(vm, env).Some?
    ensures var (vm', k) := Obtain(vm, env).value;
            && Holding(vm', {k}) && k in vm'.mem
            && SameView(vm, vm')
            && forall q :: q in vm.spt && !vm.spt[q].loaded ==> q in vm'.spt && vm'.spt[q] == vm.spt[q]
  {
    hide MapsOk;
    hide SlotsOk;
    hide Evict;
    hide TwoPages;
    hide Source;
    if vm.free == {} {
      TwoFrames(vm);
      EvictKeeps(vm, env);
    }
  }

  function GiveBack(vm: Vm, k: nat, content: PageBytes): Vm {
    vm.(mem := vm.mem[k := content], free := vm.free + {k})
  }

  /** pagedir_set_page, and the entry marked as loaded. */
  function Install(vm: Vm, p: Page, k: nat, content: PageBytes): Vm
    requires p in vm.spt
  {
    var e := vm.spt[p];
    vm.(mem := vm.mem[k := content],
        pd := vm.pd[p := Pte(k, e.writable, false, false)],
        tables := vm.tables + {Table(p)},
        frames := vm.frames + [Frame(k, p, false)],
        slots := if e.kind == Swap && e.slot < |vm.slots| then vm.slots[e.slot := false] else vm.slots,
        spt := vm.spt[p := e.(kpage := k, loaded := true)])
  }

  /** file_read into the frame, then zeros behind what was read. */
  function Filled(files: map<nat, seq<Byte>>, e: Entry, old': PageBytes, n: nat): PageBytes
    requires n == ReadCount(files, e, n) && e.readBytes + e.zeroBytes <= PGSIZE
  {
    var read := Patch(old', 0, FileBytes(files, e, n));
    if n == e.readBytes then Patch(read, e.readBytes, seq(e.zeroBytes, _ => 0)) else read
  }

  lemma FilledIsImage(files: map<nat, seq<Byte>>, e: Entry, old': PageBytes, n: nat)
    requires n == ReadCount(files, e, n) == e.readBytes && e.readBytes + e.zeroBytes == PGSIZE
    ensures Filled(files, e, old', n) == Image(files, e)
  {
    var a, b := Filled(files, e, old', n), Image(files, e);
    forall i | 0 <= i < PGSIZE ensures a[i] == b[i] {
      assert b[i] == ImageByte(files, e, i);
    }
  }

  lemma EntrySizes(vm: Vm, held: set<nat>, p: Page)
    requires Holding(vm, held) && p in vm.spt
    ensures vm.spt[p].kind == File || vm.spt[p].kind == Mmap ==> vm.spt[p].readBytes + vm.spt[p].zeroBytes == PGSIZE
  {
  }

  /** A swapped-out page can always be brought back: its slot is occupied and its page
      table exists. */
  lemma SwapReady(vm: Vm, held: set<nat>, p: Page)
    requires Holding(vm, held) && p in vm.spt
    ensures vm.spt[p].kind == Swap ==> vm.spt[p].writable && Table(p) in vm.tables
    ensures InSlot(vm.spt, p) ==>
              vm.spt[p].slot < |vm.slots| && vm.slots[vm.spt[p].slot] && SlotFits(vm.swap, vm.spt[p].slot)
  {
  }

  /** The rest of spt_load_page once frame k has been obtained.  None where the kernel
      panics. */
  ghost function FillFrame(vm: Vm, p: Page, k: nat, env: Env): Option<(Vm, bool)>
    requires Holding(vm, {k}) && p in vm.spt && k in vm.mem
  {
    EntrySizes(vm, {k}, p);
    var e := vm.spt[p];
    match e.kind
    case Swap =>
      if e.slot < |vm.slots| && vm.slots[e.slot] && SlotFits(vm.swap, e.slot) then
        var content := SlotContent(vm.swap, e.slot);
        if Table(p) in vm.tables || env.table then Some((Install(vm, p, k, content), true))
        else Some((GiveBack(vm.(slots := vm.slots[e.slot := false]), k, content), false))
      else None
    case Zero =>
      if Table(p) in vm.tables || env.table then Some((Install(vm, p, k, ZeroPage()), true))
      else Some((GiveBack(vm, k, ZeroPage()), false))
    case _ =>
      var n := ReadCount(vm.files, e, env.got);
      var content := Filled(vm.files, e, vm.mem[k], n);
      if n == e.readBytes && (Table(p) in vm.tables || env.table) then Some((Install(vm, p, k, content), true))
      else Some((GiveBack(vm, k, content), false))
  }

  /** spt_load_page. */
  ghost function Load(vm: Vm, p: Page, env: Env): Option<(Vm, bool)>
    requires Inv(vm) && (vm.free != {} ==> env.kpage in vm.free)
  {
    if p !in vm.spt || vm.spt[p].loaded then Some((vm, false))
    else
      match Obtain(vm, env)
      case None => None
      case Some((vm1, k)) =>
        ObtainKeeps(vm, env);
        if env.malloc then FillFrame(vm1, p, k, env) else Some((GiveBack(vm1, k, vm1.mem[k]), false))
  }

  lemma FramesGive(frames: seq<Frame>, pd: map<Page, Pte>, pool: set<nat>, free: set<nat>, k: nat)
    requires FramesOk(frames, pd, pool, free, {k})
    ensures FramesOk(frames, pd, pool, free + {k}, {})
  {
    hide KpagesOf;
    hide PagesOf;
  }

  lemma FramesPush(frames: seq<Frame>, pd: map<Page, Pte>, pool: set<nat>, free: set<nat>, k: nat, p: Page, pte: Pte)
    requires FramesOk(frames, pd, pool, free, {k}) && p !in pd && pte.kpage == k
    ensures FramesOk(frames + [Frame(k, p, false)], pd[p := pte], pool, free, {})
  {
    var frames' := frames + [Frame(k, p, false)];
    PushSets(frames, Frame(k, p, false));
    forall i | 0 <= i < |frames| ensures frames'[i] == frames[i] && frames[i].page != p && frames[i].kpage != k {
      KpageListed(frames, i);
    }
  }

  lemma PushSets(frames: seq<Frame>, f: Frame)
    ensures PagesOf(frames + [f]) == PagesOf(frames) + {f.page}
    ensures KpagesOf(frames + [f]) == KpagesOf(frames) + {f.kpage}
  {
    var frames' := frames + [f];
    assert frames'[|frames|] == f;
    forall i | 0 <= i < |frames| ensures frames[i].page in PagesOf(frames') && frames[i].kpage in KpagesOf(frames') {
      assert frames'[i] == frames[i];
    }
  }

  lemma SlotFreed(spt: map<Page, Entry>, slots: seq<bool>, p: Page, e: Entry)
    requires SlotsOk(spt, slots) && InSlot(spt, p) && e.loaded
    ensures spt[p].slot < |slots|
    ensures SlotsOk(spt[p := e], slots[spt[p].slot := false])
  {
    var spt', slots' := spt[p := e], slots[spt[p].slot := false];
    forall q | InSlot(spt', q) ensures InSlot(spt, q) && q != p {
    }
    forall i | 0 <= i < |slots'| && slots'[i] ensures exists q :: InSlot(spt', q) && spt'[q].slot == i {
      var q :| InSlot(spt, q) && spt[q].slot == i;
      assert InSlot(spt', q);
    }
  }

  lemma MapsInstall(spt: map<Page, Entry>, pd: map<Page, Pte>, tables: set<(nat, nat)>, p: Page, k: nat)
    requires MapsOk(spt, pd, tables) && p in spt
    ensures MapsOk(spt[p := spt[p].(kpage := k, loaded := true)], pd[p := Pte(k, spt[p].writable, false, false)],
                   tables + {Table(p)})
  {
  }

  /** A held page is mapped nowhere. */
  lemma HeldApart(frames: seq<Frame>, pd: map<Page, Pte>, pool: set<nat>, free: set<nat>, k: nat)
    requires FramesOk(frames, pd, pool, free, {k})
    ensures forall q :: q in pd ==> pd[q].kpage != k
  {
    forall q | q in pd ensures pd[q].kpage != k {
      assert q in PagesOf(frames);
      var i :| 0 <= i < |frames| && frames[i].page == q;
      KpageListed(frames, i);
    }
  }

  lemma InstallElsewhere(vm: Vm, p: Page, k: nat, content: PageBytes)
    requires Holding(vm, {k}) && p in vm.spt && !vm.spt[p].loaded && k in vm.mem
    ensures Elsewhere(vm, Install(vm, p, k, content), p)
  {
    hide SlotContent;
    hide CleanOk;
    hide FramesOk;
    hide MapsOk;
    hide EntriesOk;
    HeldApart(vm.frames, vm.pd, vm.mem.Keys, vm.free, k);
    forall q | q != p && InSlot(vm.spt, q) && vm.spt[p].kind == Swap ensures vm.spt[q].slot != vm.spt[p].slot {
      assert InSlot(vm.spt, p);
    }
  }

  /** Installing the page's own bytes is invisible. */
  lemma InstallKeeps(vm: Vm, p: Page, k: nat, content: PageBytes)
    requires Holding(vm, {k}) && p in vm.spt && !vm.spt[p].loaded && k in vm.mem
    requires vm.spt[p].kind != Mmap ==> Visible(vm, p) == Some(content)
    ensures Inv(Install(vm, p, k, content)) && SameView(vm, Install(vm, p, k, content))
  {
    hide Elsewhere;
    hide SlotContent;
    hide FramesOk;
    hide SlotsOk;
    hide CleanOk;
    hide EntriesOk;
    hide Source;
    var vm' := Install(vm, p, k, content);
    var e := vm.spt[p];
    InstallElsewhere(vm, p, k, content);
    assert p !in vm.pd;
    MapsInstall(vm.spt, vm.pd, vm.tables, p, k);
    FramesPush(vm.frames, vm.pd, vm.mem.Keys, vm.free, k, p, Pte(k, e.writable, false, false));
    SwapReady(vm, {k}, p);
    if e.kind == Swap {
      SlotFreed(vm.spt, vm.slots, p, vm'.spt[p]);
    } else {
      SlotsSame(vm.spt, vm.slots, p, vm'.spt[p]);
    }
    SourceSame(vm.files, e, vm'.spt[p]);
    EntryOf(vm, p);
    RestKeeps(vm, vm', p);
    assert vm'.mem.Keys == vm.mem.Keys;
    forall q | Private(vm, q) ensures Private(vm', q) && Visible(vm', q) == Visible(vm, q) {
      if q != p { ElsewhereView(vm, vm', p, q); }
    }
  }

  lemma EntryOf(vm: Vm, p: Page)
    requires EntriesOk(vm)
    ensures EntryAt(vm, p)
  {
  }

  /** A page nobody uses may hold anything. */
  lemma GiveBackKeeps(vm: Vm, k: nat, content: PageBytes)
    requires Holding(vm, {k}) && k in vm.mem
    ensures Inv(GiveBack(vm, k, content)) && SameView(vm, GiveBack(vm, k, content))
  {
    hide MapsOk;
    hide SlotsOk;
    hide SlotContent;
    hide Source;
    var vm' := GiveBack(vm, k, content);
    assert vm'.mem.Keys == vm.mem.Keys;
    HeldApart(vm.frames, vm.pd, vm.mem.Keys, vm.free, k);
    FramesGive(vm.frames, vm.pd, vm.mem.Keys, vm.free, k);
  }

  /** The file has the bytes and there is a page table, or memory for one. */
  ghost predicate Loadable(vm: Vm, p: Page, env: Env)
    requires p in vm.spt
  {
    && (Table(p) in vm.tables || env.table)
    && (vm.spt[p].kind == File || vm.spt[p].kind == Mmap ==>
          ReadCount(vm.files, vm.spt[p], env.got) == vm.spt[p].readBytes)
  }

  lemma FillKeeps(vm: Vm, p: Page, k: nat, env: Env)
    requires Holding(vm, {k}) && p in vm.spt && !vm.spt[p].loaded && k in vm.mem
    ensures FillFrame(vm, p, k, env).Some?
    ensures var (vm', ok) := FillFrame(vm, p, k, env).value;
            && Inv(vm') && SameView(vm, vm')
            && (ok <==> Loadable(vm, p, env))
            && (ok ==> p in vm'.pd && vm'.pd[p].kpage == k)
            && (vm.spt[p].kind == Swap ==> ok)
  {
    hide MapsOk;
    hide FramesOk;
    hide SlotsOk;
    hide CleanOk;
    hide EntriesOk;
    hide SlotContent;
    hide Image;
    hide Filled;
    hide ReadCount;
    hide GiveBack;
    hide SameView;
    var e := vm.spt[p];
    UnloadedUnmapped(vm, p);
    EntrySizes(vm, {k}, p);
    SwapReady(vm, {k}, p);
    match e.kind
    case Swap =>
      InstallKeeps(vm, p, k, SlotContent(vm.swap, e.slot));
    case Zero =>
      InstallKeeps(vm, p, k, ZeroPage());
      GiveBackKeeps(vm, k, ZeroPage());
    case _ =>
      var n := ReadCount(vm.files, e, env.got);
      ReadCountFixed(vm.files, e, env.got);
      var content := Filled(vm.files, e, vm.mem[k], n);
      GiveBackKeeps(vm, k, content);
      if n == e.readBytes {
        FilledIsImage(vm.files, e, vm.mem[k], n);
        InstallKeeps(vm, p, k, content);
      }
  }

  lemma UnloadedUnmapped(vm: Vm, p: Page)
    requires MapsOk(vm.spt, vm.pd, vm.tables) && p in vm.spt && !vm.spt[p].loaded
    ensures p !in vm.pd
  {
  }

  lemma ReadCountFixed(files: map<nat, seq<Byte>>, e: Entry, got: nat)
    ensures var n := ReadCount(files, e, got); n == ReadCount(files, e, n) && n <= PGSIZE
  {
  }

  lemma SameViewTransitive(a: Vm, b: Vm, c: Vm)
    requires SameView(a, b) && SameView(b, c)
    ensures SameView(a, c)
  {
  }

  /** Loading a page, evicting another one if need be, is invisible. */
  lemma LoadKeeps(vm: Vm, p: Page, env: Env)
    requires Inv(vm) && (vm.free != {} ==> env.kpage in vm.free) && Load(vm, p, env).Some?
    ensures var (vm', ok) := Load(vm, p, env).value;
            && Inv(vm') && SameView(vm, vm')
            && (ok ==> p in vm'.pd)
            && (p in vm.spt && !vm.spt[p].loaded && env.malloc ==>
                  && p in Obtain(vm, env).value.0.spt
                  && (ok <==> Loadable(Obtain(vm, env).value.0, p, env))
                  && (vm.spt[p].kind == Swap ==> ok))
  {
    hide Holding;
    hide SameView;
    hide FillFrame;
    hide GiveBack;
    hide Obtain;
    SameViewReflexive(vm);
    if p in vm.spt && !vm.spt[p].loaded {
      ObtainKeeps(vm, env);
      var (vm1, k) := Obtain(vm, env).value;
      if env.malloc {
        FillKeeps(vm1, p, k, env);
        SameViewTransitive(vm, vm1, FillFrame(vm1, p, k, env).value.0);
      } else {
        GiveBackKeeps(vm1, k, vm1.mem[k]);
        SameViewTransitive(vm, vm1, GiveBack(vm1, k, vm1.mem[k]));
      }
    }
  }

  lemma SameViewReflexive(vm: Vm)
    ensures SameView(vm, vm)
  {
  }

  // ----- the other steps

  /** spt_set_file, spt_set_zero and spt_set_mmap: refused if the page has an entry. */
  function AddEntry(vm: Vm, p: Page, e: Entry, malloc: bool): Vm {
    if malloc && p !in vm.spt then vm.(spt := vm.spt[p := e]) else vm
  }

  function FileEntry(file: nat, ofs: nat, readBytes: nat, zeroBytes: nat, writable: bool): Entry {
    Entry(File, writable, false, 0, file, ofs, readBytes, zeroBytes, 0)
  }

  function ZeroEntry(writable: bool): Entry {
    Entry(Zero, writable, false, 0, 0, 0, 0, PGSIZE, 0)
  }

  function MmapEntry(file: nat, ofs: nat, readBytes: nat, zeroBytes: nat): Entry {
    Entry(Mmap, true, false, 0, file, ofs, readBytes, zeroBytes, 0)
  }

  lemma AddKeeps(vm: Vm, p: Page, e: Entry, malloc: bool)
    requires Inv(vm) && !e.loaded && e.kind != Swap && (e.kind == File ==> e.file in vm.denied)
    requires e.kind == File || e.kind == Mmap ==> e.readBytes + e.zeroBytes == PGSIZE
    ensures var vm' := AddEntry(vm, p, e, malloc);
            && Inv(vm') && SameView(vm, vm')
            && (malloc && p !in vm.spt ==> p in vm'.spt && Visible(vm', p) == Some(Source(vm.files, e)))
  {
    hide Source;
    hide SlotContent;
    hide FramesOk;
    hide SlotsOk;
    hide MapsOk;
    hide CleanOk;
    if p !in vm.spt {
      SlotsSame(vm.spt, vm.slots, p, e);
      NotMapped(vm, p);
      CleanAdd(vm, p, e);
    }
  }

  /** A page without an entry is not mapped, and an entry that is not loaded maps nothing. */
  lemma NotMapped(vm: Vm, p: Page)
    requires MapsOk(vm.spt, vm.pd, vm.tables) && p !in vm.spt
    ensures p !in vm.pd
    ensures forall e: Entry :: !e.loaded ==> MapsOk(vm.spt[p := e], vm.pd, vm.tables)
  {
  }

  lemma CleanAdd(vm: Vm, p: Page, e: Entry)
    requires CleanOk(vm) && p !in vm.pd
    ensures CleanOk(vm.(spt := vm.spt[p := e]))
  {
    hide Source;
  }

  function WithByte(page: PageBytes, i: nat, b: Byte): PageBytes
    requires i < PGSIZE
  {
    page[i := b]
  }

  /** A store by the user program into a mapped, writable page. */
  function Store(vm: Vm, p: Page, i: nat, b: Byte): Vm
    requires p in vm.pd && vm.pd[p].kpage in vm.mem && i < PGSIZE
  {
    var k := vm.pd[p].kpage;
    vm.(mem := vm.mem[k := WithByte(vm.mem[k], i, b)], pd := vm.pd[p := vm.pd[p].(accessed := true, dirty := true)])
  }

  lemma MappedInPool(vm: Vm, p: Page)
    requires Inv(vm) && p in vm.pd
    ensures p in vm.spt && vm.pd[p].kpage in vm.mem
    ensures forall q :: q in vm.pd && q != p ==> vm.pd[q].kpage != vm.pd[p].kpage
  {
    hide SlotsOk;
    hide EntriesOk;
    hide CleanOk;
    hide FramesOk;
    MappedApart(vm.frames, vm.pd, vm.mem.Keys, vm.free, p);
  }

  lemma MappedApart(frames: seq<Frame>, pd: map<Page, Pte>, pool: set<nat>, free: set<nat>, p: Page)
    requires FramesOk(frames, pd, pool, free, {}) && p in pd
    ensures pd[p].kpage in pool
    ensures forall q :: q in pd && q != p ==> pd[q].kpage != pd[p].kpage
  {
    assert p in PagesOf(frames);
    var i :| 0 <= i < |frames| && frames[i].page == p;
    KpageListed(frames, i);
    forall q | q in pd && q != p ensures pd[q].kpage != pd[p].kpage {
      assert q in PagesOf(frames);
      var j :| 0 <= j < |frames| && frames[j].page == q;
    }
  }

  /** Changing bits of one page table entry. */
  lemma PteKeeps(frames: seq<Frame>, pd: map<Page, Pte>, pool: set<nat>, free: set<nat>, p: Page, pte: Pte)
    requires FramesOk(frames, pd, pool, free, {}) && p in pd && pte.kpage == pd[p].kpage
    ensures FramesOk(frames, pd[p := pte], pool, free, {})
  {
    assert pd[p := pte].Keys == pd.Keys;
  }

  lemma StoreElsewhere(vm: Vm, p: Page, i: nat, b: Byte)
    requires Inv(vm) && p in vm.pd && vm.pd[p].kpage in vm.mem && i < PGSIZE
    requires forall q :: q in vm.pd && q != p ==> vm.pd[q].kpage != vm.pd[p].kpage
    ensures Elsewhere(vm, Store(vm, p, i, b), p)
  {
    hide Holding;
    hide SlotContent;
  }

  lemma StoreKeeps(vm: Vm, p: Page, i: nat, b: Byte)
    requires Inv(vm) && p in vm.pd && vm.pd[p].writable && i < PGSIZE
    ensures p in vm.spt && vm.pd[p].kpage in vm.mem && Visible(vm, p).Some?
    ensures var vm' := Store(vm, p, i, b);
            && Inv(vm')
            && Visible(vm', p) == Some(WithByte(Visible(vm, p).value, i, b))
            && forall q :: Private(vm, q) && q != p ==> Private(vm', q) && Visible(vm', q) == Visible(vm, q)
  {
    hide Source;
    hide SlotContent;
    hide FramesOk;
    hide SlotsOk;
    hide EntriesOk;
    hide CleanOk;
    hide Elsewhere;
    MappedInPool(vm, p);
    var vm' := Store(vm, p, i, b);
    PteKeeps(vm.frames, vm.pd, vm.mem.Keys, vm.free, p, vm'.pd[p]);
    assert vm'.mem.Keys == vm.mem.Keys;
    StoreElsewhere(vm, p, i, b);
    EntryOf(vm, p);
    RestKeeps(vm, vm', p);
    forall q | Private(vm, q) && q != p ensures Private(vm', q) && Visible(vm', q) == Visible(vm, q) {
      ElsewhereView(vm, vm', p, q);
    }
  }

  /** A read by the user program. */
  function Touch(vm: Vm, p: Page): Vm
    requires p in vm.pd
  {
    vm.(pd := vm.pd[p := vm.pd[p].(accessed := true)])
  }

  lemma TouchKeeps(vm: Vm, p: Page)
    requires Inv(vm) && p in vm.pd
    ensures Inv(Touch(vm, p)) && SameView(vm, Touch(vm, p))
  {
    hide Source;
    hide SlotContent;
    hide FramesOk;
    hide SlotsOk;
    hide MapsOk;
    hide CleanOk;
    hide SameView;
    PteKeeps(vm.frames, vm.pd, vm.mem.Keys, vm.free, p, vm.pd[p].(accessed := true));
    TouchMaps(vm, p);
    TouchView(vm, p);
  }

  lemma TouchMaps(vm: Vm, p: Page)
    requires MapsOk(vm.spt, vm.pd, vm.tables) && CleanOk(vm) && p in vm.pd
    ensures MapsOk(vm.spt, Touch(vm, p).pd, vm.tables) && CleanOk(Touch(vm, p))
  {
    hide Source;
  }

  lemma TouchView(vm: Vm, p: Page)
    requires p in vm.pd
    ensures SameView(vm, Touch(vm, p))
  {
    hide Source;
    hide SlotContent;
  }

  /** frame_pin and frame_unpin. */
  function SetPinned(frames: seq<Frame>, kpage: nat, pinned: bool): seq<Frame> {
    seq(|frames|, i requires 0 <= i < |frames| =>
      if frames[i].kpage == kpage then frames[i].(pinned := pinned) else frames[i])
  }

  lemma PinKeeps(vm: Vm, kpage: nat, pinned: bool)
    requires Inv(vm)
    ensures var vm' := vm.(frames := SetPinned(vm.frames, kpage, pinned));
            Inv(vm') && SameView(vm, vm')
  {
    hide Source;
    hide SlotContent;
    hide SlotsOk;
    hide MapsOk;
    hide FramesOk;
    PinFrames(vm.frames, vm.pd, vm.mem.Keys, vm.free, kpage, pinned);
  }

  lemma PinFrames(frames: seq<Frame>, pd: map<Page, Pte>, pool: set<nat>, free: set<nat>, kpage: nat, pinned: bool)
    requires FramesOk(frames, pd, pool, free, {})
    ensures FramesOk(SetPinned(frames, kpage, pinned), pd, pool, free, {})
  {
    hide PagesOf;
    hide KpagesOf;
    SameFrames(frames, SetPinned(frames, kpage, pinned));
  }

  lemma SameFrames(a: seq<Frame>, b: seq<Frame>)
    requires |a| == |b| && forall i :: 0 <= i < |a| ==> a[i].page == b[i].page && a[i].kpage == b[i].kpage
    ensures PagesOf(a) == PagesOf(b) && KpagesOf(a) == KpagesOf(b)
  {
    forall i | 0 <= i < |a|
      ensures a[i].page in PagesOf(b) && a[i].kpage in KpagesOf(b) && b[i].page in PagesOf(a)
              && b[i].kpage in KpagesOf(a)
    {
      KpageListed(a, i);
      KpageListed(b, i);
    }
  }

  /** A write to a file through the file system: denied for executables. */
  function WriteFile(vm: Vm, f: nat, content: seq<Byte>): Vm {
    if f in vm.denied then vm else vm.(files := vm.files[f := content])
  }

  lemma WriteFileKeeps(vm: Vm, f: nat, content: seq<Byte>)
    requires Inv(vm)
    ensures Inv(WriteFile(vm, f, content)) && SameView(vm, WriteFile(vm, f, content))
    ensures f !in vm.denied ==> f in WriteFile(vm, f, content).files && WriteFile(vm, f, content).files[f] == content
  {
    hide SlotContent;
    hide FramesOk;
    hide SlotsOk;
    hide MapsOk;
    hide Source;
    hide EntriesOk;
    hide CleanOk;
    var vm' := WriteFile(vm, f, content);
    FilesKeep(vm, vm');
  }

  lemma FilesKeep(vm: Vm, vm': Vm)
    requires EntriesOk(vm) && CleanOk(vm) && vm' == vm.(files := vm'.files)
             && SameExecutables(vm.files, vm'.files, vm.denied)
    ensures EntriesOk(vm') && CleanOk(vm')
    ensures forall q :: Private(vm, q) && vm.spt[q].kind != Swap ==>
              Source(vm'.files, vm.spt[q]) == Source(vm.files, vm.spt[q])
  {
    hide Source;
    hide SameExecutables;
    forall q | Private(vm, q) && vm.spt[q].kind != Swap
      ensures Source(vm'.files, vm.spt[q]) == Source(vm.files, vm.spt[q])
    {
      SourceFrame(vm.files, vm'.files, vm.denied, vm.spt[q]);
    }
    forall q | q in vm.pd && q in vm.spt && vm.pd[q].kpage in vm.mem && vm.spt[q].kind != Mmap && !vm.spt[q].writable
      ensures vm.mem[vm.pd[q].kpage] == Source(vm'.files, vm.spt[q])
    {
      assert Private(vm, q);
    }
  }

  // ----- every run

  datatype Step =
    | SetFileStep(p: Page, file: nat, ofs: nat, readBytes: nat, zeroBytes: nat, writable: bool, malloc: bool)
    | SetZeroStep(p: Page, writable: bool, malloc: bool)
    | SetMmapStep(p: Page, file: nat, ofs: nat, readBytes: nat, zeroBytes: nat, malloc: bool)
    | LoadStep(p: Page, env: Env)
    | StoreStep(p: Page, i: nat, b: Byte)
    | TouchStep(p: Page)
    | PinStep(kpage: nat, pinned: bool)
    | FileStep(file: nat, content: seq<Byte>)

  /** Executable segments are added with writes to their file denied, and each page is
      filled up with zeros to its end; a step that panics is not taken. */
  ghost predicate Takes(vm: Vm, step: Step, vm': Vm)
    requires Inv(vm)
  {
    match step
    case SetFileStep(p, f, ofs, r, z, w, m) =>
      f in vm.denied && r + z == PGSIZE && vm' == AddEntry(vm, p, FileEntry(f, ofs, r, z, w), m)
    case SetZeroStep(p, w, m) => vm' == AddEntry(vm, p, ZeroEntry(w), m)
    case SetMmapStep(p, f, ofs, r, z, m) => r + z == PGSIZE && vm' == AddEntry(vm, p, MmapEntry(f, ofs, r, z), m)
    case LoadStep(p, env) =>
      && (vm.free != {} ==> env.kpage in vm.free)
      && Load(vm, p, env).Some? && vm' == Load(vm, p, env).value.0
    case StoreStep(p, i, b) =>
      i < PGSIZE && p in vm.pd && vm.pd[p].writable && vm.pd[p].kpage in vm.mem && vm' == Store(vm, p, i, b)
    case TouchStep(p) => p in vm.pd && vm' == Touch(vm, p)
    case PinStep(k, pinned) => vm' == vm.(frames := SetPinned(vm.frames, k, pinned))
    case FileStep(f, content) => vm' == WriteFile(vm, f, content)
  }

  lemma VisibleDefined(vm: Vm, p: Page)
    requires Inv(vm) && p in vm.spt
    ensures Visible(vm, p).Some?
  {
    if p in vm.pd {
      MappedInPool(vm, p);
    } else if vm.spt[p].kind == Swap {
      SwapReady(vm, {}, p);
    }
  }

  /** What a process sees at one of its own pages after a step. */
  ghost function After(vm: Vm, step: Step, p: Page): Option<PageBytes>
    requires p in vm.spt
  {
    var v := Visible(vm, p);
    if step.StoreStep? && step.p == p && step.i < PGSIZE && v.Some? then Some(WithByte(v.value, step.i, step.b)) else v
  }

  /** Every step keeps the invariant; only a store changes what a process sees, and
      only the byte stored. */
  lemma StepKeeps(vm: Vm, step: Step, vm': Vm)
    requires Inv(vm) && Takes(vm, step, vm')
    ensures Inv(vm')
    ensures forall q :: Private(vm, q) ==> Private(vm', q) && Visible(vm', q) == After(vm, step, q)
  {
    hide Holding;
    hide Visible;
    match step
    case SetFileStep(p, f, ofs, r, z, w, m) => AddKeeps(vm, p, FileEntry(f, ofs, r, z, w), m);
    case SetZeroStep(p, w, m) => AddKeeps(vm, p, ZeroEntry(w), m);
    case SetMmapStep(p, f, ofs, r, z, m) => AddKeeps(vm, p, MmapEntry(f, ofs, r, z), m);
    case LoadStep(p, env) => LoadKeeps(vm, p, env);
    case StoreStep(p, i, b) =>
      StoreKeeps(vm, p, i, b);
      assert Private(vm, p) ==> Private(vm', p);
    case TouchStep(p) => TouchKeeps(vm, p);
    case PinStep(k, pinned) => PinKeeps(vm, k, pinned);
    case FileStep(f, content) => WriteFileKeeps(vm, f, content);
  }

  /** Nothing mapped, everything free. */
  ghost predicate Init(vm: Vm) {
    && vm.spt == map[] && vm.pd == map[] && vm.frames == [] && vm.hand == Null
    && vm.free == vm.mem.Keys && TwoPages(vm.mem.Keys)
    && (forall i :: 0 <= i < |vm.slots| ==> !vm.slots[i] && SlotFits(vm.swap, i))
  }

  ghost predicate IsRun(states: seq<Vm>, steps: seq<Step>) {
    && |states| == |steps| + 1
    && Init(states[0])
    && forall i :: 0 <= i < |steps| ==> Inv(states[i]) ==> Takes(states[i], steps[i], states[i + 1])
  }

  lemma InitKeeps(vm: Vm)
    requires Init(vm)
    ensures Inv(vm)
  {
    assert PagesOf(vm.frames) == {} && KpagesOf(vm.frames) == {};
  }

  lemma {:induction false} RunKeeps(states: seq<Vm>, steps: seq<Step>, i: nat)
    requires IsRun(states, steps) && i < |states|
    ensures Inv(states[i])
  {
    hide Takes;
    hide Holding;
    if i == 0 {
      InitKeeps(states[0]);
    } else {
      RunKeeps(states, steps, i - 1);
      StepKeeps(states[i - 1], steps[i - 1], states[i - 1 + 1]);
    }
  }

  /** In every run the swapped-out pages are in bijection with the occupied slots. */
  lemma RunSlots(states: seq<Vm>, steps: seq<Step>, i: nat)
    requires IsRun(states, steps) && i < |states|
    ensures SlotsOk(states[i].spt, states[i].slots)
  {
    RunKeeps(states, steps, i);
  }

  /** The contents a simple machine gives page p after steps i to j: a 4096-byte array
      that only stores change. */
  function Stored(content: PageBytes, steps: seq<Step>, p: Page, i: nat, j: nat): PageBytes
    requires i <= j <= |steps|
  {
    if i == j then content
    else
      var c := Stored(content, steps, p, i, j - 1);
      var step := steps[j - 1];
      if step.StoreStep? && step.p == p && step.i < PGSIZE then WithByte(c, step.i, step.b) else c
  }

  /** Paging is invisible: whatever is loaded, evicted and swapped in between, a page
      reads as the plain array would. */
  lemma {:induction false} PagingInvisible(states: seq<Vm>, steps: seq<Step>, p: Page, i: nat, j: nat)
    requires IsRun(states, steps) && i <= j < |states| && Private(states[i], p)
    ensures Inv(states[i]) && Visible(states[i], p).Some?
    ensures Private(states[j], p)
    ensures Visible(states[j], p) == Some(Stored(Visible(states[i], p).value, steps, p, i, j))
  {
    hide Takes;
    hide Holding;
    hide Visible;
    hide Init;
    RunKeeps(states, steps, i);
    VisibleDefined(states[i], p);
    if i < j {
      PagingInvisible(states, steps, p, i, j - 1);
      RunKeeps(states, steps, j - 1);
      StepKeeps(states[j - 1], steps[j - 1], states[j - 1 + 1]);
    }
  }

  /** The hand is moved on before the victim is taken out.  It is left on an entry of the
      table if and only if there was another frame; with a single frame it goes
      around to the victim itself. */
  lemma EvictHand(vm: Vm, env: Env)
    requires Inv(vm) && Evict(vm, env).Some?
    ensures var vm' := Evict(vm, env).value.0;
            && |vm'.frames| == |vm.frames| - 1
            && (HandOk(vm'.hand, |vm'.frames|) <==> |vm.frames| >= 2)
            && (|vm.frames| == 1 ==> vm'.hand == Dangling)
  {
    hide MapsOk;
    hide FramesOk;
    hide SlotsOk;
    hide EntriesOk;
    hide CleanOk;
    hide Sweep;
    hide Accessed;
    hide WriteOut;
    var (accessed, v) := Sweep(vm.frames, Accessed(vm.pd), StartOf(vm.hand), 2 * |vm.frames|);
    WriteOutShape(vm, accessed, v.value, env);
  }

  // ----- what a process is given

  /** Byte i of a page backed by `readBytes` bytes of a file from ofs on. */
  function SegmentByte(files: map<nat, seq<Byte>>, file: nat, ofs: nat, readBytes: nat, i: nat): Byte {
    if i < readBytes && file in files && ofs + i < |files[file]| then files[file][ofs + i] else 0
  }

  function SegmentPage(files: map<nat, seq<Byte>>, file: nat, ofs: nat, readBytes: nat): PageBytes {
    seq(PGSIZE, i requires 0 <= i < PGSIZE => SegmentByte(files, file, ofs, readBytes, i))
  }

  /** spt_set_file shows the bytes of the file at the offset it was given, zeros behind the
      given number of them and behind end of file, with the protection asked for; it
      does nothing if the page has an entry or there is no memory for one. */
  lemma SetFileMeaning(vm: Vm, p: Page, f: nat, ofs: nat, r: nat, z: nat, w: bool, m: bool, vm': Vm)
    requires Inv(vm) && Takes(vm, SetFileStep(p, f, ofs, r, z, w, m), vm')
    ensures !m || p in vm.spt ==> vm' == vm
    ensures m && p !in vm.spt ==>
              && Private(vm', p) && vm'.spt[p].writable == w && vm' == vm.(spt := vm.spt[p := vm'.spt[p]])
              && Visible(vm', p).Some?
              && forall i :: 0 <= i < PGSIZE ==> Visible(vm', p).value[i] == SegmentByte(vm.files, f, ofs, r, i)
  {
    hide Holding;
    hide Visible;
    AddKeeps(vm, p, FileEntry(f, ofs, r, z, w), m);
  }

  lemma SetZeroMeaning(vm: Vm, p: Page, w: bool, m: bool, vm': Vm)
    requires Inv(vm) && Takes(vm, SetZeroStep(p, w, m), vm')
    ensures !m || p in vm.spt ==> vm' == vm
    ensures m && p !in vm.spt ==>
              && Private(vm', p) && vm'.spt[p].writable == w && vm' == vm.(spt := vm.spt[p := vm'.spt[p]])
              && Visible(vm', p).Some? && forall i :: 0 <= i < PGSIZE ==> Visible(vm', p).value[i] == 0
  {
    hide Holding;
    hide Visible;
    AddKeeps(vm, p, ZeroEntry(w), m);
  }

  /** spt_set_mmap: as spt_set_file, always writable, and shared with the file. */
  lemma SetMmapMeaning(vm: Vm, p: Page, f: nat, ofs: nat, r: nat, z: nat, m: bool, vm': Vm)
    requires Inv(vm) && Takes(vm, SetMmapStep(p, f, ofs, r, z, m), vm')
    ensures !m || p in vm.spt ==> vm' == vm
    ensures m && p !in vm.spt ==>
              && p in vm'.spt && vm'.spt[p].kind == Mmap && vm'.spt[p].file == f && vm'.spt[p].writable
              && vm' == vm.(spt := vm.spt[p := vm'.spt[p]]) && Visible(vm', p).Some?
              && forall i :: 0 <= i < PGSIZE ==> Visible(vm', p).value[i] == SegmentByte(vm.files, f, ofs, r, i)
  {
    hide Holding;
    hide Visible;
    AddKeeps(vm, p, MmapEntry(f, ofs, r, z), m);
  }

  /** No step changes the protection of a page, and a page is mapped with its own. */
  lemma StepProtection(vm: Vm, step: Step, vm': Vm, q: Page)
    requires Inv(vm) && Takes(vm, step, vm') && q in vm.spt
    ensures q in vm'.spt && vm'.spt[q].writable == vm.spt[q].writable
    ensures q in vm.pd ==> vm.pd[q].writable == vm.spt[q].writable
  {
    hide FramesOk;
    hide SlotsOk;
    hide EntriesOk;
    hide CleanOk;
    hide Load;
    match step
    case LoadStep(p, env) => LoadProtection(vm, p, env, q);
    case _ =>
  }

  lemma LoadProtection(vm: Vm, p: Page, env: Env, q: Page)
    requires Inv(vm) && (vm.free != {} ==> env.kpage in vm.free) && Load(vm, p, env).Some? && q in vm.spt
    ensures var vm' := Load(vm, p, env).value.0; q in vm'.spt && vm'.spt[q].writable == vm.spt[q].writable
  {
    hide Holding;
    hide Obtain;
    hide FillFrame;
    if p in vm.spt && !vm.spt[p].loaded {
      ObtainKeeps(vm, env);
      ObtainProtection(vm, env, q);
      var (vm1, k) := Obtain(vm, env).value;
      if env.malloc { FillProtection(vm1, p, k, env, q); }
    }
  }

  lemma ObtainProtection(vm: Vm, env: Env, q: Page)
    requires Inv(vm) && (vm.free != {} ==> env.kpage in vm.free) && Obtain(vm, env).Some? && q in vm.spt
    ensures var vm' := Obtain(vm, env).value.0; q in vm'.spt && vm'.spt[q].writable == vm.spt[q].writable
  {
    hide Holding;
    hide Sweep;
    hide SlotStored;
    hide WrittenBack;
    hide Without;
  }

  lemma FillProtection(vm: Vm, p: Page, k: nat, env: Env, q: Page)
    requires Holding(vm, {k}) && p in vm.spt && k in vm.mem && FillFrame(vm, p, k, env).Some? && q in vm.spt
    ensures var vm' := FillFrame(vm, p, k, env).value.0; q in vm'.spt && vm'.spt[q].writable == vm.spt[q].writable
  {
    hide Holding;
    hide SlotContent;
    hide Filled;
    hide ReadCount;
    EntrySizes(vm, {k}, p);
  }

  lemma {:induction false} RunProtection(states: seq<Vm>, steps: seq<Step>, p: Page, i: nat, j: nat)
    requires IsRun(states, steps) && i <= j < |states| && p in states[i].spt
    ensures p in states[j].spt && states[j].spt[p].writable == states[i].spt[p].writable
  {
    hide Takes;
    hide Holding;
    hide Init;
    if i < j {
      RunProtection(states, steps, p, i, j - 1);
      RunKeeps(states, steps, j - 1);
      StepProtection(states[j - 1], steps[j - 1], states[j - 1 + 1], p);
    }
  }

  /** From spt_set_file on, over every run, the process sees the file's bytes as they were
      then, changed by its own stores only, however often the page is loaded and evicted;
      and it may store if and only if the segment was to be writable. */
  lemma SegmentInvisible(states: seq<Vm>, steps: seq<Step>, i: nat, j: nat)
    requires IsRun(states, steps) && i < j < |states|
    requires steps[i].SetFileStep? && steps[i].malloc && steps[i].p !in states[i].spt
    ensures var e := steps[i];
            && e.p in states[j].spt && states[j].spt[e.p].writable == e.writable
            && Visible(states[j], e.p)
               == Some(Stored(SegmentPage(states[i].files, e.file, e.ofs, e.readBytes), steps, e.p, i + 1, j))
  {
    hide Holding;
    hide Visible;
    hide Init;
    hide Stored;
    var e := steps[i];
    RunKeeps(states, steps, i);
    SetFileMeaning(states[i], e.p, e.file, e.ofs, e.readBytes, e.zeroBytes, e.writable, e.malloc, states[i + 1]);
    PagingInvisible(states, steps, e.p, i + 1, j);
    RunProtection(states, steps, e.p, i + 1, j);
    assert Visible(states[i + 1], e.p).value == SegmentPage(states[i].files, e.file, e.ofs, e.readBytes);
  }

  /** The same for spt_set_zero. */
  lemma ZeroInvisible(states: seq<Vm>, steps: seq<Step>, i: nat, j: nat)
    requires IsRun(states, steps) && i < j < |states|
    requires steps[i].SetZeroStep? && steps[i].malloc && steps[i].p !in states[i].spt
    ensures var e := steps[i];
            && e.p in states[j].spt && states[j].spt[e.p].writable == e.writable
            && Visible(states[j], e.p) == Some(Stored(ZeroPage(), steps, e.p, i + 1, j))
  {
    hide Holding;
    hide Visible;
    hide Init;
    hide Stored;
    var e := steps[i];
    RunKeeps(states, steps, i);
    SetZeroMeaning(states[i], e.p, e.writable, e.malloc, states[i + 1]);
    PagingInvisible(states, steps, e.p, i + 1, j);
    RunProtection(states, steps, e.p, i + 1, j);
    assert Visible(states[i + 1], e.p).value == ZeroPage();
  }

  // ----- mapped files

  /** Evicting a mapped page that has been written puts its leading bytes into the file at
      the place it maps, as many as the write moves, and no other byte of any file
      changes; every other eviction leaves the files alone. */
  lemma EvictWritesBack(vm: Vm, env: Env)
    requires Inv(vm) && Evict(vm, env).Some?
    ensures exists v :: 0 <= v < |vm.frames| && !vm.frames[v].pinned && WrittenOut(vm, v, env, Evict(vm, env).value.0)
  {
    hide Holding;
    hide SlotStored;
    hide SlotContent;
    hide Without;
    var v := Sweep(vm.frames, Accessed(vm.pd), StartOf(vm.hand), 2 * |vm.frames|).1.value;
    VictimMapped(vm, v);
    assert WrittenOut(vm, v, env, Evict(vm, env).value.0);
  }

  ghost predicate WrittenOut(vm: Vm, v: nat, env: Env, vm': Vm)
    requires v < |vm.frames|
  {
    var f := vm.frames[v];
    && f.page in vm.spt && f.page in vm.pd && f.kpage in vm.mem && f.page !in vm'.pd
    && var e := vm.spt[f.page];
       var n := ReadCount(vm.files, e, env.wrote);
       if e.kind == Mmap && vm.pd[f.page].dirty && e.file !in vm.denied && e.file in vm.files then
         && vm'.files.Keys == vm.files.Keys && |vm'.files[e.file]| == |vm.files[e.file]|
         && (forall g :: g in vm.files && g != e.file ==> vm'.files[g] == vm.files[g])
         && forall i :: 0 <= i < |vm.files[e.file]| ==>
              vm'.files[e.file][i]
              == if e.ofs <= i < e.ofs + n then vm.mem[f.kpage][i - e.ofs] else vm.files[e.file][i]
       else vm'.files == vm.files
  }

  // ----- pinning and second chances

  /** Page p is in frame k, pinned there. */
  ghost predicate PinnedAt(vm: Vm, p: Page, k: nat) {
    p in vm.pd && vm.pd[p].kpage == k && Frame(k, p, true) in vm.frames
  }

  /** frame_pin and frame_unpin set the flag of the frame they name, and of no other. */
  lemma PinMeaning(vm: Vm, k: nat, pinned: bool, vm': Vm)
    requires Inv(vm) && Takes(vm, PinStep(k, pinned), vm')
    ensures |vm'.frames| == |vm.frames| && vm' == vm.(frames := vm'.frames)
    ensures forall i :: 0 <= i < |vm.frames| ==>
              && vm'.frames[i].kpage == vm.frames[i].kpage && vm'.frames[i].page == vm.frames[i].page
              && vm'.frames[i].pinned == if vm.frames[i].kpage == k then pinned else vm.frames[i].pinned
  {
  }

  /** Only frame_unpin takes a pinned page's frame away from it. */
  lemma PinnedStays(vm: Vm, step: Step, vm': Vm, p: Page, k: nat)
    requires Inv(vm) && Takes(vm, step, vm') && PinnedAt(vm, p, k) && step != PinStep(k, false)
    ensures PinnedAt(vm', p, k)
  {
    hide Holding;
    hide Load;
    var i :| 0 <= i < |vm.frames| && vm.frames[i] == Frame(k, p, true);
    match step
    case LoadStep(q, env) => LoadPinned(vm, q, env, p, k);
    case PinStep(_, _) => assert vm'.frames[i] == Frame(k, p, true);
    case _ =>
  }

  lemma LoadPinned(vm: Vm, q: Page, env: Env, p: Page, k: nat)
    requires Inv(vm) && (vm.free != {} ==> env.kpage in vm.free) && Load(vm, q, env).Some? && PinnedAt(vm, p, k)
    ensures PinnedAt(Load(vm, q, env).value.0, p, k)
  {
    hide Holding;
    hide Obtain;
    hide FillFrame;
    if q in vm.spt && !vm.spt[q].loaded {
      ObtainKeeps(vm, env);
      ObtainPinned(vm, env, p, k);
      var (vm1, h) := Obtain(vm, env).value;
      if env.malloc {
        ObtainedUnloaded(vm, env, q);
        FillPinned(vm1, q, h, env, p, k);
      }
    }
  }

  lemma ObtainedUnloaded(vm: Vm, env: Env, q: Page)
    requires Inv(vm) && (vm.free != {} ==> env.kpage in vm.free) && Obtain(vm, env).Some?
    requires q in vm.spt && !vm.spt[q].loaded
    ensures var vm1 := Obtain(vm, env).value.0; q in vm1.spt && q !in vm1.pd
  {
    hide FramesOk;
    hide SlotsOk;
    hide EntriesOk;
    hide CleanOk;
    hide Obtain;
    ObtainKeeps(vm, env);
  }

  lemma ObtainPinned(vm: Vm, env: Env, p: Page, k: nat)
    requires Inv(vm) && (vm.free != {} ==> env.kpage in vm.free) && Obtain(vm, env).Some? && PinnedAt(vm, p, k)
    ensures PinnedAt(Obtain(vm, env).value.0, p, k)
  {
    hide Holding;
    hide SlotStored;
    hide WrittenBack;
    if vm.free == {} {
      var v := Sweep(vm.frames, Accessed(vm.pd), StartOf(vm.hand), 2 * |vm.frames|).1.value;
      VictimOther(vm, v, p, k);
      WithoutKeeps(vm.frames, v, Frame(k, p, true));
    }
  }

  lemma VictimOther(vm: Vm, v: nat, p: Page, k: nat)
    requires Inv(vm) && v < |vm.frames| && !vm.frames[v].pinned && PinnedAt(vm, p, k)
    ensures vm.frames[v].page != p
  {
    var i :| 0 <= i < |vm.frames| && vm.frames[i] == Frame(k, p, true);
    assert i != v;
  }

  lemma WithoutKeeps(frames: seq<Frame>, v: nat, f: Frame)
    requires v < |frames| && f in frames && f != frames[v]
    ensures f in Without(frames, v)
  {
    var i :| 0 <= i < |frames| && frames[i] == f;
    assert Without(frames, v)[if i < v then i else i - 1] == f;
  }

  lemma FillPinned(vm: Vm, q: Page, h: nat, env: Env, p: Page, k: nat)
    requires Holding(vm, {h}) && q in vm.spt && q !in vm.pd && h in vm.mem && FillFrame(vm, q, h, env).Some?
    requires PinnedAt(vm, p, k)
    ensures PinnedAt(FillFrame(vm, q, h, env).value.0, p, k)
  {
    hide Holding;
    hide SlotContent;
    hide Filled;
    hide ReadCount;
    EntrySizes(vm, {h}, q);
  }

  /** From frame_pin to frame_unpin a page stays in its frame, over every run. */
  lemma {:induction false} RunPinned(states: seq<Vm>, steps: seq<Step>, p: Page, k: nat, i: nat, j: nat)
    requires IsRun(states, steps) && i < j < |states| && steps[i] == PinStep(k, true)
    requires p in states[i].pd && states[i].pd[p].kpage == k
    requires forall n :: i < n < j ==> steps[n] != PinStep(k, false)
    ensures PinnedAt(states[j], p, k)
  {
    hide Takes;
    hide Holding;
    hide Init;
    hide PinnedAt;
    RunKeeps(states, steps, j - 1);
    assert Takes(states[j - 1], steps[j - 1], states[j - 1 + 1]);
    if j == i + 1 {
      PinTakes(states[i], k, p, states[j]);
    } else {
      RunPinned(states, steps, p, k, i, j - 1);
      PinnedStays(states[j - 1], steps[j - 1], states[j], p, k);
    }
  }

  lemma PinTakes(vm: Vm, k: nat, p: Page, vm': Vm)
    requires Inv(vm) && Takes(vm, PinStep(k, true), vm') && p in vm.pd && vm.pd[p].kpage == k
    ensures PinnedAt(vm', p, k)
  {
    PinMeaning(vm, k, true, vm');
    assert p in PagesOf(vm.frames);
    var i :| 0 <= i < |vm.frames| && vm.frames[i].page == p;
    assert vm'.frames[i] == Frame(k, p, true);
  }

  /** A page that the program has touched or stored to is not evicted while there is an
      unpinned page that has not been accessed. */
  lemma TouchSpares(vm: Vm, step: Step, vm': Vm, env: Env)
    requires Inv(vm) && Takes(vm, step, vm') && (step.TouchStep? || step.StoreStep?)
    requires exists i :: 0 <= i < |vm'.frames| && !vm'.frames[i].pinned && vm'.frames[i].page !in Accessed(vm'.pd)
    ensures Inv(vm') && (Evict(vm', env).Some? ==> step.p in Evict(vm', env).value.0.pd)
  {
    hide Holding;
    StepKeeps(vm, step, vm');
    if Evict(vm', env).Some? { AccessedSpared(vm', env, step.p); }
  }

  lemma AccessedSpared(vm: Vm, env: Env, p: Page)
    requires Inv(vm) && Evict(vm, env).Some? && p in vm.pd && vm.pd[p].accessed
    requires exists i :: 0 <= i < |vm.frames| && !vm.frames[i].pinned && vm.frames[i].page !in Accessed(vm.pd)
    ensures p in Evict(vm, env).value.0.pd
  {
    hide Holding;
    hide WriteOut;
    hide Sweep;
    hide SecondChance;
    hide Without;
    var start := StartOf(vm.hand);
    TableFacts(vm);
    var k := SweepMeaning(vm.frames, Accessed(vm.pd), start);
    CandidateChosen(vm.frames, Accessed(vm.pd), start, k);
    var (accessed, v) := Sweep(vm.frames, Accessed(vm.pd), start, 2 * |vm.frames|);
    VictimMapped(vm, v.value);
    WriteOutShape(vm, accessed, v.value, env);
  }

  lemma TableFacts(vm: Vm)
    requires Inv(vm)
    ensures DistinctPages(vm.frames) && (vm.frames != [] ==> StartOf(vm.hand) < |vm.frames|)
  {
  }

  lemma CandidateChosen(frames: seq<Frame>, accessed: set<Page>, start: nat, k: nat)
    requires start < |frames| && k <= |frames|
    requires SecondChance(frames, accessed, start, Sweep(frames, accessed, start, 2 * |frames|), k)
    requires exists i :: 0 <= i < |frames| && !frames[i].pinned && frames[i].page !in accessed
    ensures var v := Sweep(frames, accessed, start, 2 * |frames|).1;
            v.Some? && v.value < |frames| && frames[v.value].page !in accessed
  {
    hide Sweep;
    var i :| 0 <= i < |frames| && !frames[i].pinned && frames[i].page !in accessed;
    var j := if i >= start then i - start else i - start + |frames|;
    assert Pos(start, j, |frames|) == i;
  }

  /** spt_load_page panics only when it must evict and either every frame is pinned or
      swap is full. */
  lemma LoadPanics(vm: Vm, p: Page, env: Env)
    requires Inv(vm) && (vm.free != {} ==> env.kpage in vm.free) && Load(vm, p, env).None?
    ensures p in vm.spt && !vm.spt[p].loaded && vm.free == {}
    ensures || (forall i :: 0 <= i < |vm.frames| ==> vm.frames[i].pinned)
            || (forall i :: 0 <= i < |vm.slots| ==> vm.slots[i])
  {
    hide Holding;
    hide FillFrame;
    hide Evict;
    if Obtain(vm, env).Some? {
      ObtainKeeps(vm, env);
      var (vm1, k) := Obtain(vm, env).value;
      FillKeeps(vm1, p, k, env);
    }
    EvictPanics(vm, env);
  }
}
