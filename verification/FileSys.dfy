/** The file system as a state machine: create, open, remove, close and write over a
    disk of bytes, a free map and the list of open inodes (src/filesys/filesys.c,
    inode.c, free-map.c, directory.c). */
module FileSys {
  import opened Arithmetic
  import opened Common
  import opened Inode
  import opened DiskFormat
  import Bitmaps

  const FREE_MAP := 0
  const ROOT := 1
  const SLOTS := 16
  const MAX_SIZE := 0x7fff_fe00 // above this, rounding up to sectors overflows off_t

  /** struct inode, in memory. */
  datatype OpenInode = OpenInode(sector: nat, openCnt: nat, removed: bool, data: Header)

  datatype Fs = Fs(disk: seq<Sector>, used: seq<bool>, open: seq<OpenInode>)

  /** The inode stored in sector s. */
  function HeaderAt(disk: seq<Sector>, s: nat): Header
    requires s < |disk|
  {
    DecodeHeader(disk[s])
  }

  // ----- the root directory, as a file of 16 entries

  predicate RootOk(disk: seq<Sector>) {
    ROOT < |disk| && HeaderAt(disk, ROOT).length == SLOTS * ENTRY && Fits(HeaderAt(disk, ROOT), |disk|)
  }

  function SlotBytes(disk: seq<Sector>, i: nat): (b: seq<Byte>)
    requires RootOk(disk) && i < SLOTS
    ensures |b| == ENTRY
  {
    Contents(disk, HeaderAt(disk, ROOT))[ENTRY * i..ENTRY * i + ENTRY]
  }

  function Entries(disk: seq<Sector>): (es: seq<Entry>)
    requires RootOk(disk)
    ensures |es| == SLOTS
  {
    seq(SLOTS, i requires 0 <= i < SLOTS => DecodeEntry(SlotBytes(disk, i)))
  }

  /** The first in-use entry with this name among slots i to k - 1, k if none. */
  function Find(es: seq<Entry>, name: seq<Byte>, i: nat, k: nat): (r: nat)
    requires i <= k <= |es|
    ensures i <= r <= k
    ensures r < k ==> es[r].inUse && es[r].name == name
    ensures forall j :: i <= j < r ==> !(es[j].inUse && es[j].name == name)
    decreases k - i
  {
    if i == k || (es[i].inUse && es[i].name == name) then i else Find(es, name, i + 1, k)
  }

  /** The first free slot among slots i to k - 1, k if none. */
  function FindFree(es: seq<Entry>, i: nat, k: nat): (r: nat)
    requires i <= k <= |es|
    ensures i <= r <= k
    ensures r < k ==> !es[r].inUse
    ensures forall j :: i <= j < r ==> es[j].inUse
    decreases k - i
  {
    if i == k || !es[i].inUse then i else FindFree(es, i + 1, k)
  }

  /** A scan of the directory stops at its end, or at the first read for which there is
      no memory. */
  function Readable(seen: nat): (k: nat)
    ensures k <= SLOTS
  {
    if seen < SLOTS then seen else SLOTS
  }

  /** lookup: the slot of the name, SLOTS if the scan does not meet it. */
  function Lookup(es: seq<Entry>, name: seq<Byte>, seen: nat): (r: nat)
    requires |es| == SLOTS
    ensures r <= SLOTS && (r < SLOTS ==> r < seen && es[r].inUse && es[r].name == name)
    ensures r == SLOTS ==> forall j :: 0 <= j < Readable(seen) ==> !(es[j].inUse && es[j].name == name)
  {
    var k := Readable(seen);
    var r := Find(es, name, 0, k);
    if r < k then r else SLOTS
  }

  function SetSlot(disk: seq<Sector>, i: nat, b: seq<Byte>): (r: seq<Sector>)
    requires RootOk(disk) && i < SLOTS && |b| == ENTRY
    ensures |r| == |disk|
  {
    FitsBytes(HeaderAt(disk, ROOT), |disk|);
    Overwrite(disk, SECTOR * HeaderAt(disk, ROOT).start + ENTRY * i, b)
  }

  // ----- operations

  // ----- the free map, written through to its own file

  /** Bits k to k + n of the map, bit k lowest. */
  function Packed(used: seq<bool>, k: nat, n: nat): (r: nat)
    ensures r < Pow2(n)
    decreases n
  {
    if n == 0 then 0 else (if k < |used| && used[k] then 1 else 0) + 2 * Packed(used, k + 1, n - 1)
  }

  /** Byte j of the packed map. */
  function MapByte(used: seq<bool>, j: nat): Byte {
    Pow2Values();
    Packed(used, 8 * j, 8)
  }

  /** The map as bitmap_write hands it over. */
  function MapBytes(used: seq<bool>): (b: seq<Byte>)
    ensures |b| == Bitmaps.ByteCnt(|used|)
  {
    seq(Bitmaps.ByteCnt(|used|), j requires 0 <= j < Bitmaps.ByteCnt(|used|) => MapByte(used, j))
  }

  /** The map that a file of n bits holds. */
  function MapRead(b: seq<Byte>, n: nat): seq<bool>
    requires n <= 8 * |b|
  {
    seq(n, k requires 0 <= k < n => BitIn(b, k))
  }

  predicate BitIn(b: seq<Byte>, k: nat)
    requires k < 8 * |b|
  {
    b[k / 8] / Pow2(k % 8) % 2 == 1
  }

  predicate MapFits(disk: seq<Sector>) {
    FREE_MAP < |disk| && Fits(HeaderAt(disk, FREE_MAP), |disk|)
  }

  /** Sector k holds data of the free map file. */
  predicate InMap(disk: seq<Sector>, k: nat)
    requires FREE_MAP < |disk|
  {
    HeaderAt(disk, FREE_MAP).start <= k < HeaderAt(disk, FREE_MAP).start + Sectors(HeaderAt(disk, FREE_MAP).length)
  }

  /** bitmap_write to the free map file: what is on the disk then, and whether all of it
      went through.  Without memory for a bounce buffer only whole sectors do. */
  function MapWritten(disk: seq<Sector>, used: seq<bool>, memory: bool): (r: (seq<Sector>, bool))
    ensures |r.0| == |disk|
  {
    if !MapFits(disk) then (disk, false)
    else
      var h, b := HeaderAt(disk, FREE_MAP), MapBytes(used);
      var n := Moved(h.length, |b|, 0, memory);
      FitsBytes(h, |disk|);
      (if n == 0 then disk else Overwrite(disk, SECTOR * h.start, b[..n]), n == |b|)
  }

  /** free_map_allocate: first fit, rolled back when the map cannot be written; `mapped`
      says whether the free map file is open, which it is but for its own creation. */
  ghost function Allocate(fs: Fs, cnt: nat, mapped: bool, memory: bool): (r: (Fs, Option<nat>))
    ensures |r.0.disk| == |fs.disk| && |r.0.used| == |fs.used| && r.0.open == fs.open
    ensures r.1.Some? ==> r.1.value + cnt <= |fs.used|
  {
    var a := Bitmaps.FirstFit(fs.used, 0, cnt, false);
    if a.None? then (fs, None)
    else
      var used' := Bitmaps.Filled(fs.used, a.value, cnt, true);
      var (disk', ok) := if mapped then MapWritten(fs.disk, used', memory) else (fs.disk, true);
      if ok then (Fs(disk', used', fs.open), a) else (fs.(disk := disk'), None)
  }

  /** free_map_release: a failure to write the map is ignored. */
  function Release(fs: Fs, start: nat, cnt: nat, memory: bool): (r: Fs)
    requires start + cnt <= |fs.used|
    ensures |r.disk| == |fs.disk| && |r.used| == |fs.used| && r.open == fs.open
  {
    var used' := Bitmaps.Filled(fs.used, start, cnt, false);
    Fs(MapWritten(fs.disk, used', memory).0, used', fs.open)
  }

  /** The disk after inode_create has written the header and zeroed the extent. */
  function Initialised(disk: seq<Sector>, s: nat, h: Header): (r: seq<Sector>)
    requires s < |disk| && Fits(h, |disk|) && h.start < LIMIT32 && h.length < LIMIT32
    ensures |r| == |disk|
  {
    seq(|disk|, k requires 0 <= k < |disk| => InitialisedSector(disk, s, h, k))
  }

  function InitialisedSector(disk: seq<Sector>, s: nat, h: Header, k: nat): Sector
    requires k < |disk| && h.start < LIMIT32 && h.length < LIMIT32
  {
    if h.start <= k < h.start + Sectors(h.length) then Zeros() else if k == s then EncodeHeader(h) else disk[k]
  }

  type EntryBytes = b: seq<Byte> | |b| == ENTRY witness seq(ENTRY, _ => 0)

  /** How a call's memory allocations go: for the root directory, for the inode to be
      created, opened and its file; for the bounce buffer of each free-map write and of
      the directory write; for how many entries the two scans of the directory can
      read; and what an uninitialised entry holds. */
  datatype Env = Env(root: bool, memory: bool, inode: bool, file: bool, map1: bool, map2: bool, map3: bool, map4: bool,
                     seen: nat, scanned: nat, bounce: bool, junk: EntryBytes)

  /** No allocation fails. */
  predicate Ample(env: Env) {
    && env.root && env.memory && env.inode && env.file && env.map1 && env.map2 && env.map3 && env.map4
    && env.seen >= SLOTS && env.scanned >= SLOTS && env.bounce
  }

  ghost predicate Sized(fs: Fs) { |fs.used| == |fs.disk| < LIMIT32 }

  /** inode_create. */
  ghost function CreateInode(fs: Fs, s: nat, length: nat, mapped: bool, env: Env): (r: (Fs, bool))
    requires Sized(fs) && s < |fs.disk| && length < LIMIT32
    ensures |r.0.disk| == |fs.disk| && |r.0.used| == |fs.used| && r.0.open == fs.open
  {
    if !env.memory then (fs, false)
    else
      var (fs1, a) := Allocate(fs, Sectors(length), mapped, env.map2);
      if a.None? then (fs1, false)
      else
        // a zero-length file is given sector 0 and no extent
        (fs1.(disk := Initialised(fs1.disk, s, Header(a.value, length))), true)
  }

  /** The entry buffer of dir_add when its second scan, which could read k slots, has
      stopped at slot i: that slot, or the one before it if slot i could not be read. */
  function LastRead(disk: seq<Sector>, i: nat, k: nat, junk: EntryBytes): EntryBytes
    requires RootOk(disk) && i < SLOTS
  {
    if i < k then SlotBytes(disk, i) else if i > 0 then SlotBytes(disk, i - 1) else junk
  }

  /** dir_add.  A scan that runs out of memory looks to it like the end of the directory. */
  function DirAdd(disk: seq<Sector>, name: seq<Byte>, s: nat, env: Env): (r: (seq<Sector>, bool))
    requires RootOk(disk) && s < LIMIT32
    ensures |r.0| == |disk|
  {
    if |name| == 0 || |name| > NAME_MAX then (disk, false)
    else if Lookup(Entries(disk), name, env.seen) < SLOTS then (disk, false)
    else
      var k := Readable(env.scanned);
      var i := FindFree(Entries(disk), 0, k);
      if i == SLOTS || !env.bounce then (disk, false)
      else (SetSlot(disk, i, EncodeEntry(LastRead(disk, i, k, env.junk), s, name)), true)
  }

  /** filesys_create.  On failure the inode sector is given back. */
  ghost function Create(fs: Fs, name: seq<Byte>, size: nat, env: Env): (r: (Fs, bool))
    requires Sized(fs) && RootOk(fs.disk) && size < LIMIT32
  {
    if !env.root then (fs, false)
    else
      var (fs1, a) := Allocate(fs, 1, true, env.map1);
      if a.None? then (fs1, false)
      else
        var s := a.value;
        var (fs2, made) := CreateInode(fs1, s, size, true, env);
        var (disk3, added) := if made && RootOk(fs2.disk) then DirAdd(fs2.disk, name, s, env) else (fs2.disk, false);
        if added then (fs2.(disk := disk3), true)
        else if s != 0 then (Release(fs2, s, 1, env.map3), false)
        else (fs2, false)
  }

  /** The position of the open inode of sector s, |open| if it is not open. */
  function FindOpen(open: seq<OpenInode>, s: nat, i: nat): (r: nat)
    requires i <= |open|
    ensures i <= r <= |open|
    ensures r < |open| ==> open[r].sector == s
    ensures forall j :: i <= j < r ==> open[j].sector != s
    decreases |open| - i
  {
    if i == |open| || open[i].sector == s then i else FindOpen(open, s, i + 1)
  }

  /** inode_open; memory says whether a new in-memory inode could be allocated. */
  function OpenSector(fs: Fs, s: nat, memory: bool): (r: (Fs, bool))
    requires s < |fs.disk|
  {
    var i := FindOpen(fs.open, s, 0);
    if i < |fs.open| then (fs.(open := fs.open[i := fs.open[i].(openCnt := fs.open[i].openCnt + 1)]), true)
    else if memory then (fs.(open := [OpenInode(s, 1, false, HeaderAt(fs.disk, s))] + fs.open), true)
    else (fs, false)
  }

  /** What inode_close relies on. */
  predicate CanClose(fs: Fs, s: nat) {
    var i := FindOpen(fs.open, s, 0);
    i < |fs.open| && fs.open[i].openCnt > 0 && s < |fs.used| && Fits(fs.open[i].data, |fs.used|)
  }

  /** inode_close without the writes to the free map file: the last close of a removed
      file frees its sectors. */
  function CloseQuietly(fs: Fs, s: nat): (r: Fs)
    requires CanClose(fs, s)
  {
    var i := FindOpen(fs.open, s, 0);
    var o := fs.open[i];
    if o.openCnt > 1 then fs.(open := fs.open[i := o.(openCnt := o.openCnt - 1)])
    else fs.(open := Without(fs.open, i), used := if o.removed then Released(fs.used, s, o.data) else fs.used)
  }

  /** The free map without the sectors of a file. */
  function Released(used: seq<bool>, s: nat, h: Header): seq<bool>
    requires s < |used| && Fits(h, |used|)
  {
    Bitmaps.Filled(Bitmaps.Filled(used, s, 1, false), h.start, Sectors(h.length), false)
  }

  /** inode_close. */
  function CloseSector(fs: Fs, s: nat, map1: bool, map2: bool): (r: Fs)
    requires CanClose(fs, s)
  {
    var i := FindOpen(fs.open, s, 0);
    var o := fs.open[i];
    if o.openCnt > 1 then fs.(open := fs.open[i := o.(openCnt := o.openCnt - 1)])
    else
      var fs1 := fs.(open := Without(fs.open, i));
      if o.removed then Release(Release(fs1, s, 1, map1), o.data.start, Sectors(o.data.length), map2) else fs1
  }

  // ----- ownership of sectors

  /** Sector k belongs to the file whose inode h is in sector s. */
  predicate Owns(h: Header, s: nat, k: nat) {
    k == s || h.start <= k < h.start + Sectors(h.length)
  }

  /** A file's sectors are on the disk, marked in the free map, and its inode is not
      part of its data. */
  ghost predicate FileOk(disk: seq<Sector>, used: seq<bool>, s: nat) {
    && s < |disk| == |used|
    && Fits(HeaderAt(disk, s), |disk|)
    && (forall k :: 0 <= k < |used| && Owns(HeaderAt(disk, s), s, k) ==> used[k])
    && !(HeaderAt(disk, s).start <= s < HeaderAt(disk, s).start + Sectors(HeaderAt(disk, s).length))
  }

  ghost predicate Apart(disk: seq<Sector>, s: nat, t: nat)
    requires s < |disk| && t < |disk|
  {
    forall k :: 0 <= k < |disk| ==> !(Owns(HeaderAt(disk, s), s, k) && Owns(HeaderAt(disk, t), t, k))
  }

  ghost predicate Separate(disk: seq<Sector>, used: seq<bool>, live: set<nat>) {
    && (forall s :: s in live ==> FileOk(disk, used, s))
    && (forall s, t :: s in live && t in live && s != t ==> Apart(disk, s, t))
  }

  ghost function NamedSet(es: seq<Entry>): set<nat> {
    set i | 0 <= i < |es| && es[i].inUse :: es[i].sector
  }

  ghost function OpenSet(open: seq<OpenInode>): set<nat> {
    set i | 0 <= i < |open| :: open[i].sector
  }

  /** The inode sectors of the files that are named or open, and of the two system
      files. */
  ghost function Live(fs: Fs): set<nat>
    requires RootOk(fs.disk)
  {
    {FREE_MAP, ROOT} + NamedSet(Entries(fs.disk)) + OpenSet(fs.open)
  }

  ghost predicate DirOk(es: seq<Entry>) {
    && (forall i :: 0 <= i < |es| && es[i].inUse ==> es[i].sector >= 2 && 0 < |es[i].name| <= NAME_MAX)
    && (forall i, j :: 0 <= i < j < |es| && es[i].inUse && es[j].inUse ==> es[i].sector != es[j].sector)
  }

  ghost predicate NamesDistinct(es: seq<Entry>) {
    forall i, j :: 0 <= i < j < |es| && es[i].inUse && es[j].inUse ==> es[i].name != es[j].name
  }

  /** Open inodes are open once each, agree with the disk, and a removed one has no
      name any more. */
  ghost predicate OpenOk(disk: seq<Sector>, open: seq<OpenInode>)
    requires RootOk(disk)
  {
    && (forall i :: 0 <= i < |open| ==>
          && open[i].openCnt > 0 && open[i].sector < |disk| && open[i].data == HeaderAt(disk, open[i].sector)
          && (open[i].removed ==> open[i].sector >= 2 && open[i].sector !in NamedSet(Entries(disk))))
    && (forall i, j :: 0 <= i < j < |open| ==> open[i].sector != open[j].sector)
  }

  ghost predicate Inv(fs: Fs) {
    && Sized(fs)
    && RootOk(fs.disk)
    && HeaderAt(fs.disk, FREE_MAP).length == Bitmaps.ByteCnt(|fs.disk|)
    && Separate(fs.disk, fs.used, Live(fs))
    && DirOk(Entries(fs.disk))
    && OpenOk(fs.disk, fs.open)
  }

  // ----- what depends on which sectors

  /** No inode sector of a live file is rewritten. */
  ghost predicate InodesKept(fs: Fs, fs': Fs)
    requires RootOk(fs.disk)
  {
    |fs'.disk| == |fs.disk| && forall t :: t in Live(fs) ==> t < |fs.disk| && fs'.disk[t] == fs.disk[t]
  }

  /** The file of inode sector s is the same on both disks. */
  ghost predicate SameFile(disk: seq<Sector>, disk': seq<Sector>, s: nat) {
    && s < |disk| == |disk'|
    && HeaderAt(disk', s) == HeaderAt(disk, s)
    && Fits(HeaderAt(disk, s), |disk|)
    && Contents(disk', HeaderAt(disk, s)) == Contents(disk, HeaderAt(disk, s))
  }

  lemma FileFrame(disk: seq<Sector>, disk': seq<Sector>, s: nat)
    requires s < |disk| == |disk'| && Fits(HeaderAt(disk, s), |disk|)
    requires forall k :: 0 <= k < |disk| && Owns(HeaderAt(disk, s), s, k) ==> disk'[k] == disk[k]
    ensures SameFile(disk, disk', s)
  {
    assert Owns(HeaderAt(disk, s), s, s);
    ContentsFrame(disk, disk', HeaderAt(disk, s)) by {
      forall k | HeaderAt(disk, s).start <= k < HeaderAt(disk, s).start + Sectors(HeaderAt(disk, s).length)
        ensures disk'[k] == disk[k]
      {
        assert Owns(HeaderAt(disk, s), s, k);
      }
    }
  }

  /** The directory is a file like any other. */
  lemma EntriesFrame(disk: seq<Sector>, disk': seq<Sector>)
    requires RootOk(disk) && SameFile(disk, disk', ROOT)
    ensures RootOk(disk') && Entries(disk') == Entries(disk)
  {
    forall i: nat | i < SLOTS ensures Entries(disk')[i] == Entries(disk)[i] {
      assert SlotBytes(disk', i) == SlotBytes(disk, i);
    }
  }

  /** Writing one entry changes that entry of the directory and no other, and no
      sector outside the directory's extent. */
  lemma SetSlotView(disk: seq<Sector>, used: seq<bool>, i: nat, b: seq<Byte>)
    requires RootOk(disk) && FileOk(disk, used, ROOT) && i < SLOTS && |b| == ENTRY
    ensures var disk' := SetSlot(disk, i, b);
            && RootOk(disk')
            && disk'[ROOT] == disk[ROOT]
            && Entries(disk') == Entries(disk)[i := DecodeEntry(b)]
            && forall k :: 0 <= k < |disk| && !Owns(HeaderAt(disk, ROOT), ROOT, k) ==> disk'[k] == disk[k]
  {
    hide Patch;
    hide Overwrite;
    hide Contents;
    hide Sectors;
    var h := HeaderAt(disk, ROOT);
    var disk' := SetSlot(disk, i, b);
    WriteMeaning(disk, h, ENTRY * i, b);
    assert disk'[ROOT] == disk[ROOT];
    forall j: nat | j < SLOTS ensures Entries(disk')[j] == Entries(disk)[i := DecodeEntry(b)][j] {
      SlotPatched(Contents(disk, h), i, b, j);
    }
  }

  lemma SlotPatched(c: seq<Byte>, i: nat, b: seq<Byte>, j: nat)
    requires |c| == SLOTS * ENTRY && i < SLOTS && j < SLOTS && |b| == ENTRY
    ensures Patch(c, ENTRY * i, b)[ENTRY * j..ENTRY * j + ENTRY]
            == if j == i then b else c[ENTRY * j..ENTRY * j + ENTRY]
  {
  }

  lemma SeparateSub(disk: seq<Sector>, used: seq<bool>, live: set<nat>, live': set<nat>)
    requires Separate(disk, used, live) && live' <= live
    ensures Separate(disk, used, live')
  {
  }

  /** Ownership is decided by the inode sectors; marking more sectors does no harm. */
  lemma SeparateFrame(disk: seq<Sector>, used: seq<bool>, live: set<nat>, disk': seq<Sector>, used': seq<bool>)
    requires Separate(disk, used, live) && |disk| == |disk'| == |used| == |used'|
    requires forall s :: s in live ==> disk'[s] == disk[s]
    requires forall s, k :: s in live && 0 <= k < |used| && Owns(HeaderAt(disk, s), s, k) ==> used'[k]
    ensures Separate(disk', used', live)
  {
    forall s | s in live ensures FileOk(disk', used', s) {
      assert FileOk(disk, used, s);
    }
    forall s, t | s in live && t in live && s != t ensures Apart(disk', s, t) {
      assert Apart(disk, s, t);
    }
  }

  // ----- steps that write only sectors that were free, and the free map file

  /** disk' and used' leave the marked sectors marked and, outside the free map file,
      as they were. */
  ghost predicate Extends(fs: Fs, disk': seq<Sector>, used': seq<bool>) {
    && FREE_MAP < |fs.disk| == |fs.used| == |disk'| == |used'|
    && forall k :: 0 <= k < |fs.used| && fs.used[k] ==> used'[k] && (disk'[k] == fs.disk[k] || InMap(fs.disk, k))
  }

  lemma ExtendsKeeps(fs: Fs, fs': Fs)
    requires Inv(fs) && Extends(fs, fs'.disk, fs'.used) && fs'.open == fs.open
    ensures Inv(fs') && Entries(fs'.disk) == Entries(fs.disk) && Live(fs') == Live(fs)
    ensures forall s :: s in Live(fs) ==> s < |fs.disk| && fs'.disk[s] == fs.disk[s]
    ensures forall s :: s in Live(fs) && s != FREE_MAP ==> SameFile(fs.disk, fs'.disk, s)
  {
    hide Owns;
    hide Fits;
    hide Contents;
    hide InMap;
    assert ROOT in Live(fs) && FREE_MAP in Live(fs);
    forall s | s in Live(fs) ensures s < |fs.disk| && fs'.disk[s] == fs.disk[s] {
      NotInMap(fs, s);
    }
    forall s | s in Live(fs) && s != FREE_MAP ensures SameFile(fs.disk, fs'.disk, s) {
      NotInMap(fs, s);
      FileFrame(fs.disk, fs'.disk, s);
    }
    EntriesFrame(fs.disk, fs'.disk);
    forall s, k | s in Live(fs) && 0 <= k < |fs.used| && Owns(HeaderAt(fs.disk, s), s, k) ensures fs'.used[k] {
      assert FileOk(fs.disk, fs.used, s);
    }
    SeparateFrame(fs.disk, fs.used, Live(fs), fs'.disk, fs'.used);
    forall i | 0 <= i < |fs.open| ensures fs.open[i].data == HeaderAt(fs'.disk, fs.open[i].sector) {
      assert fs.open[i].sector in OpenSet(fs.open);
    }
  }

  /** The data of the free map file belongs to no other file, and is not an inode. */
  lemma NotInMap(fs: Fs, s: nat)
    requires Inv(fs) && s in Live(fs)
    ensures s < |fs.disk| && fs.used[s] && !InMap(fs.disk, s) && FileOk(fs.disk, fs.used, s)
    ensures s != FREE_MAP ==> forall k :: 0 <= k < |fs.disk| && Owns(HeaderAt(fs.disk, s), s, k) ==> !InMap(fs.disk, k)
  {
    assert FREE_MAP in Live(fs);
    assert FileOk(fs.disk, fs.used, s) && FileOk(fs.disk, fs.used, FREE_MAP);
    OwnsItself(HeaderAt(fs.disk, s), s);
    if s != FREE_MAP {
      assert Apart(fs.disk, s, FREE_MAP);
      forall k | 0 <= k < |fs.disk| && InMap(fs.disk, k) ensures Owns(HeaderAt(fs.disk, FREE_MAP), FREE_MAP, k) {
      }
    }
  }

  /** Writing the map changes the free map file only. */
  lemma MapWrittenFrame(disk: seq<Sector>, used: seq<bool>, memory: bool)
    ensures var disk' := MapWritten(disk, used, memory).0;
            FREE_MAP < |disk| ==> forall k :: 0 <= k < |disk| && !InMap(disk, k) ==> disk'[k] == disk[k]
  {
    if MapFits(disk) {
      hide Overwrite;
      hide Contents;
      hide Moved;
      var h, b := HeaderAt(disk, FREE_MAP), MapBytes(used);
      var n := Moved(h.length, |b|, 0, memory);
      if n > 0 {
        MovedFits(h.length, |b|, memory);
        WriteMeaning(disk, h, 0, b[..n]);
      }
    }
  }

  lemma MovedFits(length: nat, size: nat, memory: bool)
    ensures Moved(length, size, 0, memory) <= length && Moved(length, size, 0, memory) <= size
  {
  }

  /** A free map file of the right size takes the whole map, if there is memory. */
  lemma MapWrittenAll(disk: seq<Sector>, used: seq<bool>)
    requires MapFits(disk) && HeaderAt(disk, FREE_MAP).length == Bitmaps.ByteCnt(|used|) && !InMap(disk, FREE_MAP)
    ensures var (disk', ok) := MapWritten(disk, used, true);
            && ok && HeaderAt(disk', FREE_MAP) == HeaderAt(disk, FREE_MAP)
            && Contents(disk', HeaderAt(disk, FREE_MAP)) == MapBytes(used)
  {
    hide Overwrite;
    hide Contents;
    hide MapBytes;
    var h, b := HeaderAt(disk, FREE_MAP), MapBytes(used);
    MapWrittenFrame(disk, used, true);
    if |b| > 0 {
      WriteMeaning(disk, h, 0, b);
      assert b[..|b|] == b;
      PatchOver(Contents(disk, h), b);
    } else {
      assert Contents(disk, h) == b;
    }
  }

  lemma PatchOver(s: seq<Byte>, b: seq<Byte>)
    requires |s| == |b|
    ensures Patch(s, 0, b) == b
  {
  }

  /** What free_map_open reads is the map that was written. */
  lemma MapRoundTrip(used: seq<bool>)
    ensures |used| <= 8 * |MapBytes(used)| && MapRead(MapBytes(used), |used|) == used
  {
    var b := MapBytes(used);
    forall k: nat | k < |used| ensures BitIn(b, k) == used[k] {
      PackedBit(used, 8 * (k / 8), 8, k % 8);
    }
  }

  lemma {:induction false} PackedBit(used: seq<bool>, k: nat, n: nat, i: nat)
    requires i < n && k + i < |used|
    ensures (Packed(used, k, n) / Pow2(i) % 2 == 1) == used[k + i]
    decreases n
  {
    var r := Packed(used, k, n);
    if i > 0 {
      assert r / 2 == Packed(used, k + 1, n - 1);
      DivDiv(r, 2, Pow2(i - 1));
      PackedBit(used, k + 1, n - 1, i - 1);
    }
  }

  lemma OwnsItself(h: Header, s: nat)
    ensures Owns(h, s, s)
  {
  }

  // ----- create

  /** An allocation takes sectors that were free, and otherwise writes only the free map
      file; one that fails leaves the map in memory as it was. */
  lemma AllocateFacts(fs: Fs, cnt: nat, mapped: bool, memory: bool)
    requires FREE_MAP < |fs.disk| == |fs.used|
    ensures var (fs', a) := Allocate(fs, cnt, mapped, memory);
            && (!mapped ==> fs'.disk == fs.disk)
            && (forall k :: 0 <= k < |fs.disk| && !InMap(fs.disk, k) ==> fs'.disk[k] == fs.disk[k])
            && (a.None? ==> fs'.used == fs.used)
            && (a.Some? ==>
                  && fs'.used == Bitmaps.Filled(fs.used, a.value, cnt, true)
                  && forall k :: a.value <= k < a.value + cnt ==> !fs.used[k])
  {
    hide MapWritten;
    hide InMap;
    Bitmaps.FirstFitLeast(fs.used, 0, cnt, false);
    var a := Bitmaps.FirstFit(fs.used, 0, cnt, false);
    if a.Some? { MapWrittenFrame(fs.disk, Bitmaps.Filled(fs.used, a.value, cnt, true), memory); }
  }

  /** The free map file's data is marked, and sector s is not part of it. */
  ghost predicate MapMarked(fs: Fs, s: nat) {
    && FREE_MAP < |fs.disk| == |fs.used|
    && !InMap(fs.disk, s)
    && forall k :: 0 <= k < |fs.disk| && InMap(fs.disk, k) ==> fs.used[k]
  }

  /** A file of zeros, in sectors that were free. */
  lemma CreateInodeFacts(fs: Fs, s: nat, length: nat, mapped: bool, env: Env)
    requires Sized(fs) && FREE_MAP < |fs.disk| && s < |fs.disk| && length < LIMIT32 && fs.used[s]
    requires mapped ==> MapMarked(fs, s)
    ensures var (fs2, made) := CreateInode(fs, s, length, mapped, env);
            && (forall k :: 0 <= k < |fs.disk| && fs.used[k] ==>
                  fs2.used[k] && (fs2.disk[k] == fs.disk[k] || (made && k == s) || (mapped && InMap(fs.disk, k))))
            && (!made ==>
                  && fs2.used == fs.used
                  && forall k :: 0 <= k < |fs.disk| && !InMap(fs.disk, k) ==> fs2.disk[k] == fs.disk[k])
            && (made ==>
                  && FileOk(fs2.disk, fs2.used, s)
                  && (forall k :: 0 <= k < |fs.disk| && Owns(HeaderAt(fs2.disk, s), s, k) ==> k == s || !fs.used[k])
                  && HeaderAt(fs2.disk, s).length == length
                  && Contents(fs2.disk, HeaderAt(fs2.disk, s)) == seq(length, _ => 0))
  {
    hide Sectors;
    hide Allocate;
    hide InMap;
    hide Contents;
    var (fs1, a) := Allocate(fs, Sectors(length), mapped, env.map2);
    AllocateFacts(fs, Sectors(length), mapped, env.map2);
    if env.memory && a.Some? {
      var h := Header(a.value, length);
      var disk' := Initialised(fs1.disk, s, h);
      assert disk'[s] == EncodeHeader(h);
      HeaderRoundTrip(h);
      forall k | h.start <= k < h.start + Sectors(h.length) ensures disk'[k] == Zeros() {
      }
      ZeroContents(disk', h);
    }
  }

  lemma ZeroContents(disk: seq<Sector>, h: Header)
    requires Fits(h, |disk|)
    requires forall k :: h.start <= k < h.start + Sectors(h.length) ==> disk[k] == Zeros()
    ensures Contents(disk, h) == seq(h.length, _ => 0)
  {
    var c, f, lo := Contents(disk, h), Flat(disk), SECTOR * h.start;
    FitsBytes(h, |disk|);
    forall i: nat | i < h.length ensures c[i] == 0 {
      assert c[i] == f[lo + i] == ByteAt(disk, lo + i);
      assert disk[(lo + i) / SECTOR] == Zeros();
    }
  }

  /** Adding a file whose sectors were all free. */
  lemma SeparateAdd(disk: seq<Sector>, used: seq<bool>, live: set<nat>, s: nat)
    requires Separate(disk, used, live) && FileOk(disk, used, s)
    requires forall t :: t in live && t != s ==> Apart(disk, s, t) && Apart(disk, t, s)
    ensures Separate(disk, used, live + {s})
  {
  }

  /** A directory write keeps every file apart and changes no file but the directory. */
  lemma DirWrite(disk: seq<Sector>, used: seq<bool>, live: set<nat>, i: nat, b: seq<Byte>)
    requires RootOk(disk) && Separate(disk, used, live) && ROOT in live && i < SLOTS && |b| == ENTRY
    ensures var disk' := SetSlot(disk, i, b);
            && RootOk(disk')
            && Entries(disk') == Entries(disk)[i := DecodeEntry(b)]
            && Separate(disk', used, live)
            && (forall t :: t in live ==> t < |disk| && disk'[t] == disk[t])
            && (forall t :: t in live && t != ROOT ==> SameFile(disk, disk', t))
  {
    hide Owns;
    hide Fits;
    hide Contents;
    hide SetSlot;
    var disk' := SetSlot(disk, i, b);
    assert FileOk(disk, used, ROOT);
    SetSlotView(disk, used, i, b);
    forall t | t in live && t != ROOT ensures SameFile(disk, disk', t) && disk'[t] == disk[t] {
      assert FileOk(disk, used, t) && Apart(disk, t, ROOT);
      OwnsItself(HeaderAt(disk, t), t);
      FileFrame(disk, disk', t);
    }
    forall s, k | s in live && 0 <= k < |used| && Owns(HeaderAt(disk, s), s, k) ensures used[k] {
      assert FileOk(disk, used, s);
    }
    SeparateFrame(disk, used, live, disk', used);
  }

  /** Naming s in slot i, where some other file may have been named. */
  lemma NamedAdd(es: seq<Entry>, i: nat, s: nat, name: seq<Byte>)
    requires DirOk(es) && i < |es| && s !in NamedSet(es) && s >= 2 && 0 < |name| <= NAME_MAX
    ensures var es' := es[i := Entry(s, name, true)];
            && DirOk(es') && NamedSet(es') <= NamedSet(es) + {s} && s in NamedSet(es')
            && (!es[i].inUse ==> NamedSet(es') == NamedSet(es) + {s})
  {
    var es' := es[i := Entry(s, name, true)];
    assert es'[i].sector == s;
    forall j | 0 <= j < |es| && es[j].inUse ensures es[j].sector in NamedSet(es) && es[j].sector != s {
    }
    if !es[i].inUse {
      forall x | x in NamedSet(es) ensures x in NamedSet(es') {
        var j :| 0 <= j < |es| && es[j].inUse && es[j].sector == x;
        assert es'[j] == es[j];
      }
    }
  }

  /** Names stay distinct if and only if the name was not in the directory, but for the
      slot that is overwritten. */
  lemma NamesAfterAdd(es: seq<Entry>, i: nat, s: nat, name: seq<Byte>)
    requires NamesDistinct(es) && i < |es|
    ensures NamesDistinct(es[i := Entry(s, name, true)]) <==>
            forall j :: 0 <= j < |es| && j != i ==> !(es[j].inUse && es[j].name == name)
  {
    var es' := es[i := Entry(s, name, true)];
    if NamesDistinct(es') {
      forall j | 0 <= j < |es| && j != i ensures !(es[j].inUse && es[j].name == name) {
        assert es'[j] == es[j] && es'[i].name == name;
      }
    }
  }

  /** Where dir_add puts the entry. */
  ghost predicate AddedAt(es: seq<Entry>, es': seq<Entry>, i: nat, name: seq<Byte>, s: nat, env: Env) {
    && |es| == SLOTS && i < SLOTS && es' == es[i := Entry(s, name, true)]
    && (env.scanned >= SLOTS ==> !es[i].inUse)
    && (env.seen >= SLOTS ==> forall j :: 0 <= j < SLOTS ==> !(es[j].inUse && es[j].name == name))
  }

  /** Naming a prepared file: dir_add on success. */
  lemma AddKeeps(fs: Fs, name: seq<Byte>, s: nat, env: Env)
    requires Inv(fs) && s < |fs.disk| && s !in Live(fs) && Separate(fs.disk, fs.used, Live(fs) + {s}) && 0 !in name
    requires DirAdd(fs.disk, name, s, env).1
    ensures var fs' := fs.(disk := DirAdd(fs.disk, name, s, env).0);
            && Inv(fs') && s in Live(fs') && Live(fs') <= Live(fs) + {s}
            && (exists i :: AddedAt(Entries(fs.disk), Entries(fs'.disk), i, name, s, env))
            && InodesKept(fs, fs')
            && (forall t :: t in Live(fs) + {s} && t != ROOT ==> SameFile(fs.disk, fs'.disk, t))
  {
    hide Owns;
    hide Fits;
    hide Contents;
    hide SetSlot;
    hide DecodeEntry;
    hide FileOk;
    hide Separate;
    hide SlotBytes;
    hide LastRead;
    hide DirOk;
    hide NamedSet;
    var es := Entries(fs.disk);
    var k := Readable(env.scanned);
    var i := FindFree(es, 0, k);
    var e := LastRead(fs.disk, i, k, env.junk);
    var b := EncodeEntry(e, s, name);
    EntryRoundTrip(e, s, name);
    DirWrite(fs.disk, fs.used, Live(fs) + {s}, i, b);
    var disk' := SetSlot(fs.disk, i, b);
    var fs' := fs.(disk := disk');
    NamedAdd(es, i, s, name);
    assert Entries(disk') == es[i := Entry(s, name, true)];
    assert AddedAt(es, Entries(disk'), i, name, s, env);
    SeparateSub(disk', fs.used, Live(fs) + {s}, Live(fs'));
    OpenUnderNames(fs.disk, disk', fs.open, Live(fs), s);
  }

  /** Open inodes do not mind which files are named, as long as no removed one is. */
  lemma OpenUnderNames(disk: seq<Sector>, disk': seq<Sector>, open: seq<OpenInode>, live: set<nat>, s: nat)
    requires RootOk(disk) && RootOk(disk') && |disk'| == |disk| && OpenOk(disk, open)
    requires OpenSet(open) <= live && s !in live && NamedSet(Entries(disk')) <= NamedSet(Entries(disk)) + {s}
    requires forall t :: t in live ==> t < |disk| && disk'[t] == disk[t]
    ensures OpenOk(disk', open)
  {
    hide NamedSet;
    hide Entries;
    forall j | 0 <= j < |open| ensures open[j].sector in OpenSet(open) {
    }
  }

  lemma SameFileTransitive(a: seq<Sector>, b: seq<Sector>, c: seq<Sector>, s: nat)
    requires SameFile(a, b, s) && SameFile(b, c, s)
    ensures SameFile(a, c, s)
  {
  }

  /** A prepared file is apart from every live one. */
  lemma PreparedApart(fs: Fs, fs2: Fs, s: nat)
    requires Inv(fs) && Inv(fs2) && Live(fs2) == Live(fs) && |fs2.disk| == |fs.disk| && s < |fs.disk|
    requires forall t :: t in Live(fs) ==> t < |fs.disk| && HeaderAt(fs2.disk, t) == HeaderAt(fs.disk, t)
    requires FileOk(fs2.disk, fs2.used, s)
    requires forall k :: 0 <= k < |fs.disk| && Owns(HeaderAt(fs2.disk, s), s, k) ==> !fs.used[k]
    ensures s !in Live(fs) && Separate(fs2.disk, fs2.used, Live(fs2) + {s})
  {
    hide Owns;
    OwnsItself(HeaderAt(fs2.disk, s), s);
    forall t | t in Live(fs) ensures t != s && Apart(fs2.disk, s, t) && Apart(fs2.disk, t, s) {
      assert FileOk(fs.disk, fs.used, t);
      OwnsItself(HeaderAt(fs.disk, t), t);
    }
    SeparateAdd(fs2.disk, fs2.used, Live(fs2), s);
  }

  /** What filesys_create does to the directory and the files. */
  ghost predicate Created(fs: Fs, fs': Fs, name: seq<Byte>, size: nat, s: nat, env: Env)
    requires RootOk(fs.disk) && RootOk(fs'.disk)
  {
    && s !in Live(fs) && s in Live(fs') && Live(fs') <= Live(fs) + {s}
    && (exists i :: AddedAt(Entries(fs.disk), Entries(fs'.disk), i, name, s, env))
    && s < |fs'.disk| && HeaderAt(fs'.disk, s).length == size && Fits(HeaderAt(fs'.disk, s), |fs'.disk|)
    && Contents(fs'.disk, HeaderAt(fs'.disk, s)) == seq(size, _ => 0)
  }

  /** The states filesys_create goes through: the inode sector s marked; the file
      made, or not; the inode sector given back. */
  lemma CreateStages(fs: Fs, size: nat, env: Env)
    requires Inv(fs) && size <= MAX_SIZE
    ensures var (fs1, a) := Allocate(fs, 1, true, env.map1);
            && Extends(fs, fs1.disk, fs1.used)
            && (a.Some? ==>
                  var s := a.value;
                  && Sized(fs1) && s < |fs.disk| && !fs.used[s] && fs1.used == fs.used[s := true] && MapMarked(fs1, s)
                  && var (fs2, made) := CreateInode(fs1, s, size, true, env);
                     && Extends(fs, fs2.disk, fs2.used)
                     && (var back := Release(fs2, s, 1, env.map3); Extends(fs, back.disk, back.used)))
  {
    hide Inv;
    hide InMap;
    hide CreateInode;
    hide Allocate;
    hide Extends;
    hide MapMarked;
    hide Release;
    InvMap(fs);
    var (fs1, a) := Allocate(fs, 1, true, env.map1);
    AllocateExtends(fs, env.map1);
    if a.Some? {
      var s := a.value;
      CreateInodeExtends(fs, fs1, s, size, env);
      var (fs2, made) := CreateInode(fs1, s, size, true, env);
      ReleaseExtends(fs, fs2, s, env.map3);
    }
  }

  lemma AllocateExtends(fs: Fs, memory: bool)
    requires Inv(fs)
    ensures var (fs1, a) := Allocate(fs, 1, true, memory);
            && Extends(fs, fs1.disk, fs1.used) && fs1.disk[FREE_MAP] == fs.disk[FREE_MAP]
            && (a.Some? ==> !fs.used[a.value] && fs1.used == fs.used[a.value := true] && MapMarked(fs1, a.value))
  {
    hide Inv;
    hide InMap;
    hide Allocate;
    InvMap(fs);
    MapIsMarked(fs);
    var (fs1, a) := Allocate(fs, 1, true, memory);
    AllocateFacts(fs, 1, true, memory);
    SameMap(fs.disk, fs1.disk);
    if a.Some? { assert fs1.used == fs.used[a.value := true]; }
  }

  lemma CreateInodeExtends(fs: Fs, fs1: Fs, s: nat, size: nat, env: Env)
    requires Sized(fs1) && Extends(fs, fs1.disk, fs1.used) && fs1.disk[FREE_MAP] == fs.disk[FREE_MAP]
             && fs.used[FREE_MAP]
    requires !InMap(fs.disk, FREE_MAP)
    requires s < |fs.disk| && !fs.used[s] && fs1.used == fs.used[s := true] && MapMarked(fs1, s) && size <= MAX_SIZE
    ensures var (fs2, made) := CreateInode(fs1, s, size, true, env);
            Extends(fs, fs2.disk, fs2.used) && fs2.disk[FREE_MAP] == fs.disk[FREE_MAP]
  {
    hide InMap;
    hide CreateInode;
    SameMap(fs.disk, fs1.disk);
    CreateInodeFacts(fs1, s, size, true, env);
  }

  lemma ReleaseExtends(fs: Fs, fs2: Fs, s: nat, memory: bool)
    requires Extends(fs, fs2.disk, fs2.used) && fs2.disk[FREE_MAP] == fs.disk[FREE_MAP] && s < |fs.disk| && !fs.used[s]
    ensures var back := Release(fs2, s, 1, memory); Extends(fs, back.disk, back.used)
  {
    hide InMap;
    hide MapWritten;
    SameMap(fs.disk, fs2.disk);
    MapWrittenFrame(fs2.disk, Bitmaps.Filled(fs2.used, s, 1, false), memory);
  }

  /** Which sectors are the free map's is read from its inode. */
  lemma SameMap(disk: seq<Sector>, disk': seq<Sector>)
    requires FREE_MAP < |disk| == |disk'| && disk'[FREE_MAP] == disk[FREE_MAP]
    ensures forall k :: InMap(disk', k) <==> InMap(disk, k)
  {
  }

  lemma MapIsMarked(fs: Fs)
    requires Inv(fs)
    ensures forall k :: 0 <= k < |fs.disk| && InMap(fs.disk, k) ==> fs.used[k]
  {
    assert FREE_MAP in Live(fs) && FileOk(fs.disk, fs.used, FREE_MAP);
    forall k | 0 <= k < |fs.disk| && InMap(fs.disk, k) ensures Owns(HeaderAt(fs.disk, FREE_MAP), FREE_MAP, k) {
    }
  }

  lemma CreateKeeps(fs: Fs, name: seq<Byte>, size: nat, env: Env)
    requires Inv(fs) && 0 !in name && size <= MAX_SIZE
    ensures var (fs', ok) := Create(fs, name, size, env);
            && Inv(fs') && fs'.open == fs.open && InodesKept(fs, fs')
            && (!ok ==> Entries(fs'.disk) == Entries(fs.disk))
            && (ok ==> exists s :: Created(fs, fs', name, size, s, env))
            && forall t :: t in Live(fs) && t >= 2 ==> SameFile(fs.disk, fs'.disk, t)
  {
    hide Inv;
    hide Owns;
    hide Fits;
    hide Contents;
    hide DirAdd;
    hide CreateInode;
    hide Allocate;
    hide Release;
    hide Extends;
    hide MapMarked;
    hide Live;
    InvRoot(fs);
    CreateStages(fs, size, env);
    ExtendsSelf(fs);
    ExtendsKeeps(fs, fs);
    if env.root {
      var (fs1, a) := Allocate(fs, 1, true, env.map1);
      ExtendsKeeps(fs, fs1);
      if a.Some? {
        var s := a.value;
        var (fs2, made) := CreateInode(fs1, s, size, true, env);
        ExtendsKeeps(fs, fs2);
        InvRoot(fs2);
        ExtendsKeeps(fs, Release(fs2, s, 1, env.map3));
        if made && DirAdd(fs2.disk, name, s, env).1 {
          CreateSucceeds(fs, fs1, fs2, name, size, s, env);
        }
      }
    }
  }

  lemma ExtendsSelf(fs: Fs)
    requires Inv(fs)
    ensures Extends(fs, fs.disk, fs.used)
  {
  }

  /** There is room for an inode and, after it, for the data. */
  ghost predicate HasRoom(used: seq<bool>, size: nat) {
    var a := Bitmaps.FirstFit(used, 0, 1, false);
    a.Some? && Bitmaps.FirstFit(Bitmaps.Filled(used, a.value, 1, true), 0, Sectors(size), false).Some?
  }

  /** With memory, filesys_create succeeds exactly on a new, valid name with room in the
      directory and on the disk. */
  lemma CreateSucceedsWhen(fs: Fs, name: seq<Byte>, size: nat, env: Env)
    requires Inv(fs) && 0 !in name && size <= MAX_SIZE && Ample(env)
    ensures Create(fs, name, size, env).1 <==>
            && 0 < |name| <= NAME_MAX
            && Lookup(Entries(fs.disk), name, SLOTS) == SLOTS && FindFree(Entries(fs.disk), 0, SLOTS) < SLOTS
            && HasRoom(fs.used, size)
  {
    hide Owns;
    hide Contents;
    hide Inv;
    hide Live;
    hide SameFile;
    hide DirAdd;
    hide CreateInode;
    hide Allocate;
    hide Release;
    hide Lookup;
    hide FindFree;
    hide Extends;
    hide Bitmaps.FirstFit;
    InvRoot(fs);
    CreateStages(fs, size, env);
    AllocatedWhen(fs, 1);
    var (fs1, a) := Allocate(fs, 1, true, true);
    if a.Some? {
      var s := a.value;
      assert fs1.used == Bitmaps.Filled(fs.used, s, 1, true);
      ExtendsKeeps(fs, fs1);
      AllocatedWhen(fs1, Sectors(size));
      MadeWhen(fs1, s, size, env);
      var (fs2, made) := CreateInode(fs1, s, size, true, env);
      ExtendsKeeps(fs, fs2);
      InvRoot(fs2);
      AddedWhen(fs2.disk, name, s, env);
    }
  }

  lemma AllocatedWhen(fs: Fs, cnt: nat)
    requires Inv(fs)
    ensures Allocate(fs, cnt, true, true).1 == Bitmaps.FirstFit(fs.used, 0, cnt, false)
  {
    hide Contents;
    assert FREE_MAP in Live(fs);
    NotInMap(fs, FREE_MAP);
    var a := Bitmaps.FirstFit(fs.used, 0, cnt, false);
    if a.Some? { MapWrittenAll(fs.disk, Bitmaps.Filled(fs.used, a.value, cnt, true)); }
  }

  lemma InvRoot(fs: Fs)
    requires Inv(fs)
    ensures Sized(fs) && RootOk(fs.disk)
  {
  }

  lemma MadeWhen(fs: Fs, s: nat, length: nat, env: Env)
    requires Sized(fs) && s < |fs.disk| && length < LIMIT32 && Ample(env)
    ensures CreateInode(fs, s, length, true, env).1 <==> Allocate(fs, Sectors(length), true, true).1.Some?
  {
    hide Allocate;
  }

  lemma AddedWhen(disk: seq<Sector>, name: seq<Byte>, s: nat, env: Env)
    requires RootOk(disk) && s < LIMIT32 && Ample(env)
    ensures DirAdd(disk, name, s, env).1 <==>
            && 0 < |name| <= NAME_MAX
            && Lookup(Entries(disk), name, SLOTS) == SLOTS && FindFree(Entries(disk), 0, SLOTS) < SLOTS
  {
  }

  lemma CreateSucceeds(fs: Fs, fs1: Fs, fs2: Fs, name: seq<Byte>, size: nat, s: nat, env: Env)
    requires Inv(fs) && 0 !in name && size <= MAX_SIZE && s < |fs.disk| && !fs.used[s]
    requires Sized(fs1) && MapMarked(fs1, s) && |fs1.disk| == |fs.disk| && fs1.used == fs.used[s := true]
    requires CreateInode(fs1, s, size, true, env) == (fs2, true)
    requires Inv(fs2) && Live(fs2) == Live(fs) && Entries(fs2.disk) == Entries(fs.disk) && fs2.open == fs.open
    requires forall t :: t in Live(fs) ==> t < |fs.disk| && fs2.disk[t] == fs.disk[t]
    requires forall t :: t in Live(fs) && t != FREE_MAP ==> SameFile(fs.disk, fs2.disk, t)
    requires DirAdd(fs2.disk, name, s, env).1
    ensures var fs' := fs2.(disk := DirAdd(fs2.disk, name, s, env).0);
            && Inv(fs') && Created(fs, fs', name, size, s, env) && InodesKept(fs, fs')
            && forall t :: t in Live(fs) && t >= 2 ==> SameFile(fs.disk, fs'.disk, t)
  {
    hide Owns;
    hide Fits;
    hide Contents;
    hide DirAdd;
    hide CreateInode;
    hide FileOk;
    hide Separate;
    hide OpenOk;
    hide DirOk;
    CreateInodeFacts(fs1, s, size, true, env);
    PreparedApart(fs, fs2, s);
    AddKeeps(fs2, name, s, env);
    var fs' := fs2.(disk := DirAdd(fs2.disk, name, s, env).0);
    assert SameFile(fs2.disk, fs'.disk, s);
    forall t | t in Live(fs) && t >= 2 ensures SameFile(fs.disk, fs'.disk, t) {
      SameFileTransitive(fs.disk, fs2.disk, fs'.disk, t);
    }
  }

  // ----- open and close

  lemma OpenSetAt(open: seq<OpenInode>, s: nat)
    ensures s in OpenSet(open) <==> FindOpen(open, s, 0) < |open|
  {
    var i := FindOpen(open, s, 0);
    if s in OpenSet(open) {
      var j :| 0 <= j < |open| && open[j].sector == s;
      assert !(j < i);
    }
  }

  lemma OpenKeeps(fs: Fs, s: nat, memory: bool)
    requires Inv(fs) && s in Live(fs)
    ensures s < |fs.disk|
    ensures var (fs', ok) := OpenSector(fs, s, memory);
            && Inv(fs') && Live(fs') == Live(fs) && fs'.disk == fs.disk && fs'.used == fs.used
            && (!ok ==> fs' == fs) && (ok ==> s in OpenSet(fs'.open))
            && (memory ==> ok)
  {
    hide Separate;
    hide DirOk;
    hide OpenOk;
    hide OpenSet;
    hide FindOpen;
    LiveFits(fs, s);
    OpenSetAt(fs.open, s);
    FindOpenAt(fs.open, s);
    var i := FindOpen(fs.open, s, 0);
    if i < |fs.open| {
      RecountKeeps(fs.disk, fs.open, i, fs.open[i].openCnt + 1);
    } else if memory {
      PushKeeps(fs.disk, fs.open, s);
      assert Live(OpenSector(fs, s, memory).0) == Live(fs);
    }
  }

  lemma RecountKeeps(disk: seq<Sector>, open: seq<OpenInode>, i: nat, cnt: nat)
    requires RootOk(disk) && OpenOk(disk, open) && i < |open| && cnt > 0
    ensures var open' := open[i := open[i].(openCnt := cnt)];
            OpenOk(disk, open') && OpenSet(open') == OpenSet(open)
  {
    hide NamedSet;
    hide Entries;
    SameSectors(open, open[i := open[i].(openCnt := cnt)]);
  }

  lemma PushKeeps(disk: seq<Sector>, open: seq<OpenInode>, s: nat)
    requires RootOk(disk) && OpenOk(disk, open) && s < |disk| && s !in OpenSet(open)
    ensures var open' := [OpenInode(s, 1, false, HeaderAt(disk, s))] + open;
            OpenOk(disk, open') && OpenSet(open') == OpenSet(open) + {s}
  {
    hide NamedSet;
    hide Entries;
    var open' := [OpenInode(s, 1, false, HeaderAt(disk, s))] + open;
    forall x | x in OpenSet(open) + {s} ensures x in OpenSet(open') {
      if x == s {
        assert open'[0].sector == x;
      } else {
        var j :| 0 <= j < |open| && open[j].sector == x;
        assert open'[j + 1].sector == x;
      }
    }
    forall j | 0 <= j < |open| ensures open[j].sector != s {
      assert open[j].sector in OpenSet(open);
    }
  }

  lemma FindOpenAt(open: seq<OpenInode>, s: nat)
    ensures var r := FindOpen(open, s, 0);
            && r <= |open|
            && (r < |open| ==> open[r].sector == s)
            && forall j :: 0 <= j < r ==> open[j].sector != s
  {
  }

  lemma SameSectors(a: seq<OpenInode>, b: seq<OpenInode>)
    requires |a| == |b| && forall i :: 0 <= i < |a| ==> a[i].sector == b[i].sector
    ensures OpenSet(a) == OpenSet(b)
  {
    forall x | x in OpenSet(a) ensures x in OpenSet(b) {
      var i :| 0 <= i < |a| && a[i].sector == x;
      assert b[i].sector == x;
    }
    forall x | x in OpenSet(b) ensures x in OpenSet(a) {
      var i :| 0 <= i < |b| && b[i].sector == x;
      assert a[i].sector == x;
    }
  }

  lemma LiveFits(fs: Fs, s: nat)
    requires Inv(fs) && s in Live(fs)
    ensures s < |fs.disk| && Fits(HeaderAt(fs.disk, s), |fs.disk|) && fs.used[s]
  {
    assert FileOk(fs.disk, fs.used, s);
    assert Owns(HeaderAt(fs.disk, s), s, s);
  }

  lemma WithoutSet(open: seq<OpenInode>, i: nat)
    requires i < |open| && forall j, k :: 0 <= j < k < |open| ==> open[j].sector != open[k].sector
    ensures OpenSet(Without(open, i)) == OpenSet(open) - {open[i].sector}
  {
    var open' := Without(open, i);
    forall x | x in OpenSet(open) && x != open[i].sector ensures x in OpenSet(open') {
      var j :| 0 <= j < |open| && open[j].sector == x;
      assert open'[if j < i then j else j - 1].sector == x;
    }
    forall x | x in OpenSet(open') ensures x in OpenSet(open) - {open[i].sector} {
      var j :| 0 <= j < |open'| && open'[j].sector == x;
      var k := if j < i then j else j + 1;
      assert open[k].sector == x && k != i;
    }
  }

  lemma WithoutKeeps(disk: seq<Sector>, open: seq<OpenInode>, i: nat)
    requires RootOk(disk) && OpenOk(disk, open) && i < |open|
    ensures OpenOk(disk, Without(open, i)) && OpenSet(Without(open, i)) == OpenSet(open) - {open[i].sector}
  {
    hide NamedSet;
    hide Entries;
    hide OpenSet;
    WithoutSet(open, i);
  }

  lemma CloseReady(fs: Fs, s: nat)
    requires Inv(fs) && s in OpenSet(fs.open)
    ensures CanClose(fs, s)
    ensures fs.open[FindOpen(fs.open, s, 0)].data == HeaderAt(fs.disk, s)
  {
    OpenSetAt(fs.open, s);
    LiveFits(fs, s);
  }

  lemma CloseQuietlyKeeps(fs: Fs, s: nat)
    requires Inv(fs) && s in OpenSet(fs.open)
    ensures CanClose(fs, s)
    ensures var fs' := CloseQuietly(fs, s);
            var o := fs.open[FindOpen(fs.open, s, 0)];
            && Inv(fs') && fs'.disk == fs.disk && Live(fs') <= Live(fs) <= Live(fs') + {s}
            && (o.openCnt > 1 ==> s in OpenSet(fs'.open))
            && forall k :: 0 <= k < |fs.used| ==>
                 fs'.used[k] == (fs.used[k] && !(o.openCnt == 1 && o.removed && Owns(HeaderAt(fs.disk, s), s, k)))
  {
    hide Separate;
    hide DirOk;
    hide OpenOk;
    hide OpenSet;
    hide FindOpen;
    hide Fits;
    CloseReady(fs, s);
    FindOpenAt(fs.open, s);
    var i := FindOpen(fs.open, s, 0);
    var o := fs.open[i];
    var fs' := CloseQuietly(fs, s);
    if o.openCnt > 1 {
      RecountKeeps(fs.disk, fs.open, i, o.openCnt - 1);
    } else {
      WithoutKeeps(fs.disk, fs.open, i);
      SeparateSub(fs.disk, fs.used, Live(fs), Live(fs'));
      if o.removed {
        RemovedGone(fs, i);
        ReleaseKeeps(fs, s, Live(fs'));
      }
    }
  }

  /** The free map file is the only part of the disk that a close writes. */
  lemma CloseIsQuiet(fs: Fs, s: nat, map1: bool, map2: bool)
    requires CanClose(fs, s) && FREE_MAP < |fs.disk| && !InMap(fs.disk, FREE_MAP)
    ensures var fs' := CloseSector(fs, s, map1, map2);
            && |fs'.disk| == |fs.disk| && fs' == CloseQuietly(fs, s).(disk := fs'.disk)
            && forall k :: 0 <= k < |fs.disk| && !InMap(fs.disk, k) ==> fs'.disk[k] == fs.disk[k]
  {
    hide MapWritten;
    hide Sectors;
    var o := fs.open[FindOpen(fs.open, s, 0)];
    if o.openCnt == 1 && o.removed {
      var used1 := Bitmaps.Filled(fs.used, s, 1, false);
      var disk1 := MapWritten(fs.disk, used1, map1).0;
      MapWrittenFrame(fs.disk, used1, map1);
      SameMap(fs.disk, disk1);
      MapWrittenFrame(disk1, Bitmaps.Filled(used1, o.data.start, Sectors(o.data.length), false), map2);
    }
  }

  /** Closing: the sectors of a removed file are given back, all of them and only
      they, exactly at its last close; every other file keeps its own. */
  lemma CloseKeeps(fs: Fs, s: nat, map1: bool, map2: bool)
    requires Inv(fs) && s in OpenSet(fs.open)
    ensures CanClose(fs, s)
    ensures var fs' := CloseSector(fs, s, map1, map2);
            var o := fs.open[FindOpen(fs.open, s, 0)];
            && Inv(fs') && Live(fs') <= Live(fs) <= Live(fs') + {s} && Entries(fs'.disk) == Entries(fs.disk)
            && InodesKept(fs, fs')
            && (o.openCnt > 1 ==> s in OpenSet(fs'.open))
            && (forall k :: 0 <= k < |fs.used| ==>
                  fs'.used[k] == (fs.used[k] && !(o.openCnt == 1 && o.removed && Owns(HeaderAt(fs.disk, s), s, k))))
            && forall t :: t in Live(fs) && t != FREE_MAP ==> SameFile(fs.disk, fs'.disk, t)
  {
    hide Separate;
    hide DirOk;
    hide OpenOk;
    hide OpenSet;
    hide FindOpen;
    hide CloseSector;
    hide CloseQuietly;
    hide CanClose;
    hide Owns;
    hide Contents;
    CloseReady(fs, s);
    CloseQuietlyKeeps(fs, s);
    assert FREE_MAP in Live(fs);
    NotInMap(fs, FREE_MAP);
    CloseIsQuiet(fs, s, map1, map2);
    var fs', quiet := CloseSector(fs, s, map1, map2), CloseQuietly(fs, s);
    ExtendsKeeps(quiet, fs');
    forall t | t in Live(fs) ensures t < |fs.disk| && fs'.disk[t] == fs.disk[t] {
      NotInMap(fs, t);
    }
    forall t | t in Live(fs) && t != FREE_MAP ensures SameFile(fs.disk, fs'.disk, t) {
      NotInMap(fs, t);
      FileFrame(fs.disk, fs'.disk, t);
    }
  }

  lemma RemovedGone(fs: Fs, i: nat)
    requires Inv(fs) && i < |fs.open| && fs.open[i].removed
    ensures fs.open[i].sector >= 2 && fs.open[i].sector !in NamedSet(Entries(fs.disk))
  {
  }

  lemma ReleaseKeeps(fs: Fs, s: nat, live: set<nat>)
    requires Inv(fs) && s in Live(fs) && live <= Live(fs) - {s}
    ensures s < |fs.used| && Fits(HeaderAt(fs.disk, s), |fs.used|)
    ensures var used' := Released(fs.used, s, HeaderAt(fs.disk, s));
            && Separate(fs.disk, used', live)
            && forall k :: 0 <= k < |fs.used| ==> used'[k] == (fs.used[k] && !Owns(HeaderAt(fs.disk, s), s, k))
  {
    LiveFits(fs, s);
    var used' := Released(fs.used, s, HeaderAt(fs.disk, s));
    SeparateSub(fs.disk, fs.used, Live(fs), live);
    forall t, k | t in live && 0 <= k < |fs.used| && Owns(HeaderAt(fs.disk, t), t, k) ensures used'[k] {
      assert FileOk(fs.disk, fs.used, t) && Apart(fs.disk, s, t);
    }
    SeparateFrame(fs.disk, fs.used, live, fs.disk, used');
  }

  lemma OpenCounts(fs: Fs)
    requires Inv(fs)
    ensures forall i :: 0 <= i < |fs.open| ==> fs.open[i].openCnt > 0
    ensures forall i, j :: 0 <= i < j < |fs.open| ==> fs.open[i].sector != fs.open[j].sector
  {
  }

  /** A failed file_open gives back what inode_open took. */
  lemma OpenThenClose(fs: Fs, s: nat)
    requires Inv(fs) && s in Live(fs)
    ensures s < |fs.disk|
    ensures CanClose(OpenSector(fs, s, true).0, s)
    ensures forall map1, map2 :: CloseSector(OpenSector(fs, s, true).0, s, map1, map2) == fs
  {
    hide Inv;
    hide Live;
    hide Release;
    OpenCounts(fs);
    hide Fits;
    OpenKeeps(fs, s, true);
    var fs' := OpenSector(fs, s, true).0;
    CloseReady(fs', s);
    var i := FindOpen(fs.open, s, 0);
    if i < |fs.open| {
      var open' := fs'.open;
      assert FindOpen(open', s, 0) == i;
      assert open'[i := open'[i].(openCnt := open'[i].openCnt - 1)] == fs.open;
    } else {
      assert FindOpen(fs'.open, s, 0) == 0;
      assert Without(fs'.open, 0) == fs.open;
    }
  }

  /** filesys_open: the inode sector of the file, None for a null pointer. */
  function Open(fs: Fs, name: seq<Byte>, env: Env): (r: (Fs, Option<nat>))
    requires RootOk(fs.disk)
    requires forall i :: 0 <= i < SLOTS && Entries(fs.disk)[i].inUse ==> Entries(fs.disk)[i].sector < |fs.disk|
  {
    var i := Lookup(Entries(fs.disk), name, env.seen);
    if !env.root || i == SLOTS then (fs, None)
    else
      var s := Entries(fs.disk)[i].sector;
      var (fs', ok) := OpenSector(fs, s, env.inode);
      if ok && env.file then (fs', Some(s))
      else if ok && CanClose(fs', s) then (CloseSector(fs', s, env.map1, env.map2), None)
      else (fs, None)
  }

  lemma NamedLive(fs: Fs, i: nat)
    requires Inv(fs) && i < SLOTS && Entries(fs.disk)[i].inUse
    ensures Entries(fs.disk)[i].sector in Live(fs) && 2 <= Entries(fs.disk)[i].sector < |fs.disk|
  {
    var es := Entries(fs.disk);
    assert es[i].sector in NamedSet(es);
    LiveFits(fs, es[i].sector);
  }

  lemma NamesOnDisk(fs: Fs)
    requires Inv(fs)
    ensures forall i :: 0 <= i < SLOTS && Entries(fs.disk)[i].inUse ==> Entries(fs.disk)[i].sector < |fs.disk|
  {
    forall i | 0 <= i < SLOTS && Entries(fs.disk)[i].inUse ensures Entries(fs.disk)[i].sector < |fs.disk| {
      NamedLive(fs, i);
    }
  }

  lemma OpenFileKeeps(fs: Fs, name: seq<Byte>, env: Env)
    requires Inv(fs)
    ensures forall i :: 0 <= i < SLOTS && Entries(fs.disk)[i].inUse ==> Entries(fs.disk)[i].sector < |fs.disk|
    ensures var (fs', r) := Open(fs, name, env);
            var i := Lookup(Entries(fs.disk), name, env.seen);
            && Inv(fs') && fs'.disk == fs.disk && fs'.used == fs.used && Live(fs') == Live(fs)
            && (r.None? ==> fs' == fs)
            && (r.Some? ==> i < SLOTS && r.value == Entries(fs.disk)[i].sector && r.value in OpenSet(fs'.open))
            && (env.root && env.inode && env.file && i < SLOTS ==> r.Some?)
  {
    hide Separate;
    hide DirOk;
    hide OpenOk;
    hide FindOpen;
    hide Entries;
    hide OpenSector;
    hide CloseSector;
    NamesOnDisk(fs);
    var i := Lookup(Entries(fs.disk), name, env.seen);
    if i < SLOTS {
      var s := Entries(fs.disk)[i].sector;
      NamedLive(fs, i);
      OpenKeeps(fs, s, env.inode);
      if OpenSector(fs, s, env.inode).1 {
        OpenAnyMemory(fs, s, env.inode);
        OpenThenClose(fs, s);
      }
    }
  }

  lemma OpenAnyMemory(fs: Fs, s: nat, memory: bool)
    requires s < |fs.disk| && OpenSector(fs, s, memory).1
    ensures OpenSector(fs, s, memory) == OpenSector(fs, s, true)
  {
  }

  // ----- remove

  function MarkRemoved(open: seq<OpenInode>, s: nat): seq<OpenInode>
    requires FindOpen(open, s, 0) < |open|
  {
    var i := FindOpen(open, s, 0);
    open[i := open[i].(removed := true)]
  }

  /** filesys_remove: erase the entry, mark the inode, drop the reference. */
  function Remove(fs: Fs, name: seq<Byte>, env: Env): (r: (Fs, bool))
    requires RootOk(fs.disk)
    requires forall i :: 0 <= i < SLOTS && Entries(fs.disk)[i].inUse ==> Entries(fs.disk)[i].sector < |fs.disk|
  {
    var i := Lookup(Entries(fs.disk), name, env.seen);
    if !env.root || i == SLOTS then (fs, false)
    else
      var s := Entries(fs.disk)[i].sector;
      var (fs1, ok) := OpenSector(fs, s, env.inode);
      if !ok || !CanClose(fs1, s) then (fs, false)
      else if !env.bounce then (CloseSector(fs1, s, env.map1, env.map2), false)
      else
        var fs2 := Fs(SetSlot(fs.disk, i, EraseEntry(SlotBytes(fs.disk, i))), fs.used, MarkRemoved(fs1.open, s));
        if CanClose(fs2, s) then (CloseSector(fs2, s, env.map1, env.map2), true) else (fs2, false)
  }

  lemma NamedErase(es: seq<Entry>, i: nat)
    requires DirOk(es) && i < |es| && es[i].inUse
    ensures var es' := es[i := es[i].(inUse := false)];
            DirOk(es') && NamedSet(es') == NamedSet(es) - {es[i].sector}
  {
    var es' := es[i := es[i].(inUse := false)];
    forall x | x in NamedSet(es) && x != es[i].sector ensures x in NamedSet(es') {
      var j :| 0 <= j < |es| && es[j].inUse && es[j].sector == x;
      assert es'[j] == es[j];
    }
    forall x | x in NamedSet(es') ensures x in NamedSet(es) - {es[i].sector} {
      var j :| 0 <= j < |es'| && es'[j].inUse && es'[j].sector == x;
      assert es[j] == es'[j];
    }
  }

  /** The state between erasing the entry and the close. */
  lemma EraseKeeps(fs: Fs, i: nat)
    requires Inv(fs) && i < SLOTS && Entries(fs.disk)[i].inUse
    requires Entries(fs.disk)[i].sector in OpenSet(fs.open)
    ensures var s := Entries(fs.disk)[i].sector;
            FindOpen(fs.open, s, 0) < |fs.open|
    ensures var s := Entries(fs.disk)[i].sector;
            var fs' := Fs(SetSlot(fs.disk, i, EraseEntry(SlotBytes(fs.disk, i))), fs.used, MarkRemoved(fs.open, s));
            && Inv(fs') && Live(fs') == Live(fs) && s in OpenSet(fs'.open) && InodesKept(fs, fs')
            && Entries(fs'.disk) == Entries(fs.disk)[i := Entries(fs.disk)[i].(inUse := false)]
            && forall t :: t in Live(fs) && t != ROOT ==> SameFile(fs.disk, fs'.disk, t)
  {
    hide Separate;
    hide Fits;
    hide Contents;
    hide SetSlot;
    hide SlotBytes;
    hide DecodeEntry;
    hide FindOpen;
    hide DirOk;
    hide OpenOk;
    var es := Entries(fs.disk);
    var s := es[i].sector;
    NamedLive(fs, i);
    OpenSetAt(fs.open, s);
    var b := EraseEntry(SlotBytes(fs.disk, i));
    EraseRoundTrip(SlotBytes(fs.disk, i));
    DirWrite(fs.disk, fs.used, Live(fs), i, b);
    NamedErase(es, i);
    var disk' := SetSlot(fs.disk, i, b);
    MarkKeeps(fs.disk, disk', fs.open, s, Live(fs));
    assert Live(Fs(disk', fs.used, MarkRemoved(fs.open, s))) == Live(fs);
  }

  lemma MarkKeeps(disk: seq<Sector>, disk': seq<Sector>, open: seq<OpenInode>, s: nat, live: set<nat>)
    requires RootOk(disk) && RootOk(disk') && |disk'| == |disk|
    requires OpenOk(disk, open) && OpenSet(open) <= live && s in OpenSet(open) && s >= 2
    requires forall t :: t in live ==> t < |disk| && disk'[t] == disk[t]
    requires NamedSet(Entries(disk')) == NamedSet(Entries(disk)) - {s}
    ensures FindOpen(open, s, 0) < |open|
    ensures OpenOk(disk', MarkRemoved(open, s)) && OpenSet(MarkRemoved(open, s)) == OpenSet(open)
  {
    hide NamedSet;
    hide Entries;
    OpenSetAt(open, s);
    forall j | 0 <= j < |open| ensures open[j].sector in OpenSet(open) {
    }
    SameSectors(open, MarkRemoved(open, s));
  }

  /** Removing takes the name away, keeps every other name, and changes no file. */
  lemma RemoveKeeps(fs: Fs, name: seq<Byte>, env: Env)
    requires Inv(fs)
    ensures forall i :: 0 <= i < SLOTS && Entries(fs.disk)[i].inUse ==> Entries(fs.disk)[i].sector < |fs.disk|
    ensures var (fs', ok) := Remove(fs, name, env);
            var i := Lookup(Entries(fs.disk), name, env.seen);
            && Inv(fs') && Live(fs') <= Live(fs) && InodesKept(fs, fs')
            && (!ok ==> fs' == fs)
            && (ok ==> i < SLOTS && Entries(fs'.disk) == Entries(fs.disk)[i := Entries(fs.disk)[i].(inUse := false)])
            && (env.root && env.inode && env.bounce && i < SLOTS ==> ok)
            && forall t :: t in Live(fs) && t >= 2 ==> SameFile(fs.disk, fs'.disk, t)
  {
    hide Separate;
    hide DirOk;
    hide OpenOk;
    hide OpenSet;
    hide FindOpen;
    hide Entries;
    hide OpenSector;
    hide CloseSector;
    hide CanClose;
    hide SetSlot;
    hide SlotBytes;
    hide Contents;
    hide Lookup;
    hide SameFile;
    NamesOnDisk(fs);
    SameFiles(fs);
    InodesSame(fs);
    LookupFacts(Entries(fs.disk), name, env.seen);
    var i := Lookup(Entries(fs.disk), name, env.seen);
    if i < SLOTS {
      var s := Entries(fs.disk)[i].sector;
      NamedLive(fs, i);
      OpenKeeps(fs, s, env.inode);
      var (fs1, ok) := OpenSector(fs, s, env.inode);
      if ok {
        OpenAnyMemory(fs, s, env.inode);
        OpenThenClose(fs, s);
        EraseKeeps(fs1, i);
        var fs2 := Fs(SetSlot(fs.disk, i, EraseEntry(SlotBytes(fs.disk, i))), fs.used, MarkRemoved(fs1.open, s));
        CloseKeeps(fs2, s, env.map1, env.map2);
        forall t | t in Live(fs) && t >= 2 ensures SameFile(fs.disk, CloseSector(fs2, s, env.map1, env.map2).disk, t) {
          SameFileTransitive(fs.disk, fs2.disk, CloseSector(fs2, s, env.map1, env.map2).disk, t);
        }
      }
    }
  }

  lemma InodesSame(fs: Fs)
    requires Inv(fs)
    ensures InodesKept(fs, fs)
  {
    forall t | t in Live(fs) ensures t < |fs.disk| {
      LiveFits(fs, t);
    }
  }

  lemma LookupFacts(es: seq<Entry>, name: seq<Byte>, seen: nat)
    requires |es| == SLOTS
    ensures var r := Lookup(es, name, seen); r <= SLOTS && (r < SLOTS ==> es[r].inUse && es[r].name == name)
  {
  }

  lemma SameFiles(fs: Fs)
    requires Inv(fs)
    ensures forall t :: t in Live(fs) ==> SameFile(fs.disk, fs.disk, t)
  {
    forall t | t in Live(fs) ensures SameFile(fs.disk, fs.disk, t) {
      LiveFits(fs, t);
    }
  }

  // ----- write

  /** inode_write_at on an open file. */
  function Write(fs: Fs, s: nat, offset: nat, data: seq<Byte>, memory: bool): (r: Fs)
    requires s < |fs.disk| && Fits(HeaderAt(fs.disk, s), |fs.disk|)
  {
    var h := HeaderAt(fs.disk, s);
    var n := Moved(h.length, |data|, offset, memory);
    FitsBytes(h, |fs.disk|);
    if n == 0 then fs else fs.(disk := Overwrite(fs.disk, SECTOR * h.start + offset, data[..n]))
  }

  lemma WriteKeeps(fs: Fs, s: nat, offset: nat, data: seq<Byte>, memory: bool)
    requires Inv(fs) && s in OpenSet(fs.open) && s >= 2
    ensures s < |fs.disk| && Fits(HeaderAt(fs.disk, s), |fs.disk|)
    ensures var h := HeaderAt(fs.disk, s);
            var fs' := Write(fs, s, offset, data, memory);
            var n := Moved(h.length, |data|, offset, memory);
            && Inv(fs') && Live(fs') == Live(fs) && fs'.used == fs.used && fs'.open == fs.open && InodesKept(fs, fs')
            && HeaderAt(fs'.disk, s) == h
            && Contents(fs'.disk, h) == (if n == 0 then Contents(fs.disk, h)
                                         else Patch(Contents(fs.disk, h), offset, data[..n]))
            && forall t :: t in Live(fs) && t != s ==> SameFile(fs.disk, fs'.disk, t)
  {
    hide Owns;
    hide Contents;
    hide Overwrite;
    hide Patch;
    hide Moved;
    hide Fits;
    assert s in Live(fs);
    LiveFits(fs, s);
    SameFiles(fs);
    var h := HeaderAt(fs.disk, s);
    var n := Moved(h.length, |data|, offset, memory);
    if n > 0 {
      WriteMeaning(fs.disk, h, offset, data[..n]);
      var fs' := Write(fs, s, offset, data, memory);
      assert FileOk(fs.disk, fs.used, s);
      forall t | t in Live(fs) && t != s ensures SameFile(fs.disk, fs'.disk, t) && fs'.disk[t] == fs.disk[t] {
        assert FileOk(fs.disk, fs.used, t) && Apart(fs.disk, s, t);
        OwnsItself(HeaderAt(fs.disk, t), t);
        OwnsExtent(h, s);
        FileFrame(fs.disk, fs'.disk, t);
      }
      HeadersKept(fs, fs');
    }
  }

  lemma OwnsExtent(h: Header, s: nat)
    ensures forall k :: h.start <= k < h.start + Sectors(h.length) ==> Owns(h, s, k)
  {
  }

  /** Writing data sectors only, and not the directory's. */
  lemma HeadersKept(fs: Fs, fs': Fs)
    requires Inv(fs) && fs'.used == fs.used && fs'.open == fs.open && |fs'.disk| == |fs.disk|
    requires forall t :: t in Live(fs) ==> t < |fs.disk| && fs'.disk[t] == fs.disk[t]
    requires SameFile(fs.disk, fs'.disk, ROOT)
    ensures Inv(fs') && Live(fs') == Live(fs)
  {
    hide Owns;
    hide Contents;
    EntriesFrame(fs.disk, fs'.disk);
    forall s, k | s in Live(fs) && 0 <= k < |fs.used| && Owns(HeaderAt(fs.disk, s), s, k) ensures fs.used[k] {
      assert FileOk(fs.disk, fs.used, s);
    }
    SeparateFrame(fs.disk, fs.used, Live(fs), fs'.disk, fs'.used);
    forall i | 0 <= i < |fs.open| ensures fs.open[i].data == HeaderAt(fs'.disk, fs.open[i].sector) {
      assert fs.open[i].sector in OpenSet(fs.open);
    }
  }

  // ----- the free map in memory and on the disk

  /** The free map file holds the map in memory. */
  ghost predicate Synced(fs: Fs) {
    MapFits(fs.disk) && Contents(fs.disk, HeaderAt(fs.disk, FREE_MAP)) == MapBytes(fs.used)
  }

  lemma SyncedFrame(fs: Fs, fs': Fs)
    requires Synced(fs) && SameFile(fs.disk, fs'.disk, FREE_MAP) && fs'.used == fs.used
    ensures Synced(fs')
  {
  }

  lemma AllocateSyncs(fs: Fs, cnt: nat)
    requires FREE_MAP < |fs.disk| == |fs.used| && MapFits(fs.disk) && !InMap(fs.disk, FREE_MAP)
    requires HeaderAt(fs.disk, FREE_MAP).length == Bitmaps.ByteCnt(|fs.used|)
    ensures var (fs', a) := Allocate(fs, cnt, true, true);
            && a == Bitmaps.FirstFit(fs.used, 0, cnt, false)
            && (a.Some? ==> Synced(fs'))
            && (a.None? ==> fs' == fs)
  {
    hide Contents;
    hide MapWritten;
    hide MapBytes;
    var a := Bitmaps.FirstFit(fs.used, 0, cnt, false);
    if a.Some? { MapWrittenAll(fs.disk, Bitmaps.Filled(fs.used, a.value, cnt, true)); }
  }

  lemma ReleaseSyncs(fs: Fs, start: nat, cnt: nat)
    requires start + cnt <= |fs.used| && MapFits(fs.disk) && !InMap(fs.disk, FREE_MAP)
    requires HeaderAt(fs.disk, FREE_MAP).length == Bitmaps.ByteCnt(|fs.used|)
    ensures var fs' := Release(fs, start, cnt, true);
            Synced(fs') && HeaderAt(fs'.disk, FREE_MAP) == HeaderAt(fs.disk, FREE_MAP)
  {
    hide Contents;
    hide MapWritten;
    hide MapBytes;
    MapWrittenAll(fs.disk, Bitmaps.Filled(fs.used, start, cnt, false));
  }

  lemma CreateInodeSyncs(fs: Fs, s: nat, length: nat, env: Env)
    requires Sized(fs) && FREE_MAP < |fs.disk| && s < |fs.disk| && length < LIMIT32 && fs.used[s]
    requires s != FREE_MAP && fs.used[FREE_MAP] && !InMap(fs.disk, FREE_MAP) && MapMarked(fs, s) && MapFits(fs.disk)
    requires HeaderAt(fs.disk, FREE_MAP).length == Bitmaps.ByteCnt(|fs.used|)
    requires env.memory && env.map2
    ensures var (fs', made) := CreateInode(fs, s, length, true, env);
            if made then Synced(fs') else fs' == fs
  {
    hide Contents;
    hide Allocate;
    hide MapBytes;
    hide Sectors;
    var (fs1, a) := Allocate(fs, Sectors(length), true, true);
    AllocateSyncs(fs, Sectors(length));
    AllocateFacts(fs, Sectors(length), true, true);
    if a.Some? {
      SameMap(fs.disk, fs1.disk);
      var h := HeaderAt(fs.disk, FREE_MAP);
      var disk' := Initialised(fs1.disk, s, Header(a.value, length));
      assert disk'[FREE_MAP] == fs1.disk[FREE_MAP];
      forall k | h.start <= k < h.start + Sectors(h.length) ensures disk'[k] == fs1.disk[k] {
        assert InMap(fs.disk, k);
      }
      ContentsFrame(fs1.disk, disk', h);
    }
  }

  lemma CreateSyncs(fs: Fs, name: seq<Byte>, size: nat, env: Env)
    requires Inv(fs) && Synced(fs) && 0 !in name && size <= MAX_SIZE && Ample(env)
    ensures RootOk(fs.disk) && Synced(Create(fs, name, size, env).0)
  {
    hide Contents;
    hide Inv;
    hide Live;
    hide SameFile;
    hide DirAdd;
    hide CreateInode;
    hide Allocate;
    hide Release;
    hide Extends;
    hide Synced;
    hide MapFits;
    InvRoot(fs);
    InvMap(fs);
    CreateStages(fs, size, env);
    AllocateSyncs(fs, 1);
    var (fs1, a) := Allocate(fs, 1, true, true);
    if a.Some? {
      var s := a.value;
      ExtendsKeeps(fs, fs1);
      InvMap(fs1);
      CreateInodeSyncs(fs1, s, size, env);
      var (fs2, made) := CreateInode(fs1, s, size, true, env);
      ExtendsKeeps(fs, fs2);
      InvRoot(fs2);
      InvMap(fs2);
      ReleaseSyncs(fs2, s, 1);
      if made && DirAdd(fs2.disk, name, s, env).1 { AddSyncs(fs2, name, s, env); }
    }
  }

  /** Writing the directory leaves the free map file alone. */
  lemma AddSyncs(fs: Fs, name: seq<Byte>, s: nat, env: Env)
    requires Inv(fs) && Synced(fs) && s < LIMIT32 && DirAdd(fs.disk, name, s, env).1
    ensures Synced(fs.(disk := DirAdd(fs.disk, name, s, env).0))
  {
    hide Contents;
    hide Separate;
    hide SetSlot;
    hide LastRead;
    hide SlotBytes;
    var k := Readable(env.scanned);
    var i := FindFree(Entries(fs.disk), 0, k);
    var b := EncodeEntry(LastRead(fs.disk, i, k, env.junk), s, name);
    DirWrite(fs.disk, fs.used, Live(fs), i, b);
    assert FREE_MAP in Live(fs);
    SyncedFrame(fs, fs.(disk := SetSlot(fs.disk, i, b)));
  }

  lemma InvMap(fs: Fs)
    requires Inv(fs)
    ensures FREE_MAP in Live(fs) && Sized(fs) && FREE_MAP < |fs.disk| && fs.used[FREE_MAP]
    ensures MapFits(fs.disk) && !InMap(fs.disk, FREE_MAP)
    ensures HeaderAt(fs.disk, FREE_MAP).length == Bitmaps.ByteCnt(|fs.used|)
  {
    assert FREE_MAP in Live(fs);
    NotInMap(fs, FREE_MAP);
  }

  lemma CloseSyncs(fs: Fs, s: nat)
    requires Inv(fs) && Synced(fs) && s in OpenSet(fs.open)
    ensures CanClose(fs, s) && Synced(CloseSector(fs, s, true, true))
  {
    hide Inv;
    hide Contents;
    hide MapBytes;
    hide Release;
    hide FindOpen;
    hide OpenSet;
    CloseReady(fs, s);
    InvMap(fs);
    var i := FindOpen(fs.open, s, 0);
    var o := fs.open[i];
    if o.openCnt == 1 && o.removed {
      var fs1 := fs.(open := Without(fs.open, i));
      ReleaseSyncs(fs1, s, 1);
      var fs2 := Release(fs1, s, 1, true);
      ReleaseSyncs(fs2, o.data.start, Sectors(o.data.length));
    }
  }

  lemma RemoveSyncs(fs: Fs, name: seq<Byte>, env: Env)
    requires Inv(fs) && Synced(fs) && Ample(env) && 0 !in name
    ensures RootOk(fs.disk)
    ensures forall i :: 0 <= i < SLOTS && Entries(fs.disk)[i].inUse ==> Entries(fs.disk)[i].sector < |fs.disk|
    ensures Synced(Remove(fs, name, env).0)
  {
    hide Separate;
    hide DirOk;
    hide OpenOk;
    hide SetSlot;
    hide SlotBytes;
    hide OpenSector;
    hide MarkRemoved;
    hide CanClose;
    hide CloseSector;
    hide Lookup;
    hide Synced;
    hide SameFile;
    NamesOnDisk(fs);
    LookupFacts(Entries(fs.disk), name, env.seen);
    var i := Lookup(Entries(fs.disk), name, env.seen);
    if i < SLOTS {
      var s := Entries(fs.disk)[i].sector;
      NamedLive(fs, i);
      OpenKeeps(fs, s, env.inode);
      var (fs1, ok) := OpenSector(fs, s, env.inode);
      if ok {
        EraseKeeps(fs1, i);
        var fs2 := Fs(SetSlot(fs.disk, i, EraseEntry(SlotBytes(fs.disk, i))), fs.used, MarkRemoved(fs1.open, s));
        assert FREE_MAP in Live(fs1);
        SyncedFrame(fs, fs2);
        CloseSyncs(fs2, s);
      }
    }
  }

  // ----- every run

  datatype Step =
    | CreateStep(name: seq<Byte>, size: nat, env: Env)
    | OpenStep(name: seq<Byte>, env: Env)
    | RemoveStep(name: seq<Byte>, env: Env)
    | CloseStep(sector: nat, map1: bool, map2: bool)
    | WriteStep(sector: nat, offset: nat, data: seq<Byte>, memory: bool)

  /** Names are C strings; only open user files are written and closed. */
  ghost predicate Enabled(fs: Fs, step: Step) {
    match step
    case CreateStep(name, size, _) => 0 !in name && size <= MAX_SIZE
    case OpenStep(name, _) => 0 !in name
    case RemoveStep(name, _) => 0 !in name
    case CloseStep(s, _, _) => s >= 2 && s in OpenSet(fs.open)
    case WriteStep(s, _, _, _) => s >= 2 && s in OpenSet(fs.open)
  }

  ghost predicate Takes(fs: Fs, step: Step, fs': Fs)
    requires Inv(fs)
  {
    NamesOnDisk(fs);
    && Enabled(fs, step)
    && match step
       case CreateStep(name, size, env) => fs' == Create(fs, name, size, env).0
       case OpenStep(name, env) => fs' == Open(fs, name, env).0
       case RemoveStep(name, env) => fs' == Remove(fs, name, env).0
       case CloseStep(s, map1, map2) => CloseReady(fs, s); fs' == CloseSector(fs, s, map1, map2)
       case WriteStep(s, offset, data, memory) => LiveFits(fs, s); fs' == Write(fs, s, offset, data, memory)
  }

  /** The step's memory allocations succeed. */
  predicate Supplied(step: Step) {
    match step
    case CreateStep(_, _, env) => Ample(env)
    case OpenStep(_, env) => Ample(env)
    case RemoveStep(_, env) => Ample(env)
    case CloseStep(_, map1, map2) => map1 && map2
    case WriteStep(_, _, _, memory) => memory
  }

  /** Every step keeps the invariant, and only a write to a file changes that file. */
  lemma StepKeeps(fs: Fs, step: Step, fs': Fs)
    requires Inv(fs) && Takes(fs, step, fs')
    ensures Inv(fs')
    ensures forall t :: t in Live(fs) && t >= 2 && !(step.WriteStep? && step.sector == t) ==>
              SameFile(fs.disk, fs'.disk, t)
  {
    hide Separate;
    hide DirOk;
    hide OpenOk;
    hide RootOk;
    hide SameFile;
    SameFiles(fs);
    match step
    case CreateStep(name, size, env) => CreateKeeps(fs, name, size, env);
    case OpenStep(name, env) => OpenFileKeeps(fs, name, env);
    case RemoveStep(name, env) => RemoveKeeps(fs, name, env);
    case CloseStep(s, map1, map2) => CloseKeeps(fs, s, map1, map2);
    case WriteStep(s, offset, data, memory) => WriteKeeps(fs, s, offset, data, memory);
  }

  // ----- formatting

  /** do_format followed by free_map_open: the free map's own file and the root
      directory are created, in that order, on a disk with nothing marked but their
      two inode sectors; the free map file stays open. */
  ghost predicate Formatted(fs: Fs) {
    && ROOT < |fs.disk| == |fs.used| < LIMIT32
    && exists blank: seq<Sector> :: |blank| == |fs.disk| && FormattedFrom(blank, fs)
  }

  function Blank(disk: seq<Sector>): Fs {
    Fs(disk, seq(|disk|, k => k == FREE_MAP || k == ROOT), [])
  }

  /** do_format and free_map_open with every allocation succeeding; otherwise they panic.
      The free map file is open while the root directory is created, then closed, opened
      again and read. */
  ghost predicate FormattedFrom(blank: seq<Sector>, fs: Fs)
    requires ROOT < |blank| < LIMIT32
  {
    var size := Bitmaps.ByteCnt(|blank|);
    && size < LIMIT32
    && var (fs1, ok1) := CreateInode(Blank(blank), FREE_MAP, size, false, Plenty());
       && ok1
       && var fs2 := OpenSector(fs1, FREE_MAP, true).0;
          var (disk2, ok2) := MapWritten(fs2.disk, fs2.used, true);
          && ok2
          && var (fs3, ok3) := CreateInode(fs2.(disk := disk2), ROOT, SLOTS * ENTRY, true, Plenty());
             && ok3 && MapFits(fs3.disk)
             && |blank| <= 8 * HeaderAt(fs3.disk, FREE_MAP).length
             && var fs4 := OpenSector(fs3.(open := []), FREE_MAP, true).0;
                fs == fs4.(used := MapRead(Contents(fs3.disk, HeaderAt(fs3.disk, FREE_MAP)), |blank|))
  }

  function Plenty(): Env {
    Env(true, true, true, true, true, true, true, true, SLOTS, SLOTS, true, seq(ENTRY, _ => 0))
  }

  /** A new directory has no entry in use. */
  lemma EmptyDirectory(disk: seq<Sector>)
    requires RootOk(disk) && Contents(disk, HeaderAt(disk, ROOT)) == seq(SLOTS * ENTRY, _ => 0)
    ensures NamedSet(Entries(disk)) == {} && DirOk(Entries(disk))
  {
    forall i: nat | i < SLOTS ensures !Entries(disk)[i].inUse {
      assert SlotBytes(disk, i)[ENTRY - 1] == 0;
    }
  }

  lemma FormatKeeps(blank: seq<Sector>, fs: Fs)
    requires ROOT < |blank| < LIMIT32 && FormattedFrom(blank, fs)
    ensures Inv(fs) && Synced(fs) && NamesDistinct(Entries(fs.disk))
  {
    hide Owns;
    hide Contents;
    hide Sectors;
    hide CreateInode;
    hide MapWritten;
    hide MapRead;
    hide InMap;
    var size := Bitmaps.ByteCnt(|blank|);
    var fs0 := Blank(blank);
    var fs1 := CreateInode(fs0, FREE_MAP, size, false, Plenty()).0;
    CreateInodeFacts(fs0, FREE_MAP, size, false, Plenty());
    var fs2 := OpenSector(fs1, FREE_MAP, true).0.(disk := MapWritten(fs1.disk, fs1.used, true).0);
    MapReadyFacts(fs0.used, fs1);
    MapWrittenFrame(fs1.disk, fs1.used, true);
    SameMap(fs1.disk, fs2.disk);
    var fs3 := CreateInode(fs2, ROOT, SLOTS * ENTRY, true, Plenty()).0;
    CreateInodeFacts(fs2, ROOT, SLOTS * ENTRY, true, Plenty());
    assert fs0.used[FREE_MAP] && fs0.used[ROOT] && fs1.used[FREE_MAP] && fs1.used[ROOT];
    SystemFilesApart(fs0.used, fs1, fs3);
    EmptyDirectory(fs3.disk);
    CreateInodeSyncs(fs2, ROOT, SLOTS * ENTRY, Plenty());
    MapRoundTrip(fs3.used);
    var closed := fs3.(open := []);
    assert OpenSet(closed.open) == {};
    assert Live(closed) == {FREE_MAP, ROOT};
    assert Inv(closed);
    OpenKeeps(closed, FREE_MAP, true);
  }

  /** The new free map file can be written. */
  lemma MapReadyFacts(used0: seq<bool>, fs: Fs)
    requires |fs.disk| == |fs.used| == |used0| > ROOT && used0[ROOT] && FileOk(fs.disk, fs.used, FREE_MAP)
    requires forall k :: 0 <= k < |used0| && Owns(HeaderAt(fs.disk, FREE_MAP), FREE_MAP, k) ==>
               k == FREE_MAP || !used0[k]
    ensures MapMarked(fs, FREE_MAP) && MapMarked(fs, ROOT) && MapFits(fs.disk)
  {
    forall k | 0 <= k < |fs.disk| && InMap(fs.disk, k) ensures Owns(HeaderAt(fs.disk, FREE_MAP), FREE_MAP, k) {
    }
  }

  lemma SystemFilesApart(used0: seq<bool>, fs1: Fs, fs2: Fs)
    requires Sized(fs1) && Sized(fs2) && |fs1.disk| == |fs2.disk| == |used0| && ROOT < |used0|
    requires fs2.disk[FREE_MAP] == fs1.disk[FREE_MAP]
    requires FileOk(fs1.disk, fs1.used, FREE_MAP) && FileOk(fs2.disk, fs2.used, ROOT)
    requires used0[ROOT] && fs1.used[ROOT]
    requires forall k :: 0 <= k < |used0| && fs1.used[k] ==> fs2.used[k]
    requires forall k :: 0 <= k < |used0| && Owns(HeaderAt(fs1.disk, FREE_MAP), FREE_MAP, k) ==>
               k == FREE_MAP || !used0[k]
    requires forall k :: 0 <= k < |used0| && Owns(HeaderAt(fs2.disk, ROOT), ROOT, k) ==> k == ROOT || !fs1.used[k]
    ensures Separate(fs2.disk, fs2.used, {FREE_MAP, ROOT})
  {
    assert FileOk(fs2.disk, fs2.used, FREE_MAP);
    assert Apart(fs2.disk, FREE_MAP, ROOT) && Apart(fs2.disk, ROOT, FREE_MAP);
  }

  /** Formatting works exactly on the disks with room for the two inodes, the free
      map's own file and one directory sector. */
  lemma FormatSucceeds(blank: seq<Sector>)
    requires ROOT < |blank| < LIMIT32
    ensures (exists fs :: FormattedFrom(blank, fs)) <==> |blank| >= 3 + Sectors(Bitmaps.ByteCnt(|blank|))
  {
    hide Contents;
    hide MapWritten;
    hide MapRead;
    hide CreateInode;
    hide Sectors;
    FormatStages(blank);
    var n, size := |blank|, Bitmaps.ByteCnt(|blank|);
    var (fs1, ok1) := CreateInode(Blank(blank), FREE_MAP, size, false, Plenty());
    if ok1 {
      var fs2 := OpenSector(fs1, FREE_MAP, true).0;
      var disk2 := MapWritten(fs2.disk, fs2.used, true).0;
      var (fs3, ok3) := CreateInode(fs2.(disk := disk2), ROOT, SLOTS * ENTRY, true, Plenty());
      if ok3 {
        var fs4 := OpenSector(fs3.(open := []), FREE_MAP, true).0;
        var fs' := fs4.(used := MapRead(Contents(fs3.disk, HeaderAt(fs3.disk, FREE_MAP)), n));
        assert FormattedFrom(blank, fs');
      }
    }
  }

  /** The stages of formatting, and when each goes through. */
  lemma FormatStages(blank: seq<Sector>)
    requires ROOT < |blank| < LIMIT32
    ensures var n, size := |blank|, Bitmaps.ByteCnt(|blank|);
            && size < LIMIT32 && n <= 8 * size
            && var (fs1, ok1) := CreateInode(Blank(blank), FREE_MAP, size, false, Plenty());
               && ok1 == (2 + Sectors(size) <= n)
               && (ok1 ==>
                     && MapFits(fs1.disk)
                     && var fs2 := OpenSector(fs1, FREE_MAP, true).0;
                        var (disk2, ok2) := MapWritten(fs2.disk, fs2.used, true);
                        && ok2 && MapFits(disk2)
                        && var (fs3, ok3) := CreateInode(fs2.(disk := disk2), ROOT, SLOTS * ENTRY, true, Plenty());
                           && ok3 == (3 + Sectors(size) <= n)
                           && (ok3 ==> MapFits(fs3.disk) && HeaderAt(fs3.disk, FREE_MAP).length == size))
  {
    hide Contents;
    hide MapWritten;
    hide MapBytes;
    hide CreateInode;
    hide InMap;
    var n, size := |blank|, Bitmaps.ByteCnt(|blank|);
    var m := Sectors(size);
    var fs0 := Blank(blank);
    var (fs1, ok1) := CreateInode(fs0, FREE_MAP, size, false, Plenty());
    FirstFreeRun(fs0.used, 2, m);
    FirstMade(fs0, FREE_MAP, size);
    if ok1 {
      CreateInodeFacts(fs0, FREE_MAP, size, false, Plenty());
      MapReadyFacts(fs0.used, fs1);
      MapWrittenAll(fs1.disk, fs1.used);
      MapWrittenFrame(fs1.disk, fs1.used, true);
      var fs2 := OpenSector(fs1, FREE_MAP, true).0.(disk := MapWritten(fs1.disk, fs1.used, true).0);
      SameMap(fs1.disk, fs2.disk);
      FirstFreeRun(fs1.used, 2 + m, 1);
      SecondMade(fs2);
      CreateInodeFacts(fs2, ROOT, SLOTS * ENTRY, true, Plenty());
    }
  }

  lemma FirstMade(fs: Fs, s: nat, length: nat)
    requires Sized(fs) && s < |fs.disk| && length < LIMIT32
    ensures var (fs', ok) := CreateInode(fs, s, length, false, Plenty());
            var a := Bitmaps.FirstFit(fs.used, 0, Sectors(length), false);
            ok == a.Some? && (ok ==> fs'.used == Bitmaps.Filled(fs.used, a.value, Sectors(length), true))
  {
  }

  lemma SecondMade(fs: Fs)
    requires Sized(fs) && ROOT < |fs.disk| && MapFits(fs.disk) && MapMarked(fs, FREE_MAP)
    requires HeaderAt(fs.disk, FREE_MAP).length == Bitmaps.ByteCnt(|fs.used|)
    ensures CreateInode(fs, ROOT, SLOTS * ENTRY, true, Plenty()).1 == Bitmaps.FirstFit(fs.used, 0, 1, false).Some?
  {
    assert Sectors(SLOTS * ENTRY) == 1;
    MadeWhen(fs, ROOT, SLOTS * ENTRY, Plenty());
    AllocateSyncs(fs, 1);
  }

  /** First fit on a map that is full up to k and free from there. */
  lemma FirstFreeRun(used: seq<bool>, k: nat, cnt: nat)
    requires k <= |used| && cnt > 0 && forall j :: 0 <= j < |used| ==> used[j] == (j < k)
    ensures var r := Bitmaps.FirstFit(used, 0, cnt, false);
            if k + cnt <= |used| then r == Some(k) else r == None
  {
    Bitmaps.FirstFitLeast(used, 0, cnt, false);
    var r := Bitmaps.FirstFit(used, 0, cnt, false);
    if r.Some? { assert used[r.value] == false; }
    if k + cnt <= |used| { assert Bitmaps.AllAre(used, k, cnt, false); }
  }

  // ----- runs

  ghost predicate IsRun(states: seq<Fs>, steps: seq<Step>) {
    && |states| == |steps| + 1
    && Formatted(states[0])
    && forall i :: 0 <= i < |steps| ==> Inv(states[i]) ==> Takes(states[i], steps[i], states[i + 1])
  }

  /** In every state of every run after formatting, the sectors of every file that is
      named or still open are marked, and no two such files share one. */
  lemma {:induction false} RunKeeps(states: seq<Fs>, steps: seq<Step>, i: nat)
    requires IsRun(states, steps) && i < |states|
    ensures Inv(states[i])
  {
    hide FormattedFrom;
    hide Inv;
    hide Takes;
    if i == 0 {
      var blank: seq<Sector> :| |blank| == |states[0].disk| && FormattedFrom(blank, states[0]);
      FormatKeeps(blank, states[0]);
    } else {
      RunKeeps(states, steps, i - 1);
      StepKeeps(states[i - 1], steps[i - 1], states[i - 1 + 1]);
    }
  }

  // ----- the copy of the free map on the disk

  lemma SuppliedFacts(step: Step)
    requires Supplied(step)
    ensures step.CreateStep? || step.OpenStep? || step.RemoveStep? ==> Ample(step.env)
    ensures step.CloseStep? ==> step.map1 && step.map2
  {
  }

  /** Every step with memory leaves the map on the disk as it is in memory. */
  lemma StepSyncs(fs: Fs, step: Step, fs': Fs)
    requires Inv(fs) && Synced(fs) && Takes(fs, step, fs') && Supplied(step)
    ensures Inv(fs') && Synced(fs')
  {
    hide Inv;
    hide SameFile;
    hide Synced;
    hide Live;
    hide Supplied;
    StepKeeps(fs, step, fs');
    SameFiles(fs);
    InvMap(fs);
    SuppliedFacts(step);
    match step
    case CreateStep(name, size, env) => CreateSyncs(fs, name, size, env);
    case OpenStep(name, env) =>
      OpenFileKeeps(fs, name, env);
      SyncedFrame(fs, fs');
    case RemoveStep(name, env) => RemoveSyncs(fs, name, env);
    case CloseStep(s, map1, map2) => CloseSyncs(fs, s);
    case WriteStep(s, offset, data, memory) =>
      WriteKeeps(fs, s, offset, data, memory);
      SyncedFrame(fs, fs');
  }

  /** In every run in which memory does not run out, a reboot finds on the disk the free
      map that was in memory. */
  lemma {:induction false} RunSyncs(states: seq<Fs>, steps: seq<Step>, i: nat)
    requires IsRun(states, steps) && i < |states| && forall j :: 0 <= j < |steps| ==> Supplied(steps[j])
    ensures Inv(states[i]) && Synced(states[i])
    ensures |states[i].used| <= 8 * |Contents(states[i].disk, HeaderAt(states[i].disk, FREE_MAP))|
    ensures MapRead(Contents(states[i].disk, HeaderAt(states[i].disk, FREE_MAP)), |states[i].used|) == states[i].used
  {
    hide FormattedFrom;
    hide Inv;
    hide Takes;
    hide Supplied;
    hide MapRead;
    if i == 0 {
      var blank: seq<Sector> :| |blank| == |states[0].disk| && FormattedFrom(blank, states[0]);
      FormatKeeps(blank, states[0]);
    } else {
      RunSyncs(states, steps, i - 1);
      StepSyncs(states[i - 1], steps[i - 1], states[i - 1 + 1]);
    }
    MapRoundTrip(states[i].used);
  }

  // ----- names

  lemma CreateNames(fs: Fs, name: seq<Byte>, size: nat, env: Env)
    requires Inv(fs) && 0 !in name && size <= MAX_SIZE && NamesDistinct(Entries(fs.disk)) && env.seen >= SLOTS
    ensures var fs' := Create(fs, name, size, env).0; Inv(fs') && NamesDistinct(Entries(fs'.disk))
  {
    hide Inv;
    hide SameFile;
    hide Live;
    hide Create;
    hide Entries;
    hide NamesDistinct;
    InvRoot(fs);
    CreateKeeps(fs, name, size, env);
    var (fs', ok) := Create(fs, name, size, env);
    InvRoot(fs');
    if ok {
      var s :| Created(fs, fs', name, size, s, env);
      var i :| AddedAt(Entries(fs.disk), Entries(fs'.disk), i, name, s, env);
      NamesAfterAdd(Entries(fs.disk), i, s, name);
    }
  }

  /** Whatever else a step does, it keeps names distinct if it reads the whole
      directory before adding one. */
  lemma StepNames(fs: Fs, step: Step, fs': Fs)
    requires Inv(fs) && Takes(fs, step, fs') && NamesDistinct(Entries(fs.disk))
    requires step.CreateStep? ==> step.env.seen >= SLOTS
    ensures Inv(fs') && NamesDistinct(Entries(fs'.disk))
  {
    hide Inv;
    hide SameFile;
    hide Live;
    hide Create;
    hide Open;
    hide Remove;
    hide CloseSector;
    hide Write;
    hide CanClose;
    hide FindOpen;
    hide Owns;
    hide OpenSet;
    hide Contents;
    StepKeeps(fs, step, fs');
    InvRoot(fs);
    match step
    case CreateStep(name, size, env) => CreateNames(fs, name, size, env);
    case OpenStep(name, env) => OpenFileKeeps(fs, name, env);
    case RemoveStep(name, env) => RemoveKeeps(fs, name, env);
    case CloseStep(s, map1, map2) => CloseKeeps(fs, s, map1, map2);
    case WriteStep(s, offset, data, memory) =>
      WriteKeeps(fs, s, offset, data, memory);
      RootLive(fs);
      EntriesFrame(fs.disk, fs'.disk);
  }

  lemma RootLive(fs: Fs)
    requires Inv(fs)
    ensures ROOT in Live(fs)
  {
  }

  /** No name is in the directory twice, in every run in which every search before a
      creation had the memory to read the whole directory. */
  lemma {:induction false} RunNames(states: seq<Fs>, steps: seq<Step>, i: nat)
    requires IsRun(states, steps) && i < |states|
    requires forall j :: 0 <= j < |steps| && steps[j].CreateStep? ==> steps[j].env.seen >= SLOTS
    ensures Inv(states[i]) && NamesDistinct(Entries(states[i].disk))
  {
    hide FormattedFrom;
    hide Inv;
    hide Takes;
    hide NamesDistinct;
    if i == 0 {
      var blank: seq<Sector> :| |blank| == |states[0].disk| && FormattedFrom(blank, states[0]);
      FormatKeeps(blank, states[0]);
    } else {
      RunNames(states, steps, i - 1);
      StepNames(states[i - 1], steps[i - 1], states[i - 1 + 1]);
    }
    InvRoot(states[i]);
  }

  ghost predicate IsLive(fs: Fs, s: nat) { RootOk(fs.disk) && s in Live(fs) }

  lemma StepPreserves(fs: Fs, step: Step, fs': Fs, s: nat)
    requires Inv(fs) && Takes(fs, step, fs') && s >= 2 && IsLive(fs, s) && !(step.WriteStep? && step.sector == s)
    ensures SameFile(fs.disk, fs'.disk, s)
  {
    StepKeeps(fs, step, fs');
  }

  lemma SameFileReflexive(fs: Fs, s: nat)
    requires Inv(fs) && IsLive(fs, s)
    ensures SameFile(fs.disk, fs.disk, s)
  {
    LiveFits(fs, s);
  }

  /** A file that stays named or open from state i to state j, and is not written in
      between, reads the same at both. */
  lemma {:induction false} RunPreserves(states: seq<Fs>, steps: seq<Step>, s: nat, i: nat, j: nat)
    requires IsRun(states, steps) && i <= j < |states| && s >= 2
    requires forall k :: i <= k <= j ==> IsLive(states[k], s)
    requires forall k :: i <= k < j ==> !(steps[k].WriteStep? && steps[k].sector == s)
    ensures SameFile(states[i].disk, states[j].disk, s)
  {
    hide Inv;
    hide Takes;
    hide SameFile;
    hide IsLive;
    hide Formatted;
    if i == j {
      RunKeeps(states, steps, i);
      SameFileReflexive(states[i], s);
    } else {
      RunKeeps(states, steps, j - 1);
      RunPreserves(states, steps, s, i, j - 1);
      StepPreserves(states[j - 1], steps[j - 1], states[j - 1 + 1], s);
      SameFileTransitive(states[i].disk, states[j - 1].disk, states[j].disk, s);
    }
  }
}
