/** The file system operations as they update the disk, the free map and the list of
    open inodes in place, each proved to compute the step it stands for in FileSys. */
module FileSysImpl {
  import opened Arithmetic
  import opened Common
  import opened Inode
  import opened DiskFormat
  import opened FileSys
  import Bitmaps

  lemma FillBack(used: seq<bool>, k: nat, cnt: nat)
    requires k + cnt <= |used| && Bitmaps.AllAre(used, k, cnt, false)
    ensures Bitmaps.Filled(Bitmaps.Filled(used, k, cnt, true), k, cnt, false) == used
  {
  }

  lemma PackedNone(used: seq<bool>, k: nat)
    ensures Packed(used, k, 0) == 0
  {
  }

  lemma PackedStep(used: seq<bool>, k: nat, n: nat)
    ensures Packed(used, k, n + 1) == (if k < |used| && used[k] then 1 else 0) + 2 * Packed(used, k + 1, n)
  {
  }

  /** The slot with the given index, as bytes read from the directory file. */
  lemma SlotRead(i: nat, memory: bool)
    ensures Moved(SLOTS * ENTRY, ENTRY, ENTRY * i, memory) == (if i < SLOTS && memory then ENTRY else 0)
  {
  }

  lemma CreateInv(fs: Fs, name: seq<Byte>, size: nat, env: Env)
    requires Inv(fs) && 0 !in name && size <= MAX_SIZE
    ensures Inv(Create(fs, name, size, env).0)
  {
    CreateKeeps(fs, name, size, env);
  }

  class FileSystem {
    const dev: Device
    const freeMap: Bitmaps.Bitmap
    var openInodes: seq<OpenInode>

    /** inode_init: nothing is open. */
    constructor (dev: Device, freeMap: Bitmaps.Bitmap)
      requires freeMap.Valid()
      ensures this.dev == dev && this.freeMap == freeMap && State() == Fs(dev.sectors, freeMap.Value(), [])
    {
      this.dev := dev;
      this.freeMap := freeMap;
      openInodes := [];
    }

    ghost function State(): Fs
      requires freeMap.Valid()
      reads this, dev, freeMap.bits
    {
      Fs(dev.sectors, freeMap.Value(), openInodes)
    }

    ghost predicate Valid()
      reads this, dev, freeMap.bits
    {
      freeMap.Valid() && Inv(State())
    }

    /** Byte j of the bitmap's storage. */
    method MapByteAt(j: nat) returns (b: Byte)
      requires freeMap.Valid()
      ensures b == MapByte(freeMap.Value(), j)
    {
      hide Packed;
      hide Pow2;
      var base, n := 8 * j, 0;
      var sum: nat := 0;
      PackedNone(freeMap.Value(), base + 8);
      while n < 8
        invariant 0 <= n <= 8 && base == 8 * j && sum == Packed(freeMap.Value(), base + 8 - n, n)
      {
        var k := base + 7 - n;
        var bit := 0;
        if k < freeMap.bitCnt {
          var marked := freeMap.Test(k);
          bit := if marked then 1 else 0;
        }
        PackedStep(freeMap.Value(), k, n);
        sum := bit + 2 * sum;
        n := n + 1;
      }
      Pow2Values();
      b := sum;
    }

    /** The bitmap's storage. */
    method Storage() returns (b: seq<Byte>)
      requires freeMap.Valid()
      ensures b == MapBytes(freeMap.Value())
    {
      b := [];
      while |b| < Bitmaps.ByteCnt(freeMap.bitCnt)
        invariant |b| <= Bitmaps.ByteCnt(freeMap.bitCnt)
        invariant forall j :: 0 <= j < |b| ==> b[j] == MapByte(freeMap.Value(), j)
      {
        var next := MapByteAt(|b|);
        b := b + [next];
      }
    }

    /** bitmap_write to the free map file. */
    method WriteMap(memory: bool) returns (ok: bool)
      requires freeMap.Valid() && MapFits(dev.sectors)
      modifies dev
      ensures (dev.sectors, ok) == MapWritten(old(dev.sectors), freeMap.Value(), memory)
    {
      hide Fits;
      hide Overwrite;
      hide Moved;
      var b := Storage();
      var s := dev.BlockRead(FREE_MAP);
      var n := WriteAt(dev, DecodeHeader(s), 0, b, |b|, 0, memory);
      ok := n == |b|;
    }

    /** bitmap_read from the free map file. */
    method ReadMap() returns (ok: bool)
      requires freeMap.Valid() && MapFits(dev.sectors)
      requires HeaderAt(dev.sectors, FREE_MAP).length == Bitmaps.ByteCnt(freeMap.bitCnt)
      modifies freeMap.bits
      ensures freeMap.Valid() && ok && freeMap.bitCnt <= 8 * HeaderAt(dev.sectors, FREE_MAP).length
      ensures freeMap.Value() == MapRead(Contents(dev.sectors, HeaderAt(dev.sectors, FREE_MAP)), freeMap.bitCnt)
    {
      hide Fits;
      hide Contents;
      var size := Bitmaps.ByteCnt(freeMap.bitCnt);
      var s := dev.BlockRead(FREE_MAP);
      var buffer := new Byte[size];
      var n := ReadAt(dev, DecodeHeader(s), buffer, size, 0, true);
      ok := n == size;
      ghost var c := Contents(dev.sectors, HeaderAt(dev.sectors, FREE_MAP));
      MapRoom(freeMap.bitCnt);
      assert buffer[..] == c by { assert buffer[..size] == buffer[..] && c[0..size] == c; }
      SetBits(buffer[..]);
    }

    /** Makes the map what the bytes of its file say. */
    method SetBits(b: seq<Byte>)
      requires freeMap.Valid() && freeMap.bitCnt <= 8 * |b|
      modifies freeMap.bits
      ensures freeMap.Valid() && freeMap.Value() == MapRead(b, freeMap.bitCnt)
    {
      hide BitIn;
      var k := 0;
      while k < freeMap.bitCnt
        invariant 0 <= k <= freeMap.bitCnt && freeMap.Valid()
        invariant forall i :: 0 <= i < k ==> freeMap.Value()[i] == BitIn(b, i)
        modifies freeMap.bits
      {
        freeMap.Set(k, BitIn(b, k));
        k := k + 1;
      }
    }

    /** free_map_allocate: rolls back when the map cannot be written. */
    method FreeMapAllocate(cnt: nat, mapped: bool, memory: bool) returns (r: Option<nat>)
      requires freeMap.Valid() && (mapped ==> MapFits(dev.sectors))
      modifies dev, freeMap.bits
      ensures freeMap.Valid() && (State(), r) == Allocate(old(State()), cnt, mapped, memory)
    {
      hide MapWritten;
      hide MapFits;
      ghost var was := freeMap.Value();
      Bitmaps.FirstFitLeast(was, 0, cnt, false);
      r := freeMap.ScanAndFlip(0, cnt, false);
      if r.Some? && mapped {
        var ok := WriteMap(memory);
        if !ok {
          FillBack(was, r.value, cnt);
          freeMap.SetMultiple(r.value, cnt, false);
          r := None;
        }
      }
    }

    /** free_map_release, which asserts that the sectors are in use. */
    method FreeMapRelease(start: nat, cnt: nat, memory: bool)
      requires freeMap.Valid() && start + cnt <= freeMap.bitCnt && MapFits(dev.sectors)
      requires Bitmaps.AllAre(freeMap.Value(), start, cnt, true)
      modifies dev, freeMap.bits
      ensures freeMap.Valid() && State() == Release(old(State()), start, cnt, memory)
    {
      hide MapWritten;
      hide MapFits;
      freeMap.SetMultiple(start, cnt, false);
      var ok := WriteMap(memory);
    }

    /** inode_create. */
    method InodeCreate(s: nat, length: nat, mapped: bool, env: Env) returns (success: bool)
      requires freeMap.Valid() && Sized(State()) && s < |dev.sectors| && length < LIMIT32
      requires mapped ==> MapFits(dev.sectors)
      modifies dev, freeMap.bits
      ensures freeMap.Valid() && (State(), success) == CreateInode(old(State()), s, length, mapped, env)
    {
      hide Allocate;
      hide MapFits;
      hide EncodeHeader;
      success := false;
      if env.memory {
        var sectors := Sectors(length);
        var a := FreeMapAllocate(sectors, mapped, env.map2);
        ghost var disk := dev.sectors;
        if a.Some? {
          var h := Header(a.value, length);
          dev.BlockWrite(s, EncodeHeader(h));
          var i := 0;
          while i < sectors
            invariant 0 <= i <= sectors && |dev.sectors| == |disk|
            invariant forall k :: 0 <= k < |disk| ==>
                        dev.sectors[k]
                        == if h.start <= k < h.start + i then Zeros() else if k == s then EncodeHeader(h) else disk[k]
            modifies dev
          {
            dev.BlockWrite(h.start + i, Zeros());
            i := i + 1;
          }
          assert dev.sectors == Initialised(disk, s, h);
          success := true;
        }
      }
    }

    /** inode_open. */
    method InodeOpen(s: nat, memory: bool) returns (ok: bool)
      requires s < |dev.sectors| && freeMap.Valid()
      modifies this`openInodes
      ensures (State(), ok) == OpenSector(old(State()), s, memory)
    {
      var i := 0;
      while i < |openInodes|
        invariant 0 <= i <= |openInodes| && openInodes == old(openInodes)
        invariant FindOpen(openInodes, s, 0) == FindOpen(openInodes, s, i)
      {
        if openInodes[i].sector == s {
          openInodes := openInodes[i := openInodes[i].(openCnt := openInodes[i].openCnt + 1)];
          return true;
        }
        i := i + 1;
      }
      if !memory {
        return false;
      }
      var sector := dev.BlockRead(s);
      openInodes := [OpenInode(s, 1, false, DecodeHeader(sector))] + openInodes;
      return true;
    }

    /** The open inode of a sector. */
    method Locate(s: nat) returns (i: nat)
      requires s in OpenSet(openInodes)
      ensures i == FindOpen(openInodes, s, 0) < |openInodes| && openInodes[i].sector == s
    {
      OpenSetAt(openInodes, s);
      i := 0;
      while openInodes[i].sector != s
        invariant 0 <= i < |openInodes|
        invariant FindOpen(openInodes, s, 0) == FindOpen(openInodes, s, i) < |openInodes|
        decreases |openInodes| - i
      {
        i := i + 1;
      }
    }

    /** inode_close; the sectors it gives back are all in use. */
    method InodeClose(s: nat, map1: bool, map2: bool)
      requires Valid() && s in OpenSet(openInodes)
      modifies this`openInodes, dev, freeMap.bits
      ensures freeMap.Valid() && CanClose(old(State()), s)
      ensures State() == CloseSector(old(State()), s, map1, map2)
    {
      hide Inv;
      hide FindOpen;
      hide OpenSet;
      hide Sectors;
      hide DecodeHeader;
      hide MapFits;
      hide Release;
      hide InMap;
      ghost var fs := State();
      CloseReady(fs, s);
      InvMap(fs);
      var i := Locate(s);
      var o := openInodes[i];
      if o.openCnt == 1 {
        openInodes := openInodes[..i] + openInodes[i + 1..];
        assert openInodes == Without(fs.open, i);
        if o.removed {
          ReleaseReady(fs, s);
          ReleaseFits(State(), s, 1, map1);
          FreeMapRelease(s, 1, map1);
          FreeMapRelease(o.data.start, Sectors(o.data.length), map2);
        }
      } else {
        openInodes := openInodes[i := o.(openCnt := o.openCnt - 1)];
      }
    }

    /** Reads directory slot i; false at end of file or without memory. */
    method ReadSlot(i: nat, memory: bool) returns (found: bool, e: seq<Byte>)
      requires RootOk(dev.sectors)
      ensures found <==> i < SLOTS && memory
      ensures found ==> e == SlotBytes(dev.sectors, i)
    {
      var s := dev.BlockRead(ROOT);
      var buffer := new Byte[ENTRY];
      var n := ReadAt(dev, DecodeHeader(s), buffer, ENTRY, ENTRY * i, memory);
      SlotRead(i, memory);
      found := n == ENTRY;
      e := buffer[..];
      assert buffer[..ENTRY] == buffer[..];
    }

    /** Writes directory slot i. */
    method WriteSlot(i: nat, e: seq<Byte>, memory: bool) returns (ok: bool)
      requires RootOk(dev.sectors) && |e| == ENTRY
      modifies dev
      ensures ok <==> i < SLOTS && memory
      ensures dev.sectors == if i < SLOTS && memory then SetSlot(old(dev.sectors), i, e) else old(dev.sectors)
    {
      var s := dev.BlockRead(ROOT);
      SlotRead(i, memory);
      var n := WriteAt(dev, DecodeHeader(s), 0, e, ENTRY, ENTRY * i, memory);
      assert e[..ENTRY] == e;
      ok := n == ENTRY;
    }

    /** lookup: the slot of the name, SLOTS if the scan does not meet it. */
    method Lookup(name: seq<Byte>, seen: nat) returns (i: nat)
      requires RootOk(dev.sectors)
      ensures i == FileSys.Lookup(Entries(dev.sectors), name, seen)
    {
      hide SlotBytes;
      i := 0;
      ghost var k := Readable(seen);
      var found, e := ReadSlot(i, i < seen);
      while found
        invariant 0 <= i <= k && (found <==> i < k)
        invariant found ==> e == SlotBytes(dev.sectors, i)
        invariant Find(Entries(dev.sectors), name, 0, k) == Find(Entries(dev.sectors), name, i, k)
        decreases k - i
      {
        var entry := DecodeEntry(e);
        if entry.inUse && entry.name == name { return; }
        i := i + 1;
        found, e := ReadSlot(i, i < seen);
      }
      i := SLOTS;
    }

    /** The second scan of dir_add: where it stops, and what is in its entry buffer. */
    method ScanForFree(scanned: nat, junk: EntryBytes) returns (i: nat, e: EntryBytes)
      requires RootOk(dev.sectors)
      ensures i == FindFree(Entries(dev.sectors), 0, Readable(scanned))
      ensures i < SLOTS ==> e == LastRead(dev.sectors, i, Readable(scanned), junk)
    {
      hide SlotBytes;
      hide DecodeEntry;
      ghost var k := Readable(scanned);
      i, e := 0, junk;
      var found, next := ReadSlot(i, i < scanned);
      if found { e := next; }
      while found && DecodeEntry(e).inUse
        invariant 0 <= i <= k && (found <==> i < k)
        invariant i < SLOTS ==> e == LastRead(dev.sectors, i, k, junk)
        invariant FindFree(Entries(dev.sectors), 0, k) == FindFree(Entries(dev.sectors), i, k)
        decreases k - i
      {
        i := i + 1;
        found, next := ReadSlot(i, i < scanned);
        if found { e := next; }
      }
    }

    /** dir_add. */
    method Add(name: seq<Byte>, s: nat, env: Env) returns (success: bool)
      requires RootOk(dev.sectors) && s < LIMIT32
      modifies dev
      ensures (dev.sectors, success) == DirAdd(old(dev.sectors), name, s, env)
    {
      hide SlotBytes;
      hide SetSlot;
      hide FileSys.Lookup;
      hide EncodeEntry;
      if |name| == 0 || |name| > NAME_MAX {
        return false;
      }
      LookupFacts(Entries(dev.sectors), name, env.seen);
      var at := Lookup(name, env.seen);
      if at < SLOTS {
        return false;
      }
      var i, e := ScanForFree(env.scanned, env.junk);
      success := WriteSlot(i, EncodeEntry(e, s, name), env.bounce);
    }

    /** filesys_create. */
    method FilesysCreate(name: seq<Byte>, size: nat, env: Env) returns (success: bool)
      requires Valid() && 0 !in name && size <= MAX_SIZE
      modifies dev, freeMap.bits
      ensures Valid() && (State(), success) == Create(old(State()), name, size, env)
    {
      hide Inv;
      hide Allocate;
      hide CreateInode;
      hide DirAdd;
      hide Release;
      hide RootOk;
      hide MapMarked;
      hide Created;
      hide Entries;
      hide MapFits;
      hide InMap;
      hide Extends;
      hide SameFile;
      hide Live;
      ghost var fs := State();
      InvRoot(fs);
      InvMap(fs);
      CreateInv(fs, name, size, env);
      CreateStages(fs, size, env);
      success := false;
      if env.root {
        var a := FreeMapAllocate(1, true, env.map1);
        StageReady(fs, State());
        if a.Some? {
          var s := a.value;
          var made := InodeCreate(s, size, true, env);
          StageReady(fs, State());
          if made {
            AddFailed(dev.sectors, name, s, env);
            success := Add(name, s, env);
          }
          if !success && s != 0 {
            MadeMarks(fs, s, size, env);
            FreeMapRelease(s, 1, env.map3);
          }
        }
      }
    }

    /** filesys_open. */
    method FilesysOpen(name: seq<Byte>, env: Env) returns (r: Option<nat>)
      requires Valid()
      modifies this`openInodes, dev, freeMap.bits
      ensures Valid()
      ensures forall i :: 0 <= i < SLOTS && Entries(old(dev.sectors))[i].inUse ==>
                Entries(old(dev.sectors))[i].sector < |old(dev.sectors)|
      ensures (State(), r) == Open(old(State()), name, env)
    {
      hide Inv;
      hide SlotBytes;
      hide DecodeEntry;
      hide CloseSector;
      hide OpenSector;
      hide CanClose;
      hide Live;
      hide OpenSet;
      hide SameFile;
      hide FileSys.Lookup;
      ghost var fs := State();
      InvRoot(fs);
      OpenFileKeeps(fs, name, env);
      LookupFacts(Entries(fs.disk), name, env.seen);
      if !env.root {
        return None;
      }
      var i := Lookup(name, env.seen);
      if i == SLOTS {
        return None;
      }
      var found, e := ReadSlot(i, true);
      var s := DecodeEntry(e).sector;
      NamedLive(fs, i);
      OpenKeeps(fs, s, env.inode);
      var ok := InodeOpen(s, env.inode);
      if !ok {
        return None;
      }
      if env.file {
        return Some(s);
      }
      InodeClose(s, env.map1, env.map2);
      return None;
    }

    /** Erases the entry of the open file s and marks its inode removed. */
    method Erase(i: nat, e: seq<Byte>, s: nat, memory: bool) returns (ok: bool)
      requires Valid() && i < SLOTS && Entries(dev.sectors)[i].inUse && s == Entries(dev.sectors)[i].sector
      requires s in OpenSet(openInodes) && e == SlotBytes(dev.sectors, i)
      modifies this`openInodes, dev
      ensures Valid() && ok == memory && FindOpen(old(openInodes), s, 0) < |old(openInodes)|
      ensures !ok ==> State() == old(State())
      ensures ok ==>
                State() == Fs(SetSlot(old(dev.sectors), i, EraseEntry(e)), old(State()).used,
                              MarkRemoved(old(openInodes), s))
      ensures ok ==>
                var p := FindOpen(old(openInodes), s, 0);
                && old(openInodes)[p].sector == s
                && openInodes == old(openInodes)[p := old(openInodes)[p].(removed := true)]
      ensures s in OpenSet(openInodes) && CanClose(State(), s)
    {
      hide Inv;
      hide RootOk;
      hide Entries;
      hide SameFile;
      hide HeaderAt;
      hide SetSlot;
      hide SlotBytes;
      hide DecodeEntry;
      hide CanClose;
      hide Live;
      hide OpenSet;
      InvRoot(State());
      CloseReady(State(), s);
      EraseKeeps(State(), i);
      ok := WriteSlot(i, EraseEntry(e), memory);
      if ok {
        var k := Locate(s);
        openInodes := openInodes[k := openInodes[k].(removed := true)];
        CloseReady(State(), s);
      }
    }

    method EraseAndClose(i: nat, e: seq<Byte>, s: nat, env: Env) returns (ok: bool)
      requires Valid() && i < SLOTS && Entries(dev.sectors)[i].inUse && s == Entries(dev.sectors)[i].sector
      requires s in OpenSet(openInodes) && e == SlotBytes(dev.sectors, i)
      modifies this`openInodes, dev, freeMap.bits
      ensures freeMap.Valid() && ok == env.bounce && CanClose(old(State()), s)
      ensures !ok ==> State() == CloseSector(old(State()), s, env.map1, env.map2)
      ensures ok ==>
                var fs := old(State());
                var fs2 := Fs(SetSlot(fs.disk, i, EraseEntry(e)), fs.used, MarkRemoved(fs.open, s));
                CanClose(fs2, s) && State() == CloseSector(fs2, s, env.map1, env.map2)
    {
      hide Inv;
      hide SetSlot;
      hide SlotBytes;
      hide CloseSector;
      hide MarkRemoved;
      hide FindOpen;
      hide OpenSet;
      CloseReady(State(), s);
      ok := Erase(i, e, s, env.bounce);
      InodeClose(s, env.map1, env.map2);
    }

    /** filesys_remove. */
    method FilesysRemove(name: seq<Byte>, env: Env) returns (success: bool)
      requires Valid()
      modifies this`openInodes, dev, freeMap.bits
      ensures Valid()
      ensures forall i :: 0 <= i < SLOTS && Entries(old(dev.sectors))[i].inUse ==>
                Entries(old(dev.sectors))[i].sector < |old(dev.sectors)|
      ensures (State(), success) == Remove(old(State()), name, env)
    {
      hide Inv;
      hide RootOk;
      hide EraseEntry;
      hide MarkRemoved;
      hide Fits;
      hide SetSlot;
      hide SlotBytes;
      hide DecodeEntry;
      hide CloseSector;
      hide OpenSector;
      hide CanClose;
      hide FindOpen;
      hide Live;
      hide OpenSet;
      hide SameFile;
      hide FileSys.Lookup;
      ghost var fs := State();
      InvRoot(fs);
      RemoveKeeps(fs, name, env);
      LookupFacts(Entries(fs.disk), name, env.seen);
      if !env.root {
        return false;
      }
      var i := Lookup(name, env.seen);
      if i == SLOTS {
        return false;
      }
      var found, e := ReadSlot(i, true);
      var s := DecodeEntry(e).sector;
      NamedLive(fs, i);
      OpenKeeps(fs, s, env.inode);
      var ok := InodeOpen(s, env.inode);
      if !ok {
        return false;
      }
      CloseReady(State(), s);
      ok := EraseAndClose(i, e, s, env);
      return ok;
    }

    /** file_write_at on an open file. */
    method FileWrite(s: nat, data: seq<Byte>, offset: nat, memory: bool) returns (n: nat)
      requires Valid() && s in OpenSet(openInodes) && s >= 2
      modifies dev
      ensures s < |old(dev.sectors)| && Fits(HeaderAt(old(dev.sectors), s), |old(dev.sectors)|)
      ensures Valid() && State() == Write(old(State()), s, offset, data, memory)
      ensures n == Moved(HeaderAt(old(dev.sectors), s).length, |data|, offset, memory)
    {
      hide Inv;
      hide Contents;
      hide Overwrite;
      hide Moved;
      hide Patch;
      hide DecodeHeader;
      hide Sectors;
      hide SameFile;
      hide Live;
      WriteKeeps(State(), s, offset, data, memory);
      CloseReady(State(), s);
      var i := Locate(s);
      n := WriteAt(dev, openInodes[i].data, 0, data, |data|, offset, memory);
    }

    /** free_map_init, do_format and free_map_open, with memory; false where they panic
        because the disk is too small. */
    method DoFormat() returns (ok: bool)
      requires freeMap.Valid() && ROOT < |dev.sectors| == freeMap.bitCnt < LIMIT32 && openInodes == []
      requires freeMap.Value() == seq(freeMap.bitCnt, _ => false)
      modifies this`openInodes, dev, freeMap.bits
      ensures freeMap.Valid()
      ensures ok <==> |old(dev.sectors)| >= 3 + Sectors(Bitmaps.ByteCnt(|old(dev.sectors)|))
      ensures ok ==> FormattedFrom(old(dev.sectors), State()) && Valid()
    {
      hide CreateInode;
      hide MapWritten;
      hide Contents;
      hide MapRead;
      hide Sectors;
      ghost var blank := dev.sectors;
      FormatSucceeds(blank);
      freeMap.Mark(FREE_MAP);
      freeMap.Mark(ROOT);
      assert State() == Blank(blank);
      var size := Bitmaps.ByteCnt(freeMap.bitCnt);
      FormatStages(blank);
      ok := InodeCreate(FREE_MAP, size, false, Plenty());
      if ok {
        var isOpen := InodeOpen(FREE_MAP, true);
        var written := WriteMap(true);
        ok := InodeCreate(ROOT, SLOTS * ENTRY, true, Plenty());
        openInodes := []; // free_map_close
        if ok {
          isOpen := InodeOpen(FREE_MAP, true);
          ok := ReadMap();
          FormatKeeps(blank, State());
        }
      }
    }

    /** file_close on an open file. */
    method FileClose(s: nat, map1: bool, map2: bool)
      requires Valid() && s in OpenSet(openInodes)
      modifies this`openInodes, dev, freeMap.bits
      ensures CanClose(old(State()), s)
      ensures Valid() && State() == CloseSector(old(State()), s, map1, map2)
    {
      CloseKeeps(State(), s, map1, map2);
      InodeClose(s, map1, map2);
    }
  }

  /** What the assertion of free_map_release asks for at the last close. */
  lemma ReleaseReady(fs: Fs, s: nat)
    requires Inv(fs) && s in OpenSet(fs.open)
    ensures s < |fs.used| && Fits(HeaderAt(fs.disk, s), |fs.used|)
    ensures var h := HeaderAt(fs.disk, s);
            && Bitmaps.AllAre(fs.used, s, 1, true)
            && Bitmaps.AllAre(Bitmaps.Filled(fs.used, s, 1, false), h.start, Sectors(h.length), true)
  {
    assert s in Live(fs);
    LiveFits(fs, s);
    assert FileOk(fs.disk, fs.used, s);
    var h := HeaderAt(fs.disk, s);
    forall k | h.start <= k < h.start + Sectors(h.length) ensures fs.used[k] && k != s {
      assert Owns(h, s, k);
    }
  }

  lemma MapRoom(n: nat)
    ensures n <= 8 * Bitmaps.ByteCnt(n)
  {
  }

  /** The free map file can still be written after it has been. */
  lemma ReleaseFits(fs: Fs, start: nat, cnt: nat, memory: bool)
    requires start + cnt <= |fs.used| && MapFits(fs.disk) && !InMap(fs.disk, FREE_MAP)
    ensures MapFits(Release(fs, start, cnt, memory).disk)
    ensures Release(fs, start, cnt, memory).used == Bitmaps.Filled(fs.used, start, cnt, false)
  {
    hide MapWritten;
    hide InMap;
    MapWrittenFrame(fs.disk, Bitmaps.Filled(fs.used, start, cnt, false), memory);
  }

  /** What the next step of filesys_create relies on. */
  lemma StageReady(fs: Fs, fs': Fs)
    requires Inv(fs) && Extends(fs, fs'.disk, fs'.used) && fs'.open == fs.open
    ensures Sized(fs') && RootOk(fs'.disk) && MapFits(fs'.disk)
  {
    hide Inv;
    hide Extends;
    ExtendsKeeps(fs, fs');
    InvRoot(fs');
    InvMap(fs');
  }

  /** The inode sector is still marked when it is given back. */
  lemma MadeMarks(fs: Fs, s: nat, size: nat, env: Env)
    requires Inv(fs) && size <= MAX_SIZE && Allocate(fs, 1, true, env.map1).1 == Some(s)
    ensures var fs1 := Allocate(fs, 1, true, env.map1).0;
            Sized(fs1) && s < |fs1.used| && CreateInode(fs1, s, size, true, env).0.used[s]
  {
    hide Inv;
    hide Allocate;
    hide CreateInode;
    hide Extends;
    hide MapMarked;
    CreateStages(fs, size, env);
    var fs1 := Allocate(fs, 1, true, env.map1).0;
    assert fs1.used[s];
    CreateInodeFacts(fs1, s, size, true, env);
  }

  lemma AddFailed(disk: seq<Sector>, name: seq<Byte>, s: nat, env: Env)
    requires RootOk(disk) && s < LIMIT32
    ensures !DirAdd(disk, name, s, env).1 ==> DirAdd(disk, name, s, env).0 == disk
  {
  }
}
