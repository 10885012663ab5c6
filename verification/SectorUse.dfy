/** What becomes of sectors: removal frees them, at once or at the last close, and unless
    a creation is refused after its data was allocated, a sector is marked if and only
    if it belongs to a file. */
module SectorUse {
  import opened Common
  import opened Inode
  import opened DiskFormat
  import opened FileSys
  import Bitmaps

  // ----- what filesys_remove does

  /** Closing right after opening and marking: the mark is all that stays. */
  lemma OpenMarkClose(open: seq<OpenInode>, s: nat, h: Header)
    requires forall i, j :: 0 <= i < j < |open| ==> open[i].sector != open[j].sector
    requires forall i :: 0 <= i < |open| ==> open[i].openCnt > 0
    ensures var p := FindOpen(open, s, 0);
            if p < |open| then
              var more := open[p := open[p].(openCnt := open[p].openCnt + 1)];
              && FindOpen(more, s, 0) == p && FindOpen(MarkRemoved(more, s), s, 0) == p
              && MarkRemoved(more, s)[p].openCnt == open[p].openCnt + 1 > 1
              && MarkRemoved(more, s)[p := MarkRemoved(more, s)[p].(openCnt := open[p].openCnt)]
                 == open[p := open[p].(removed := true)]
            else
              var more := [OpenInode(s, 1, false, h)] + open;
              && FindOpen(more, s, 0) == 0 && FindOpen(MarkRemoved(more, s), s, 0) == 0
              && MarkRemoved(more, s)[0] == OpenInode(s, 1, true, h)
              && Without(MarkRemoved(more, s), 0) == open
  {
    var p := FindOpen(open, s, 0);
    if p < |open| {
      var o := open[p];
      var more := open[p := o.(openCnt := o.openCnt + 1)];
      OnlyOne(more, s, p);
      OnlyOne(MarkRemoved(more, s), s, p);
    } else {
      assert Without(MarkRemoved([OpenInode(s, 1, false, h)] + open, s), 0) == open;
    }
  }

  lemma OnlyOne(open: seq<OpenInode>, s: nat, p: nat)
    requires p < |open| && open[p].sector == s && forall i :: 0 <= i < |open| && i != p ==> open[i].sector != s
    ensures FindOpen(open, s, 0) == p
  {
  }

  /** filesys_remove frees the sectors of a file that nobody has open, all of them and no
      others, and leaves the open inodes alone; the inode of an open file is marked removed,
      and its sectors stay. */
  lemma RemoveMeaning(fs: Fs, name: seq<Byte>, env: Env)
    requires Inv(fs)
    ensures forall i :: 0 <= i < SLOTS && Entries(fs.disk)[i].inUse ==> Entries(fs.disk)[i].sector < |fs.disk|
    ensures var (fs', ok) := Remove(fs, name, env);
            ok ==>
              var i := Lookup(Entries(fs.disk), name, env.seen);
              && i < SLOTS && Entries(fs.disk)[i].inUse && Entries(fs.disk)[i].name == name
              && var s := Entries(fs.disk)[i].sector;
                 var p := FindOpen(fs.open, s, 0);
                 && s < |fs.disk| && |fs'.used| == |fs.used|
                 && (p == |fs.open| ==>
                       && fs'.open == fs.open
                       && forall k :: 0 <= k < |fs.used| ==>
                            fs'.used[k] == (fs.used[k] && !Owns(HeaderAt(fs.disk, s), s, k)))
                 && (p < |fs.open| ==>
                       && fs'.used == fs.used
                       && fs'.open == fs.open[p := fs.open[p].(removed := true)])
  {
    hide Inv;
    hide Entries;
    hide Lookup;
    hide Owns;
    hide Live;
    hide Remove;
    hide MarkRemoved;
    hide FindOpen;
    hide OpenSector;
    hide CloseSector;
    hide CanClose;
    InvRoot(fs);
    RemoveKeeps(fs, name, env);
    LookupFacts(Entries(fs.disk), name, env.seen);
    var i := Lookup(Entries(fs.disk), name, env.seen);
    if Remove(fs, name, env).1 {
      var s := Entries(fs.disk)[i].sector;
      NamedLive(fs, i);
      var fs2 := RemoveUnfolded(fs, name, env);
      ErasedThenClosed(fs, fs2, s, env.map1, env.map2);
    }
  }

  /** The open inodes as inode_open leaves them. */
  function OnceMore(open: seq<OpenInode>, s: nat, h: Header): seq<OpenInode> {
    var p := FindOpen(open, s, 0);
    if p < |open| then open[p := open[p].(openCnt := open[p].openCnt + 1)] else [OpenInode(s, 1, false, h)] + open
  }

  lemma ErasedThenClosed(fs: Fs, fs2: Fs, s: nat, map1: bool, map2: bool)
    requires Inv(fs) && Inv(fs2) && s in OpenSet(fs2.open) && fs2.used == fs.used
    requires s < |fs.disk| == |fs2.disk| && HeaderAt(fs2.disk, s) == HeaderAt(fs.disk, s)
    requires var more := OnceMore(fs.open, s, HeaderAt(fs.disk, s));
             FindOpen(more, s, 0) < |more| && fs2.open == MarkRemoved(more, s)
    ensures CanClose(fs2, s)
    ensures var fs' := CloseSector(fs2, s, map1, map2);
            var p := FindOpen(fs.open, s, 0);
            && |fs'.used| == |fs.used|
            && (p == |fs.open| ==>
                  && fs'.open == fs.open
                  && forall k :: 0 <= k < |fs.used| ==>
                       fs'.used[k] == (fs.used[k] && !Owns(HeaderAt(fs.disk, s), s, k)))
            && (p < |fs.open| ==>
                  && fs'.used == fs.used
                  && fs'.open == fs.open[p := fs.open[p].(removed := true)])
  {
    hide Inv;
    hide Owns;
    hide Live;
    hide MarkRemoved;
    hide FindOpen;
    hide CloseSector;
    hide CanClose;
    hide Without;
    hide SameFile;
    OpenCounts(fs);
    FoundBounds(fs.open, s);
    OpenMarkClose(fs.open, s, HeaderAt(fs.disk, s));
    CloseKeeps(fs2, s, map1, map2);
    ClosedOpen(fs2, s, map1, map2);
    SameMarks(fs, CloseSector(fs2, s, map1, map2));
  }

  /** The state in which filesys_remove calls inode_close. */
  lemma RemoveUnfolded(fs: Fs, name: seq<Byte>, env: Env) returns (fs2: Fs)
    requires Inv(fs)
    requires forall i :: 0 <= i < SLOTS && Entries(fs.disk)[i].inUse ==> Entries(fs.disk)[i].sector < |fs.disk|
    requires Remove(fs, name, env).1
    ensures Lookup(Entries(fs.disk), name, env.seen) < SLOTS
    ensures var s := Entries(fs.disk)[Lookup(Entries(fs.disk), name, env.seen)].sector;
            && Inv(fs2) && s in OpenSet(fs2.open) && CanClose(fs2, s)
            && Remove(fs, name, env).0 == CloseSector(fs2, s, env.map1, env.map2)
            && fs2.used == fs.used && s < |fs.disk| == |fs2.disk| && HeaderAt(fs2.disk, s) == HeaderAt(fs.disk, s)
            && var more := OnceMore(fs.open, s, HeaderAt(fs.disk, s));
               FindOpen(more, s, 0) < |more| && fs2.open == MarkRemoved(more, s)
  {
    hide Inv;
    hide Entries;
    hide Lookup;
    hide Live;
    hide SetSlot;
    hide SlotBytes;
    hide MarkRemoved;
    hide CloseSector;
    hide CanClose;
    hide FindOpen;
    hide SameFile;
    InvRoot(fs);
    LookupFacts(Entries(fs.disk), name, env.seen);
    var i := Lookup(Entries(fs.disk), name, env.seen);
    var s := Entries(fs.disk)[i].sector;
    NamedLive(fs, i);
    OpenKeeps(fs, s, env.inode);
    var fs1 := OpenSector(fs, s, env.inode).0;
    InvRoot(fs1);
    EraseKeeps(fs1, i);
    fs2 := Fs(SetSlot(fs.disk, i, EraseEntry(SlotBytes(fs.disk, i))), fs.used, MarkRemoved(fs1.open, s));
    ErasedHeader(fs, fs1, fs2, s);
    CloseReady(fs2, s);
    FoundBounds(fs.open, s);
  }

  lemma FoundBounds(open: seq<OpenInode>, s: nat)
    ensures FindOpen(open, s, 0) <= |open|
    ensures FindOpen(open, s, 0) < |open| ==> open[FindOpen(open, s, 0)].sector == s
  {
  }

  lemma ErasedHeader(fs: Fs, fs1: Fs, fs2: Fs, s: nat)
    requires Inv(fs) && Inv(fs1) && fs1.disk == fs.disk && Live(fs1) == Live(fs) && s in Live(fs)
    requires InodesKept(fs1, fs2)
    ensures s < |fs.disk| == |fs2.disk| && HeaderAt(fs2.disk, s) == HeaderAt(fs.disk, s)
  {
    LiveFits(fs, s);
  }

  lemma ClosedOpen(fs: Fs, s: nat, map1: bool, map2: bool)
    requires CanClose(fs, s)
    ensures FindOpen(fs.open, s, 0) < |fs.open|
    ensures var i := FindOpen(fs.open, s, 0);
            var o := fs.open[i];
            CloseSector(fs, s, map1, map2).open
            == if o.openCnt > 1 then fs.open[i := o.(openCnt := o.openCnt - 1)] else Without(fs.open, i)
    ensures |CloseSector(fs, s, map1, map2).used| == |fs.used|
  {
  }

  lemma SameMarks(fs: Fs, fs': Fs)
    ensures |fs'.used| == |fs.used| && (forall k :: 0 <= k < |fs.used| ==> fs'.used[k] == fs.used[k]) ==>
              fs'.used == fs.used
  {
  }

  // ----- removed files are freed at their last close

  /** s is open and has been removed. */
  ghost predicate RemovedOpen(fs: Fs, s: nat) {
    exists i :: 0 <= i < |fs.open| && fs.open[i].sector == s && fs.open[i].removed
  }

  /** None of the sectors of the file with inode h in sector s is marked. */
  ghost predicate Freed(used: seq<bool>, h: Header, s: nat) {
    forall k :: 0 <= k < |used| && Owns(h, s, k) ==> !used[k]
  }

  lemma RemovedFacts(fs: Fs, s: nat)
    requires Inv(fs) && RemovedOpen(fs, s)
    ensures s >= 2 && s < |fs.disk| && s in Live(fs) && s in OpenSet(fs.open) && s !in NamedSet(Entries(fs.disk))
    ensures FindOpen(fs.open, s, 0) < |fs.open| && fs.open[FindOpen(fs.open, s, 0)].removed
  {
    var i :| 0 <= i < |fs.open| && fs.open[i].sector == s && fs.open[i].removed;
    OnlyOne(fs.open, s, i);
    assert s in OpenSet(fs.open);
  }

  /** A removed file stays open and removed through every step, until the close that frees
      its sectors. */
  lemma StepRemoved(fs: Fs, step: Step, fs': Fs, s: nat)
    requires Inv(fs) && Takes(fs, step, fs') && RemovedOpen(fs, s)
    ensures s < |fs.disk| == |fs'.disk| && HeaderAt(fs'.disk, s) == HeaderAt(fs.disk, s)
    ensures RemovedOpen(fs', s) || (s !in OpenSet(fs'.open) && Freed(fs'.used, HeaderAt(fs.disk, s), s))
  {
    hide Inv;
    hide Create;
    hide Write;
    hide Owns;
    hide SameFile;
    hide Live;
    hide FindOpen;
    RemovedFacts(fs, s);
    match step
    case CreateStep(name, size, env) => CreateKeeps(fs, name, size, env);
    case OpenStep(name, env) => OpenRemoved(fs, name, env, s);
    case RemoveStep(name, env) => RemoveRemoved(fs, name, env, s);
    case CloseStep(t, map1, map2) => CloseRemoved(fs, t, map1, map2, s);
    case WriteStep(t, offset, data, memory) => WriteKeeps(fs, t, offset, data, memory);
  }

  lemma OpenRemoved(fs: Fs, name: seq<Byte>, env: Env, s: nat)
    requires Inv(fs) && RemovedOpen(fs, s)
    ensures forall i :: 0 <= i < SLOTS && Entries(fs.disk)[i].inUse ==> Entries(fs.disk)[i].sector < |fs.disk|
    ensures var fs' := Open(fs, name, env).0; fs'.disk == fs.disk && RemovedOpen(fs', s)
  {
    hide Inv;
    hide Lookup;
    hide CloseSector;
    hide CanClose;
    InvRoot(fs);
    OpenFileKeeps(fs, name, env);
    var (fs', r) := Open(fs, name, env);
    if r.Some? {
      var i :| 0 <= i < |fs.open| && fs.open[i].sector == s && fs.open[i].removed;
      assert fs'.open[if |fs'.open| == |fs.open| then i else i + 1].removed;
    }
  }

  lemma RemoveRemoved(fs: Fs, name: seq<Byte>, env: Env, s: nat)
    requires Inv(fs) && RemovedOpen(fs, s)
    ensures forall i :: 0 <= i < SLOTS && Entries(fs.disk)[i].inUse ==> Entries(fs.disk)[i].sector < |fs.disk|
    ensures var fs' := Remove(fs, name, env).0;
            s < |fs.disk| == |fs'.disk| && fs'.disk[s] == fs.disk[s] && RemovedOpen(fs', s)
  {
    hide Inv;
    hide Live;
    hide Owns;
    hide Remove;
    hide FindOpen;
    InvRoot(fs);
    RemovedFacts(fs, s);
    RemoveKeeps(fs, name, env);
    RemoveMeaning(fs, name, env);
    var (fs', ok) := Remove(fs, name, env);
    if ok {
      var i :| 0 <= i < |fs.open| && fs.open[i].sector == s && fs.open[i].removed;
      FoundBounds(fs.open, Entries(fs.disk)[Lookup(Entries(fs.disk), name, env.seen)].sector);
      assert fs'.open[i].sector == s && fs'.open[i].removed;
    }
  }

  lemma CloseRemoved(fs: Fs, t: nat, map1: bool, map2: bool, s: nat)
    requires Inv(fs) && RemovedOpen(fs, s) && t in OpenSet(fs.open)
    ensures CanClose(fs, t)
    ensures var fs' := CloseSector(fs, t, map1, map2);
            && s < |fs.disk| == |fs'.disk| && fs'.disk[s] == fs.disk[s]
            && (RemovedOpen(fs', s) || (s !in OpenSet(fs'.open) && Freed(fs'.used, HeaderAt(fs.disk, s), s)))
  {
    hide Inv;
    hide Owns;
    hide SameFile;
    hide CloseSector;
    hide CanClose;
    hide FindOpen;
    hide Live;
    RemovedFacts(fs, s);
    CloseReady(fs, t);
    CloseKeeps(fs, t, map1, map2);
    ClosedOpen(fs, t, map1, map2);
    FoundBounds(fs.open, t);
    OpenCounts(fs);
    var fs' := CloseSector(fs, t, map1, map2);
    var i :| 0 <= i < |fs.open| && fs.open[i].sector == s && fs.open[i].removed;
    var p := FindOpen(fs.open, t, 0);
    if fs.open[p].openCnt > 1 {
      assert fs'.open[i].sector == s && fs'.open[i].removed;
    } else if p != i {
      assert fs'.open[if i < p then i else i - 1] == fs.open[i];
    } else {
      forall j | 0 <= j < |fs'.open| ensures fs'.open[j].sector != s {
        assert fs'.open[j] == fs.open[if j < i then j else j + 1];
      }
    }
  }

  /** The sector of the file that a successful removal takes away. */
  ghost predicate Removes(fs: Fs, step: Step, s: nat)
    requires Inv(fs)
  {
    NamesOnDisk(fs);
    && step.RemoveStep? && Remove(fs, step.name, step.env).1
    && var i := Lookup(Entries(fs.disk), step.name, step.env.seen);
       i < SLOTS && s == Entries(fs.disk)[i].sector
  }

  lemma RemovesOrFrees(fs: Fs, step: Step, fs': Fs, s: nat)
    requires Inv(fs) && Takes(fs, step, fs') && Removes(fs, step, s)
    ensures s < |fs.disk| == |fs'.disk| && HeaderAt(fs'.disk, s) == HeaderAt(fs.disk, s)
    ensures RemovedOpen(fs', s) || (s !in OpenSet(fs'.open) && Freed(fs'.used, HeaderAt(fs.disk, s), s))
  {
    hide Inv;
    hide Owns;
    hide Remove;
    hide SameFile;
    InvRoot(fs);
    RemoveMeaning(fs, step.name, step.env);
    RemoveKeeps(fs, step.name, step.env);
    var i := Lookup(Entries(fs.disk), step.name, step.env.seen);
    NamedLive(fs, i);
    OpenSetAt(fs.open, s);
    var p := FindOpen(fs.open, s, 0);
    if p < |fs.open| {
      assert fs'.open[p].sector == s && fs'.open[p].removed;
    }
  }

  /** After a removal, the first state in which the file is not open has all its sectors
      free: at once if nobody has it open, otherwise after the last close. */
  lemma {:induction false} RemovedIsFreed(states: seq<Fs>, steps: seq<Step>, s: nat, i: nat, j: nat)
    requires IsRun(states, steps) && i < j < |states|
    requires Inv(states[i]) && Removes(states[i], steps[i], s)
    requires forall k :: i < k < j ==> s in OpenSet(states[k].open)
    ensures s < |states[i].disk| == |states[j].disk|
    ensures HeaderAt(states[j].disk, s) == HeaderAt(states[i].disk, s)
    ensures if s in OpenSet(states[j].open) then RemovedOpen(states[j], s)
            else Freed(states[j].used, HeaderAt(states[i].disk, s), s)
  {
    hide Takes;
    hide Inv;
    hide Owns;
    hide Formatted;
    hide Freed;
    RunKeeps(states, steps, j - 1);
    RunKeeps(states, steps, j);
    assert Takes(states[j - 1], steps[j - 1], states[j - 1 + 1]);
    if j == i + 1 {
      RemovesOrFrees(states[i], steps[i], states[j], s);
    } else {
      RemovedIsFreed(states, steps, s, i, j - 1);
      StepRemoved(states[j - 1], steps[j - 1], states[j], s);
    }
  }

  // ----- what filesys_create takes

  /** The creation gets as far as dir_add, which refuses. */
  ghost predicate Refused(fs: Fs, name: seq<Byte>, size: nat, env: Env)
    requires Inv(fs) && size <= MAX_SIZE
  {
    InvRoot(fs);
    var (fs1, a) := Allocate(fs, 1, true, env.map1);
    && env.root && a.Some?
    && var (fs2, made) := CreateInode(fs1, a.value, size, true, env);
       made && !(RootOk(fs2.disk) && DirAdd(fs2.disk, name, a.value, env).1)
  }

  /** inode_create marks the data sectors of the new file, which were free, and no others;
      failing, it marks nothing. */
  lemma CreateInodeUsed(fs: Fs, s: nat, length: nat, mapped: bool, env: Env)
    requires Sized(fs) && FREE_MAP < |fs.disk| && s < |fs.disk| && length < LIMIT32 && fs.used[s]
    requires mapped ==> MapMarked(fs, s)
    ensures var (fs2, made) := CreateInode(fs, s, length, mapped, env);
            if made then
              var h := HeaderAt(fs2.disk, s);
              && h.length == length && h.start + Sectors(length) <= |fs.used|
              && (forall k :: h.start <= k < h.start + Sectors(length) ==> !fs.used[k])
              && forall k :: 0 <= k < |fs.used| ==>
                   fs2.used[k] == (fs.used[k] || h.start <= k < h.start + Sectors(length))
            else fs2.used == fs.used
  {
    hide Allocate;
    hide InMap;
    hide Sectors;
    hide MapMarked;
    var (fs1, a) := Allocate(fs, Sectors(length), mapped, env.map2);
    AllocateFacts(fs, Sectors(length), mapped, env.map2);
    if env.memory && a.Some? {
      var h := Header(a.value, length);
      var disk' := Initialised(fs1.disk, s, h);
      assert disk'[s] == EncodeHeader(h);
      HeaderRoundTrip(h);
    }
  }

  /** Which bits of the free map a creation changes, for each way it can end: on success the
      inode sector and the data of the new file; nothing if it fails for want of memory or
      room; and if dir_add refuses, the data sectors, which stay marked although no file
      owns them. */
  lemma CreateUsed(fs: Fs, name: seq<Byte>, size: nat, env: Env)
    requires Inv(fs) && 0 !in name && size <= MAX_SIZE
    ensures RootOk(fs.disk)
    ensures var (fs', ok) := Create(fs, name, size, env);
            && RootOk(fs'.disk) && |fs'.used| == |fs.used| == |fs'.disk|
            && (ok ==> exists s :: Created(fs, fs', name, size, s, env) && TakenBy(fs, fs', s))
            && (!ok && !Refused(fs, name, size, env) ==> fs'.used == fs.used)
            && (!ok && Refused(fs, name, size, env) ==> exists start :: Lost(fs.used, fs'.used, start, Sectors(size)))
            && (ok ==> !Refused(fs, name, size, env))
  {
    hide Inv;
    hide Owns;
    hide Fits;
    hide Contents;
    hide DirAdd;
    hide CreateInode;
    hide Allocate;
    hide Release;
    hide Extends;
    hide MapMarked;
    hide Live;
    hide SameFile;
    hide Created;
    hide TakenBy;
    hide Sectors;
    InvRoot(fs);
    CreateKeeps(fs, name, size, env);
    InvRoot(Create(fs, name, size, env).0);
    CreateStages(fs, size, env);
    if env.root {
      var (fs1, a) := Allocate(fs, 1, true, env.map1);
      InvMap(fs);
      AllocateFacts(fs, 1, true, env.map1);
      if a.Some? {
        var s := a.value;
        CreateInodeUsed(fs1, s, size, true, env);
        var (fs2, made) := CreateInode(fs1, s, size, true, env);
        ExtendsKeeps(fs, fs2);
        InvRoot(fs2);
        if made && DirAdd(fs2.disk, name, s, env).1 {
          CreateSucceeds(fs, fs1, fs2, name, size, s, env);
          var fs' := fs2.(disk := DirAdd(fs2.disk, name, s, env).0);
          AddedHeader(fs, fs1, fs2, fs', name, size, s, env);
          TakenAre(fs, fs1, fs2, fs', s, size);
        } else {
          InvMarked(fs, s);
          ReleaseUsed(fs2, s, env.map3);
          if made {
            var used' := Release(fs2, s, 1, env.map3).used;
            LostAre(fs.used, fs1.used, fs2.used, used', s, HeaderAt(fs2.disk, s).start, Sectors(size));
          } else {
            assert Release(fs2, s, 1, env.map3).used == fs.used;
          }
        }
      }
    }
  }

  /** The sectors of the new file in sector s, and only they, have been marked. */
  ghost predicate TakenBy(fs: Fs, fs': Fs, s: nat) {
    && s < |fs'.disk| && |fs'.used| == |fs.used| && s < |fs.used| && !fs.used[s]
    && forall k :: 0 <= k < |fs.used| ==> fs'.used[k] == (fs.used[k] || Owns(HeaderAt(fs'.disk, s), s, k))
  }

  /** cnt sectors from start on, which were free, have been marked. */
  ghost predicate Lost(used: seq<bool>, used': seq<bool>, start: nat, cnt: nat) {
    && start + cnt <= |used| == |used'|
    && (forall k :: start <= k < start + cnt ==> !used[k])
    && forall k :: 0 <= k < |used| ==> used'[k] == (used[k] || start <= k < start + cnt)
  }

  lemma InvMarked(fs: Fs, s: nat)
    requires Inv(fs) && s < |fs.used| && !fs.used[s]
    ensures s != 0
  {
    assert FREE_MAP in Live(fs);
    LiveFits(fs, FREE_MAP);
  }

  lemma ReleaseUsed(fs: Fs, s: nat, memory: bool)
    requires s < |fs.used|
    ensures Release(fs, s, 1, memory).used == fs.used[s := false]
  {
    assert Bitmaps.Filled(fs.used, s, 1, false) == fs.used[s := false];
  }

  lemma LostAre(used: seq<bool>, used1: seq<bool>, used2: seq<bool>, used': seq<bool>, s: nat, start: nat, cnt: nat)
    requires s < |used| && !used[s] && used1 == used[s := true] && |used2| == |used1| && used' == used2[s := false]
    requires start + cnt <= |used| && (forall k :: start <= k < start + cnt ==> !used1[k])
    requires forall k :: 0 <= k < |used| ==> used2[k] == (used1[k] || start <= k < start + cnt)
    ensures Lost(used, used', start, cnt)
  {
    forall k | start <= k < start + cnt ensures k != s && !used[k] {
      assert !used1[k];
    }
  }

  /** Naming a file does not touch its inode. */
  lemma AddedHeader(fs: Fs, fs1: Fs, fs2: Fs, fs': Fs, name: seq<Byte>, size: nat, s: nat, env: Env)
    requires Inv(fs) && Inv(fs2) && 0 !in name && size <= MAX_SIZE && s < |fs.disk| && !fs.used[s]
    requires Sized(fs1) && MapMarked(fs1, s) && |fs1.disk| == |fs.disk| && fs1.used == fs.used[s := true]
    requires CreateInode(fs1, s, size, true, env) == (fs2, true)
    requires Live(fs2) == Live(fs) && forall t :: t in Live(fs) ==> t < |fs.disk| && fs2.disk[t] == fs.disk[t]
    requires DirAdd(fs2.disk, name, s, env).1 && fs' == fs2.(disk := DirAdd(fs2.disk, name, s, env).0)
    ensures s < |fs'.disk| && HeaderAt(fs'.disk, s) == HeaderAt(fs2.disk, s)
  {
    hide Owns;
    hide Fits;
    hide Contents;
    hide DirAdd;
    hide CreateInode;
    hide FileOk;
    hide Separate;
    hide OpenOk;
    hide DirOk;
    CreateInodeFacts(fs1, s, size, true, env);
    PreparedApart(fs, fs2, s);
    AddKeeps(fs2, name, s, env);
    assert SameFile(fs2.disk, fs'.disk, s);
  }

  lemma TakenAre(fs: Fs, fs1: Fs, fs2: Fs, fs': Fs, s: nat, size: nat)
    requires |fs1.used| == |fs.used| == |fs2.used| && s < |fs.used| && !fs.used[s] && fs1.used == fs.used[s := true]
    requires s < |fs2.disk| && s < |fs'.disk| && HeaderAt(fs'.disk, s) == HeaderAt(fs2.disk, s) && fs'.used == fs2.used
    requires var h := HeaderAt(fs2.disk, s);
             && h.length == size
             && forall k :: 0 <= k < |fs.used| ==>
                  fs2.used[k] == (fs1.used[k] || h.start <= k < h.start + Sectors(size))
    ensures TakenBy(fs, fs', s)
  {
  }

  /** With memory a creation is refused by dir_add, its data lost, exactly if there is room
      for it on the disk but the name is invalid or taken or the directory is full. */
  lemma RefusedWhen(fs: Fs, name: seq<Byte>, size: nat, env: Env)
    requires Inv(fs) && 0 !in name && size <= MAX_SIZE && Ample(env)
    ensures RootOk(fs.disk)
    ensures Refused(fs, name, size, env) <==>
            && HasRoom(fs.used, size)
            && !(&& 0 < |name| <= NAME_MAX
                 && Lookup(Entries(fs.disk), name, SLOTS) == SLOTS && FindFree(Entries(fs.disk), 0, SLOTS) < SLOTS)
  {
    hide Owns;
    hide Contents;
    hide Inv;
    hide Live;
    hide SameFile;
    hide DirAdd;
    hide CreateInode;
    hide Allocate;
    hide Release;
    hide Lookup;
    hide FindFree;
    hide Extends;
    hide Bitmaps.FirstFit;
    InvRoot(fs);
    CreateStages(fs, size, env);
    AllocatedWhen(fs, 1);
    var (fs1, a) := Allocate(fs, 1, true, true);
    if a.Some? {
      var s := a.value;
      assert fs1.used == Bitmaps.Filled(fs.used, s, 1, true);
      ExtendsKeeps(fs, fs1);
      AllocatedWhen(fs1, Sectors(size));
      MadeWhen(fs1, s, size, env);
      var (fs2, made) := CreateInode(fs1, s, size, true, env);
      ExtendsKeeps(fs, fs2);
      InvRoot(fs2);
      AddedWhen(fs2.disk, name, s, env);
    }
  }

  // ----- exact accounting

  /** Sector k belongs to a file that is named or open, or to a system file. */
  ghost predicate Owned(fs: Fs, k: nat)
    requires RootOk(fs.disk)
  {
    exists s :: s in Live(fs) && s < |fs.disk| && Owns(HeaderAt(fs.disk, s), s, k)
  }

  /** No sector is lost, and an open file that is not removed still has its name. */
  ghost predicate Tight(fs: Fs)
    requires RootOk(fs.disk)
  {
    && (forall k :: 0 <= k < |fs.used| && fs.used[k] ==> Owned(fs, k))
    && (forall i :: 0 <= i < |fs.open| && !fs.open[i].removed ==>
          fs.open[i].sector < 2 || fs.open[i].sector in NamedSet(Entries(fs.disk)))
  }

  /** A sector that s owned is owned by s, if s is still live and its inode is the same. */
  lemma StillOwned(fs: Fs, fs': Fs, gone: set<nat>, k: nat)
    requires RootOk(fs.disk) && RootOk(fs'.disk) && InodesKept(fs, fs') && Live(fs) <= Live(fs') + gone
    requires Owned(fs, k)
    requires forall s :: s in gone && s < |fs.disk| ==> !Owns(HeaderAt(fs.disk, s), s, k)
    ensures Owned(fs', k)
  {
    hide Owns;
    hide Live;
    var s :| s in Live(fs) && s < |fs.disk| && Owns(HeaderAt(fs.disk, s), s, k);
    assert s !in gone;
    assert s in Live(fs') && Owns(HeaderAt(fs'.disk, s), s, k);
  }

  lemma OwnedMarked(fs: Fs, k: nat)
    requires Inv(fs) && k < |fs.used| && Owned(fs, k)
    ensures fs.used[k]
  {
    var s :| s in Live(fs) && s < |fs.disk| && Owns(HeaderAt(fs.disk, s), s, k);
    assert FileOk(fs.disk, fs.used, s);
  }

  lemma NamedGrows(es: seq<Entry>, es': seq<Entry>, i: nat, name: seq<Byte>, s: nat, env: Env)
    requires AddedAt(es, es', i, name, s, env) && env.scanned >= SLOTS
    ensures NamedSet(es) <= NamedSet(es')
  {
    forall x | x in NamedSet(es) ensures x in NamedSet(es') {
      var j :| 0 <= j < |es| && es[j].inUse && es[j].sector == x;
      assert es'[j] == es[j];
    }
  }

  /** A creation whose scan reads the whole directory loses sectors if and only if dir_add
      refuses a file that has data. */
  lemma CreateTight(fs: Fs, name: seq<Byte>, size: nat, env: Env)
    requires Inv(fs) && Tight(fs) && 0 !in name && size <= MAX_SIZE && env.scanned >= SLOTS
    ensures var fs' := Create(fs, name, size, env).0;
            Inv(fs') && (Tight(fs') <==> !(Refused(fs, name, size, env) && size > 0))
  {
    hide Inv;
    hide Owns;
    hide Fits;
    hide Create;
    hide SameFile;
    hide Entries;
    hide Refused;
    hide Contents;
    InvRoot(fs);
    CreateKeeps(fs, name, size, env);
    CreateUsed(fs, name, size, env);
    var (fs', ok) := Create(fs, name, size, env);
    InvRoot(fs');
    if ok {
      var s :| Created(fs, fs', name, size, s, env) && TakenBy(fs, fs', s);
      CreatedTight(fs, fs', name, size, s, env);
    } else if Refused(fs, name, size, env) {
      var start :| Lost(fs.used, fs'.used, start, Sectors(size));
      SomeSectors(size);
      if size > 0 {
        NotOwned(fs, fs', start);
      } else {
        assert fs'.used == fs.used;
        SameTight(fs, fs');
      }
    } else {
      SameTight(fs, fs');
    }
  }

  lemma SomeSectors(size: nat)
    ensures Sectors(size) == 0 <==> size == 0
  {
  }

  lemma SameTight(fs: Fs, fs': Fs)
    requires RootOk(fs.disk) && RootOk(fs'.disk) && InodesKept(fs, fs') && Tight(fs)
    requires Entries(fs'.disk) == Entries(fs.disk) && fs'.open == fs.open && fs'.used == fs.used
    ensures Tight(fs')
  {
    hide Owns;
    hide Entries;
    forall k | 0 <= k < |fs'.used| && fs'.used[k] ensures Owned(fs', k) {
      StillOwned(fs, fs', {}, k);
    }
  }

  lemma NotOwned(fs: Fs, fs': Fs, k: nat)
    requires Inv(fs) && RootOk(fs'.disk) && InodesKept(fs, fs')
    requires Entries(fs'.disk) == Entries(fs.disk) && fs'.open == fs.open
    requires k < |fs.used| == |fs'.used| && !fs.used[k] && fs'.used[k]
    ensures !Tight(fs')
  {
    hide Owns;
    hide Entries;
    if Owned(fs', k) {
      var s :| s in Live(fs') && s < |fs'.disk| && Owns(HeaderAt(fs'.disk, s), s, k);
      assert s in Live(fs) && Owns(HeaderAt(fs.disk, s), s, k);
      OwnedMarked(fs, k);
    }
  }

  lemma CreatedTight(fs: Fs, fs': Fs, name: seq<Byte>, size: nat, s: nat, env: Env)
    requires RootOk(fs.disk) && RootOk(fs'.disk) && InodesKept(fs, fs') && Tight(fs) && fs'.open == fs.open
    requires Created(fs, fs', name, size, s, env) && TakenBy(fs, fs', s) && env.scanned >= SLOTS
    ensures Tight(fs')
  {
    hide Owns;
    hide Entries;
    hide NamedSet;
    var i :| AddedAt(Entries(fs.disk), Entries(fs'.disk), i, name, s, env);
    NamedGrows(Entries(fs.disk), Entries(fs'.disk), i, name, s, env);
    forall k | 0 <= k < |fs'.used| && fs'.used[k] ensures Owned(fs', k) {
      if fs.used[k] { StillOwned(fs, fs', {}, k); }
    }
  }

  /** Closing loses nothing. */
  lemma CloseTight(fs: Fs, s: nat, map1: bool, map2: bool)
    requires Inv(fs) && Tight(fs) && s in OpenSet(fs.open) && s >= 2
    ensures CanClose(fs, s) && Inv(CloseSector(fs, s, map1, map2)) && Tight(CloseSector(fs, s, map1, map2))
  {
    hide Inv;
    hide Owns;
    hide Entries;
    hide SameFile;
    hide CloseSector;
    hide CanClose;
    hide FindOpen;
    InvRoot(fs);
    CloseReady(fs, s);
    CloseKeeps(fs, s, map1, map2);
    ClosedOpen(fs, s, map1, map2);
    FoundBounds(fs.open, s);
    OpenCounts(fs);
    var fs' := CloseSector(fs, s, map1, map2);
    InvRoot(fs');
    var p := FindOpen(fs.open, s, 0);
    var gone := if fs.open[p].openCnt == 1 && fs.open[p].removed then {s} else {};
    if gone == {} { StaysLive(fs, fs', s, p); }
    ClosedNamed(fs, fs', p);
    hide Owned;
    hide OpenSet;
    forall k | 0 <= k < |fs'.used| && fs'.used[k] ensures Owned(fs', k) {
      StillOwned(fs, fs', gone, k);
    }
  }

  lemma ClosedNamed(fs: Fs, fs': Fs, p: nat)
    requires RootOk(fs.disk) && RootOk(fs'.disk) && Tight(fs) && Entries(fs'.disk) == Entries(fs.disk)
    requires p < |fs.open| && fs.open[p].openCnt >= 1
    requires var o := fs.open[p];
             fs'.open == if o.openCnt > 1 then fs.open[p := o.(openCnt := o.openCnt - 1)] else Without(fs.open, p)
    ensures forall i :: 0 <= i < |fs'.open| && !fs'.open[i].removed ==>
              fs'.open[i].sector < 2 || fs'.open[i].sector in NamedSet(Entries(fs'.disk))
  {
    hide Owned;
    hide RootOk;
    hide Entries;
    hide NamedSet;
    forall i | 0 <= i < |fs'.open| && !fs'.open[i].removed
      ensures fs'.open[i].sector < 2 || fs'.open[i].sector in NamedSet(Entries(fs'.disk))
    {
      var j := if fs.open[p].openCnt > 1 || i < p then i else i + 1;
      assert fs'.open[i].sector == fs.open[j].sector && fs'.open[i].removed == fs.open[j].removed;
    }
  }

  lemma StaysLive(fs: Fs, fs': Fs, s: nat, p: nat)
    requires RootOk(fs.disk) && RootOk(fs'.disk) && Tight(fs) && Entries(fs'.disk) == Entries(fs.disk) && s >= 2
    requires Live(fs) <= Live(fs') + {s} && p < |fs.open| && fs.open[p].sector == s
    requires s in OpenSet(fs'.open) || !fs.open[p].removed
    ensures Live(fs) <= Live(fs')
  {
    hide Owned;
  }

  /** Removing loses nothing. */
  lemma RemoveTight(fs: Fs, name: seq<Byte>, env: Env)
    requires Inv(fs) && Tight(fs)
    ensures forall i :: 0 <= i < SLOTS && Entries(fs.disk)[i].inUse ==> Entries(fs.disk)[i].sector < |fs.disk|
    ensures var fs' := Remove(fs, name, env).0; Inv(fs') && Tight(fs')
  {
    hide Inv;
    hide Owns;
    hide Entries;
    hide SameFile;
    hide Remove;
    hide FindOpen;
    hide Lookup;
    hide NamedSet;
    InvRoot(fs);
    RemoveKeeps(fs, name, env);
    RemoveMeaning(fs, name, env);
    var (fs', ok) := Remove(fs, name, env);
    InvRoot(fs');
    if ok {
      var es := Entries(fs.disk);
      var i := Lookup(es, name, env.seen);
      var s := es[i].sector;
      EraseNames(fs, i);
      OpenCounts(fs);
      FoundBounds(fs.open, s);
      OpenSetAt(fs.open, s);
      var p := FindOpen(fs.open, s, 0);
      var gone := if p < |fs.open| then {} else {s};
      RemovedLive(fs, fs', s, p);
      forall k | 0 <= k < |fs'.used| && fs'.used[k] ensures Owned(fs', k) {
        StillOwned(fs, fs', gone, k);
      }
      forall j | 0 <= j < |fs'.open| && !fs'.open[j].removed
        ensures fs'.open[j].sector < 2 || fs'.open[j].sector in NamedSet(Entries(fs'.disk))
      {
        SectorOpen(fs.open, j);
        assert fs.open[j].sector != s;
      }
    }
  }

  lemma SectorOpen(open: seq<OpenInode>, j: nat)
    requires j < |open|
    ensures FindOpen(open, open[j].sector, 0) <= j
  {
  }

  lemma EraseNames(fs: Fs, i: nat)
    requires Inv(fs) && i < SLOTS && Entries(fs.disk)[i].inUse
    ensures var es := Entries(fs.disk);
            NamedSet(es[i := es[i].(inUse := false)]) == NamedSet(es) - {es[i].sector}
  {
    NamedErase(Entries(fs.disk), i);
  }

  lemma RemovedLive(fs: Fs, fs': Fs, s: nat, p: nat)
    requires RootOk(fs.disk) && RootOk(fs'.disk) && p <= |fs.open|
    requires NamedSet(Entries(fs'.disk)) == NamedSet(Entries(fs.disk)) - {s}
    requires p < |fs.open| ==> fs.open[p].sector == s && fs'.open == fs.open[p := fs.open[p].(removed := true)]
    requires p == |fs.open| ==> fs'.open == fs.open
    ensures Live(fs) <= Live(fs') + if p < |fs.open| then {} else {s}
  {
    hide NamedSet;
    hide Entries;
    forall t | t in OpenSet(fs.open) ensures t in OpenSet(fs'.open) {
      var j :| 0 <= j < |fs.open| && fs.open[j].sector == t;
      assert fs'.open[j].sector == t;
    }
    if p < |fs.open| { assert fs'.open[p].sector == s; }
  }

  lemma OpenTight(fs: Fs, name: seq<Byte>, env: Env)
    requires Inv(fs) && Tight(fs)
    ensures forall i :: 0 <= i < SLOTS && Entries(fs.disk)[i].inUse ==> Entries(fs.disk)[i].sector < |fs.disk|
    ensures var fs' := Open(fs, name, env).0; Inv(fs') && Tight(fs')
  {
    hide Inv;
    hide Owns;
    hide Entries;
    hide Lookup;
    hide CloseSector;
    hide CanClose;
    InvRoot(fs);
    OpenFileKeeps(fs, name, env);
    LookupFacts(Entries(fs.disk), name, env.seen);
    InodesSame(fs);
    var (fs', r) := Open(fs, name, env);
    if r.Some? {
      forall k | 0 <= k < |fs'.used| && fs'.used[k] ensures Owned(fs', k) {
        StillOwned(fs, fs', {}, k);
      }
      forall i | 0 <= i < |fs'.open| && !fs'.open[i].removed
        ensures fs'.open[i].sector < 2 || fs'.open[i].sector in NamedSet(Entries(fs'.disk))
      {
        if |fs'.open| == |fs.open| {
          assert fs'.open[i].sector == fs.open[i].sector && fs'.open[i].removed == fs.open[i].removed;
        } else if i > 0 {
          assert fs'.open[i] == fs.open[i - 1];
        }
      }
    }
  }

  /** The creations that lose sectors, and those that may overwrite a name. */
  ghost predicate Careless(fs: Fs, step: Step)
    requires Inv(fs) && (step.CreateStep? ==> step.size <= MAX_SIZE)
  {
    step.CreateStep? &&
    (step.env.scanned < SLOTS || (Refused(fs, step.name, step.size, step.env) && step.size > 0))
  }

  lemma StepTight(fs: Fs, step: Step, fs': Fs)
    requires Inv(fs) && Tight(fs) && Takes(fs, step, fs') && !Careless(fs, step)
    ensures Inv(fs') && Tight(fs')
  {
    hide Inv;
    hide Tight;
    hide Owns;
    hide Create;
    hide Open;
    hide Remove;
    hide Write;
    hide CloseSector;
    hide SameFile;
    hide Refused;
    InvRoot(fs);
    match step
    case CreateStep(name, size, env) => CreateTight(fs, name, size, env);
    case OpenStep(name, env) => OpenTight(fs, name, env);
    case RemoveStep(name, env) => RemoveTight(fs, name, env);
    case CloseStep(s, map1, map2) => CloseTight(fs, s, map1, map2);
    case WriteStep(s, offset, data, memory) =>
      WriteKeeps(fs, s, offset, data, memory);
      RootLive(fs);
      InvRoot(fs');
      EntriesFrame(fs.disk, fs'.disk);
      SameTight(fs, fs');
  }

  /** A formatted disk has lost nothing. */
  lemma FormatTight(blank: seq<Sector>, fs: Fs)
    requires ROOT < |blank| < LIMIT32 && FormattedFrom(blank, fs)
    ensures Inv(fs) && Tight(fs)
  {
    hide Owns;
    hide Contents;
    hide Sectors;
    hide CreateInode;
    hide MapWritten;
    hide MapRead;
    hide InMap;
    hide Inv;
    hide Synced;
    FormatKeeps(blank, fs);
    InvRoot(fs);
    var size := Bitmaps.ByteCnt(|blank|);
    var fs0 := Blank(blank);
    var fs1 := CreateInode(fs0, FREE_MAP, size, false, Plenty()).0;
    CreateInodeFacts(fs0, FREE_MAP, size, false, Plenty());
    CreateInodeUsed(fs0, FREE_MAP, size, false, Plenty());
    var fs2 := OpenSector(fs1, FREE_MAP, true).0.(disk := MapWritten(fs1.disk, fs1.used, true).0);
    MapReadyFacts(fs0.used, fs1);
    MapWrittenFrame(fs1.disk, fs1.used, true);
    SameMap(fs1.disk, fs2.disk);
    var fs3 := CreateInode(fs2, ROOT, SLOTS * ENTRY, true, Plenty()).0;
    CreateInodeFacts(fs2, ROOT, SLOTS * ENTRY, true, Plenty());
    CreateInodeUsed(fs2, ROOT, SLOTS * ENTRY, true, Plenty());
    CreateInodeSyncs(fs2, ROOT, SLOTS * ENTRY, Plenty());
    SyncedRead(fs3);
    SystemOnly(fs1, fs3, fs);
  }

  lemma SyncedRead(fs: Fs)
    requires Synced(fs)
    ensures MapFits(fs.disk)
    ensures |fs.used| <= 8 * HeaderAt(fs.disk, FREE_MAP).length
    ensures MapRead(Contents(fs.disk, HeaderAt(fs.disk, FREE_MAP)), |fs.used|) == fs.used
  {
    hide MapRead;
    MapRoundTrip(fs.used);
  }

  lemma SystemOnly(fs1: Fs, fs3: Fs, fs: Fs)
    requires RootOk(fs.disk) && fs.disk == fs3.disk && fs.used == fs3.used
    requires |fs1.disk| == |fs3.disk| == |fs3.used| == |fs1.used|
    requires ROOT < |fs3.disk| && fs3.disk[FREE_MAP] == fs1.disk[FREE_MAP]
    requires forall i :: 0 <= i < |fs.open| ==> fs.open[i].sector < 2
    requires var h := HeaderAt(fs1.disk, FREE_MAP);
             forall k :: 0 <= k < |fs1.used| ==>
               fs1.used[k] == (k == FREE_MAP || k == ROOT || h.start <= k < h.start + Sectors(h.length))
    requires var h := HeaderAt(fs3.disk, ROOT);
             forall k :: 0 <= k < |fs1.used| ==>
               fs3.used[k] == (fs1.used[k] || h.start <= k < h.start + Sectors(h.length))
    ensures Tight(fs)
  {
    hide Entries;
    forall k | 0 <= k < |fs.used| && fs.used[k] ensures Owned(fs, k) {
      assert FREE_MAP in Live(fs) && ROOT in Live(fs);
      assert Owns(HeaderAt(fs.disk, FREE_MAP), FREE_MAP, k) || Owns(HeaderAt(fs.disk, ROOT), ROOT, k);
    }
  }

  /** Conservation: in every state of every run without careless creations, a sector is marked
      if and only if it belongs to a file that is named or open or to a system file. */
  lemma {:induction false} RunTight(states: seq<Fs>, steps: seq<Step>, i: nat)
    requires IsRun(states, steps) && i < |states|
    requires forall j :: 0 <= j < |steps| && Inv(states[j]) && Takes(states[j], steps[j], states[j + 1]) ==>
               !Careless(states[j], steps[j])
    ensures Inv(states[i]) && RootOk(states[i].disk) && Tight(states[i])
    ensures forall k :: 0 <= k < |states[i].used| ==> (states[i].used[k] <==> Owned(states[i], k))
  {
    hide FormattedFrom;
    hide Inv;
    hide Takes;
    hide Careless;
    hide Owned;
    if i == 0 {
      var blank: seq<Sector> :| |blank| == |states[0].disk| && FormattedFrom(blank, states[0]);
      FormatTight(blank, states[0]);
    } else {
      RunTight(states, steps, i - 1);
      assert Takes(states[i - 1], steps[i - 1], states[i - 1 + 1]);
      StepTight(states[i - 1], steps[i - 1], states[i]);
    }
    InvRoot(states[i]);
    forall k | 0 <= k < |states[i].used| && Owned(states[i], k) ensures states[i].used[k] {
      OwnedMarked(states[i], k);
    }
  }
}
