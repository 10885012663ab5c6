# Pintos, modelled and verified in Dafny

This project models the parts of the Pintos kernel whose correctness is not visible from one
function body, and proves what they are for. Each module follows one component of the kernel:

- **Demand paging** (`Clock`, `Paging`, `PagingImpl`): user pages move between frames, swap slots and
  files. The specification a process relies on is that each of its pages is a 4096-byte array that
  only its own stores change; `Paging.PagingInvisible` proves that over every run of loading, eviction
  by the clock algorithm, swapping, pinning, mapping and file writes.
- **File system** (`Inode`, `DiskFormat`, `FileSys`, `FileSysImpl`, `SectorUse`): everything lies in the bytes
  of one block device. Sector-chunked reads and writes refine a flat byte array, in every run after
  formatting no sector belongs to two files that are named or open, and a removed file's sectors are
  free once nobody has it open.
- **Kernel containers** (`Ordering`, `KernelList`, `Bits`, `Bitmaps`, `HashTable`): natural merge sort by
  pointer surgery on doubly linked lists, word-packed bitmaps, a chained hash table with rehashing.
- **Allocators** (`Palloc`, `Malloc`): first-fit page pools, and the size-class block allocator on top, with the
  bytes of its headers and links.
- **Scheduler and alarm** (`Mlfqs`, `Scheduler`, `SchedulerImpl`): the multi-level feedback queue in 17.15
  fixed point, ready list, sleep queue.
- **Synchronisation** (`Synch`, `Donation`): semaphores and locks under every interleaving, chained
  priority donation.
- **Library code** (`Arithmetic`, `Heapsort`, `Stdio`, `Ustar`): 64-bit division from a 64/32 divide,
  in-place heapsort, integer formatting, ustar archive headers.

`Common` holds what several of them share.

The shape is the same throughout. Where the kernel changes state in place there is a class (or a method on
an array) whose methods are proved to compute a specification function; the lemmas are about those
functions, and the run theorems quantify over every sequence of steps. An atomic step is a region
that the kernel runs with interrupts off or under its lock. A kernel panic ends a run, so a step
that panics is not taken; failures the kernel survives (no memory for an inode, a directory, a bounce
buffer) are inputs of the step, one for each allocation, and every combination of them is covered.
Machine integers are integers with their bounds and wrap-arounds written out.

Things that turned out to hold only under a condition, with the exact condition proved:

- donation closes the wait graph if and only if the chain of lower-priority holders has at most 20
  (`Donation.DonationCloses`; `Donation.DonationFallsShort` is a convoy of 21);
- `umod64` is exact for every dividend if and only if the divisor is at most 2^32, and `sdiv64` truncates
  unless it is given INT64_MIN and -1;
- a large `malloc` block is wide enough if and only if the request is at most 2^32 - 12
  (`Malloc.BigPagesRight`; the largest request is given one page, `Malloc.BigPagesWrapped`);
- the clock hand stays in the frame table after an eviction if and only if there were two frames or more
  (`Paging.EvictHand`), which a user pool of two pages or more guarantees whenever eviction happens;
- parsing a composed ustar header of a regular file returns its size if and only if the size is not
  negative (`Ustar.RoundTrip`);
- a name added to the directory leaves names distinct if and only if no other entry had it
  (`FileSys.NamesAfterAdd`), which a search that reads the whole directory ensures (`FileSys.RunNames`);
- a creation loses sectors if and only if `dir_add` refuses a file that has data, which with memory means an
  invalid or taken name or a full directory (`SectorUse.CreateTight`, `SectorUse.RefusedWhen`); in runs
  without such creations the free map marks exactly the sectors in use (`SectorUse.RunTight`);
- formatting succeeds if and only if the disk has room for the system files (`FileSys.FormatSucceeds`).

`spt_load_page` frees the swap slot before it installs the page, so a failing `pagedir_set_page` would lose
the page. The invariant shows that this cannot happen: a page that is in swap was mapped before, and
its page table still exists (`Paging.SwapReady`).

Where code and comments differ the model follows the code: `filesys_create` gives back only the inode sector
when `dir_add` fails, so the invariant of all runs states ownership as inclusion in the free map; and the branch of
`inode_write_at` that clears the bounce buffer is dead, because a chunk that fills a sector takes the
direct branch.

## Model

| member | source | states |
|---|---|---|
| `Clock.Sweep` | src/vm/frame.c:149-175 | the clock loop; a frame it returns is unpinned with its accessed bit clear, and bits are only ever cleared |
| `Clock.ClearedIs` | src/vm/frame.c:157-168 | passing k frames clears exactly the accessed bits of the unpinned ones among them |
| `Clock.PassOver` | src/vm/frame.c:153-175 | frames that are pinned or accessed are passed over, once each, before any of them can be chosen |
| `Clock.SweepMeaning` | src/vm/frame.c:146-181 | second chance: the first unpinned frame from the hand on with its bit clear is chosen; if there is none, all bits of unpinned frames are cleared and the first unpinned frame is chosen |
| `Clock.VictimExists` | src/vm/frame.c:151-181 | two rounds of the table find no victim if and only if every frame is pinned |
| `Paging.SlotStoredIs` | src/vm/swap.c:47-76 | a page written to a swap slot reads back unchanged and disturbs no other slot |
| `Paging.WriteOutVictim` | src/vm/frame.c:204-240 | the victim page keeps its visible bytes whichever way it leaves memory, and the slot bijection is kept |
| `Paging.WriteOutElsewhere` | src/vm/frame.c:183-240 | evicting one page leaves every other page, slot and executable file as it was |
| `Paging.StoredElsewhere` | src/vm/frame.c:217-232 | storing the victim in the first free slot leaves every other slot and page as it was |
| `Paging.EvictKeeps` | src/vm/frame.c:135-243 | eviction is invisible to every page that is not memory-mapped, and with two frames or more keeps the invariant with the victim's frame in hand |
| `Paging.EvictWritesBack` | src/vm/frame.c:204-240 | evicting a written memory-mapped page puts its leading bytes into the file at the place it maps, as many as the write moves; no other byte of any file changes, and no other eviction changes a file |
| `Paging.AccessedSpared` | src/vm/frame.c:157-181 | an accessed page is not evicted while some unpinned page has not been accessed |
| `Paging.EvictPanics` | src/vm/frame.c:41-43 | eviction fails when every frame is pinned, and otherwise only when swap is full |
| `Paging.EvictHand` | src/vm/frame.c:192-199 | the hand moves on before the victim is taken out; it is left on an entry of the table if and only if there was another frame, and with a single frame it points to the freed entry |
| `Paging.TwoFrames` | src/vm/frame.c:37-43 | when the user pool is exhausted there are at least two frames to choose from |
| `Paging.ObtainKeeps` | src/vm/frame.c:32-47 | getting a frame, by allocation or eviction, is invisible and does not touch the entries of unloaded pages |
| `Paging.FilledIsImage` | src/vm/page.c:225-242 | a frame filled from the file and zeroed behind is exactly the page's image |
| `Paging.SwapReady` | src/userprog/pagedir.c:98-122 | a swapped-out page is writable, its slot is occupied and its page table exists, so loading it cannot fail at either point |
| `Paging.InstallKeeps` | src/vm/page.c:256-274 | mapping a page's own bytes is invisible and keeps page directory, frame table and slots consistent |
| `Paging.GiveBackKeeps` | src/vm/frame.c:68-90 | giving a frame back after a failed load is invisible |
| `Paging.FillKeeps` | src/vm/page.c:222-280 | every branch of the load keeps the invariant and the view and never reads a free slot; it succeeds exactly when the file supplies the bytes and there is a page table, always for a swapped page |
| `Paging.LoadKeeps` | src/vm/page.c:190-281 | spt_load_page, with the eviction it may cause, is invisible; with memory for the frame entry it succeeds if and only if the file supplies the bytes and a page table exists or can be made, and then the page is mapped |
| `Paging.LoadPanics` | src/vm/frame.c:37-47 | loading panics only when there is no free frame and either every frame is pinned or swap is full |
| `Paging.AddKeeps` | src/vm/page.c:51-152 | a new entry starts as its source, the file image or zeros, and leaves all other pages alone; an existing entry is not replaced (what the source is: `SetFileMeaning`, `SetZeroMeaning`, `SetMmapMeaning`) |
| `Paging.SetFileMeaning` | src/vm/page.c:51-84 | the page shows the bytes of the file at the given offset, zeros behind the given count and behind end of file, with the protection asked for; nothing happens if the page has an entry or there is no memory |
| `Paging.SetZeroMeaning` | src/vm/page.c:86-116 | the page shows zeros, with the protection asked for |
| `Paging.SetMmapMeaning` | src/vm/page.c:118-152 | the page shows the bytes of the file at the given offset, is writable and shared with that file |
| `Paging.StoreKeeps` | src/userprog/pagedir.c:159-168 | a store by the program, which sets the dirty bit, changes the one byte of the one page |
| `Paging.TouchKeeps` | src/userprog/pagedir.c:188-197 | an access by the program, which sets the accessed bit, is invisible |
| `Paging.TouchSpares` | src/userprog/pagedir.c:170-197 | a page just touched or stored to survives an eviction as long as some unpinned page has not been accessed: the bit is set where the clock reads it |
| `Paging.PinKeeps` | src/vm/frame.c:92-116 | pinning and unpinning are invisible |
| `Paging.PinMeaning` | src/vm/frame.c:92-116 | sets the flag of the frame named, and of no other |
| `Paging.PinnedStays` | src/vm/frame.c:153-156 | no step but frame_unpin takes a pinned page out of its frame |
| `Paging.WriteFileKeeps` | src/filesys/inode.c:265-266 | a write to a file takes effect unless writes are denied, and changes no private page, because executables deny writes |
| `Paging.VisibleDefined` | src/vm/swap.c:65-69 | in a good state reading any page is defined: no load hits a free swap slot |
| `Paging.StepKeeps` | src/vm/page.c:190-281 | every step keeps the invariant; only a store changes what a process sees, and only that byte |
| `Paging.RunKeeps` | src/vm/frame.c:183-242 | the invariant holds in every state of every run |
| `Paging.RunSlots` | src/vm/swap.c:35-82 | in every run the unloaded PAGE_SWAP entries are in bijection with the occupied swap slots |
| `Paging.PagingInvisible` | src/vm/page.c:190-281 | over every run a private page reads as a plain 4096-byte array changed only by its stores |
| `Paging.StepProtection` | src/vm/page.c:256-262 | no step changes the protection of a page, and a loaded page is mapped with its own |
| `Paging.RunProtection` | src/vm/page.c:190-281 | nor does any run |
| `Paging.SegmentInvisible` | src/vm/page.c:51-281 | from spt_set_file on, over every run, the process sees the bytes of the segment as they were in the file, changed by its own stores only, and may store if and only if the segment was declared writable |
| `Paging.ZeroInvisible` | src/vm/page.c:86-281 | the same for spt_set_zero, starting from zeros |
| `Paging.RunPinned` | src/vm/frame.c:92-116 | from frame_pin to frame_unpin a page stays in its frame, over every run |
| `PagingImpl.VirtualMemory.constructor` | src/vm/frame.c:22-29 | the initial state has nothing mapped and every slot free |
| `PagingImpl.VirtualMemory.SwapOut` | src/vm/swap.c:34-57 | the eight-sector loop stores the page in the first free slot and marks it; None when swap is full |
| `PagingImpl.VirtualMemory.SwapIn` | src/vm/swap.c:59-82 | the eight-sector loop reads the slot into the frame and frees the slot; false on a free slot |
| `PagingImpl.VirtualMemory.FindVictim` | src/vm/frame.c:146-175 | the loop over hand and accessed bits computes the two-round sweep |
| `PagingImpl.VirtualMemory.WritePageOut` | src/vm/frame.c:204-240 | the update of the entry and the write to file or swap compute WriteOut |
| `PagingImpl.VirtualMemory.RemoveFrame` | src/vm/frame.c:198-199 | removing an entry shifts the table and leaves the hand where it points, dangling if that was the entry |
| `PagingImpl.VirtualMemory.UnmapVictim` | src/vm/frame.c:187-199 | the victim is unmapped, the hand moves on and the victim leaves the table |
| `PagingImpl.VirtualMemory.EvictFrame` | src/vm/frame.c:134-243 | evict_frame computes the eviction step; None exactly where the kernel panics |
| `PagingImpl.VirtualMemory.FrameAlloc` | src/vm/frame.c:31-66 | frame_alloc obtains a frame and appends its entry, or gives the page back when there is no memory for the entry |
| `PagingImpl.VirtualMemory.FrameFree` | src/vm/frame.c:68-90 | frame_free removes the entry, moves the hand off it and frees the page |
| `PagingImpl.FreedHandStays` | src/vm/frame.c:73-85 | freeing a frame leaves the hand on an entry of the table if and only if it is not the only frame with the hand on it |
| `PagingImpl.FreeLast` | src/vm/frame.c:73-85 | freeing the frame just added leaves table and hand as they were |
| `PagingImpl.VirtualMemory.FillFromFile` | src/vm/page.c:225-242 | file_read then memset fill the frame as specified; success exactly on a full read |
| `PagingImpl.VirtualMemory.FillBytes` | src/vm/page.c:222-254 | the three ways to fill a frame, by kind of page |
| `PagingImpl.VirtualMemory.InstallPage` | src/vm/page.c:256-274 | the page is mapped and marked loaded, or the frame is freed when there is no page table |
| `PagingImpl.VirtualMemory.Fill` | src/vm/page.c:222-280 | the part of spt_load_page after frame_alloc computes the load step |
| `PagingImpl.VirtualMemory.SptLoadPage` | src/vm/page.c:189-281 | spt_load_page computes Load, keeps the invariant and panics exactly where Load has no result |
| `Inode.MovedStep` | src/filesys/inode.c:207-222 | the size of a transfer is one chunk plus the transfer of the rest |
| `Inode.ChunkWritten` | src/filesys/inode.c:281-307 | rewriting part of one sector is patching those bytes of the flat device |
| `Inode.ReadChunk` | src/filesys/inode.c:224-242 | one round of the read loop copies exactly its part of one sector; without memory it copies whole sectors only |
| `Inode.WriteChunk` | src/filesys/inode.c:281-307 | one round of the write loop patches exactly its part of one sector and keeps the rest of it; without memory it writes whole sectors only |
| `Inode.ReadAt` | src/filesys/inode.c:197-250 | fills the buffer with exactly the file's bytes from offset on, clipped at end of file, and leaves the rest of the buffer; without a bounce buffer only the leading whole sectors |
| `Inode.WriteAt` | src/filesys/inode.c:252-318 | 0 and no change while writes are denied; otherwise overwrites exactly the clipped range of the flat device |
| `Inode.WriteMeaning` | src/filesys/inode.c:46-54 | a write changes the file as it would a flat byte array, and no sector outside the extent |
| `Inode.ContentsFrame` | src/filesys/inode.c:46-54 | a file's bytes depend on its own extent only |
| `Inode.ReadAfterWrite` | src/filesys/inode.c:197-318 | reading the range just written returns what was written; a file with a disjoint extent reads as before |
| `DiskFormat.HeaderRoundTrip` | src/filesys/inode.c:15-21 | decoding an encoded inode sector gives back start and length |
| `DiskFormat.EntryRoundTrip` | src/filesys/directory.c:16-22 | decoding a directory entry written over any old bytes gives back sector and name, in use |
| `DiskFormat.EraseRoundTrip` | src/filesys/directory.c:204-207 | erasing an entry clears in_use and nothing else |
| `FileSys.AllocateFacts` | src/filesys/free-map.c:26-41 | an allocation takes sectors that were free and writes nothing but the free map file; one that fails leaves the map in memory as it was |
| `FileSys.MapWrittenFrame` | src/lib/kernel/bitmap.c:353-360 | writing the map changes the data sectors of the free map file only, also when the write stops short |
| `FileSys.MapWrittenAll` | src/lib/kernel/bitmap.c:353-360 | with memory the write goes through and the free map file holds the packed map |
| `FileSys.MapRoundTrip` | src/lib/kernel/bitmap.c:338-360 | reading the bytes of a written map gives back every bit |
| `FileSys.NotInMap` | src/filesys/free-map.c:26-50 | the data of the free map file overlaps no other file and no inode |
| `FileSys.ExtendsKeeps` | src/filesys/free-map.c:26-50 | writing only free sectors and the free map file keeps the invariant, every inode and every other file |
| `FileSys.CreateInodeFacts` | src/filesys/inode.c:68-106 | on success a file of zeros of the given length lies in formerly free sectors, all now marked; whatever happens, no marked sector is written but the inode sector and the free map file; on failure the map is as before |
| `FileSys.SetSlotView` | src/filesys/directory.c:171-175 | writing one entry changes that entry of the directory, no other entry, and no sector outside the directory's extent |
| `FileSys.DirWrite` | src/filesys/directory.c:165-207 | a directory write keeps all files apart and changes no file but the directory |
| `FileSys.AddKeeps` | src/filesys/directory.c:135-179 | naming a prepared file writes one entry with its name and sector and keeps the invariant; the slot was free, and the name new, if the scans had the memory to read the whole directory |
| `FileSys.NamesAfterAdd` | src/filesys/directory.c:135-179 | adding an entry leaves names distinct if and only if no entry but the overwritten one had the name |
| `FileSys.CreateKeeps` | src/filesys/filesys.c:40-59 | filesys_create keeps the invariant under every combination of allocation failures; success adds one entry for a file of zeros in fresh sectors, failure leaves the directory alone; no user file changes |
| `FileSys.CreateSucceedsWhen` | src/filesys/filesys.c:45-59 | with memory filesys_create succeeds if and only if the name is valid and new, the directory has a free slot and the disk has room for inode and data |
| `FileSys.OpenKeeps` | src/filesys/inode.c:106-142 | inode_open keeps the invariant and the set of live files; it needs memory only for a file that is not open |
| `FileSys.CloseKeeps` | src/filesys/inode.c:160-186 | closing keeps the invariant; the sectors of a removed file are given back, all and only they, exactly at its last close; no file but the free map changes |
| `FileSys.OpenThenClose` | src/filesys/file.c:14-34 | closing right after opening restores the state |
| `FileSys.OpenFileKeeps` | src/filesys/filesys.c:61-77 | filesys_open returns the inode of the first entry with the name that its scan can read, and with memory fails only if there is none; a failure changes nothing |
| `FileSys.RemoveKeeps` | src/filesys/filesys.c:79-91 | filesys_remove takes exactly the one name away and changes no user file; failure changes nothing; with memory it succeeds whenever the name is found (what becomes of the sectors: `SectorUse.RemoveMeaning`) |
| `FileSys.EraseKeeps` | src/filesys/directory.c:181-216 | an open file whose entry is erased and that is marked removed keeps all its sectors |
| `FileSys.WriteKeeps` | src/filesys/inode.c:252-318 | a write to an open file patches its contents and no other file |
| `FileSys.StepKeeps` | src/filesys/filesys.c:40-91 | every step keeps the invariant, and of the user files only the one written changes |
| `FileSys.FormatKeeps` | src/filesys/filesys.c:93-103 | a formatted disk satisfies the invariant, its free map file holds the map in memory, and no name is there twice |
| `FileSys.FormatSucceeds` | src/filesys/free-map.c:70-85 | formatting works if and only if the disk has room for two inodes, the free map file and one directory sector |
| `FileSys.RunKeeps` | src/filesys/filesys.c:45-103 | in every run after formatting, the sectors of all named or open files are marked and no two such files share one |
| `FileSys.RunPreserves` | src/filesys/filesys.c:45-103 | a file that stays named or open and is not written reads the same at both ends of any stretch of a run |
| `FileSys.StepSyncs` | src/filesys/free-map.c:26-50 | a step with memory leaves the map on the disk as it is in memory |
| `FileSys.RunSyncs` | src/filesys/free-map.c:52-61 | in every run in which memory does not run out, reading the free map file gives the map in memory, so a reboot finds it |
| `FileSys.StepNames` | src/filesys/directory.c:135-179 | a step keeps names distinct if it reads the whole directory before adding one |
| `FileSys.RunNames` | src/filesys/directory.c:135-179 | in every run in which searches before a creation read the whole directory, no name is there twice |
| `FileSysImpl.FileSystem.constructor` | src/filesys/inode.c:60-65 | no inode is open at first |
| `FileSysImpl.FileSystem.MapByteAt` | src/lib/kernel/bitmap.c:353-360 | a byte of the bitmap storage holds eight bits of the map, lowest first |
| `FileSysImpl.FileSystem.WriteMap` | src/lib/kernel/bitmap.c:353-360 | bitmap_write through inode_write_at; true exactly when all bytes went through |
| `FileSysImpl.FileSystem.ReadMap` | src/lib/kernel/bitmap.c:338-351 | bitmap_read makes the map what the file says |
| `FileSysImpl.FileSystem.FreeMapAllocate` | src/filesys/free-map.c:21-41 | first fit, written through to the free map file, rolled back in memory when the map cannot be written |
| `FileSysImpl.FileSystem.FreeMapRelease` | src/filesys/free-map.c:43-50 | clears exactly the given sectors, which must be marked, and writes the map through |
| `FileSysImpl.FileSystem.InodeCreate` | src/filesys/inode.c:68-106 | inode_create computes CreateInode, with the loop that zeroes the extent |
| `FileSysImpl.FileSystem.InodeOpen` | src/filesys/inode.c:106-142 | inode_open computes OpenSector |
| `FileSysImpl.FileSystem.InodeClose` | src/filesys/inode.c:160-186 | inode_close computes CloseSector, writes to the free map file included, and the assertion in free_map_release holds |
| `FileSysImpl.FileSystem.ReadSlot` | src/filesys/directory.c:101-102 | reads one entry through inode_read_at; false exactly at end of file or without memory |
| `FileSysImpl.FileSystem.WriteSlot` | src/filesys/directory.c:175 | writes one entry through inode_write_at; fails exactly at end of file or without memory |
| `FileSysImpl.FileSystem.Lookup` | src/filesys/directory.c:86-112 | the first in-use entry with the name among those the scan can read |
| `FileSysImpl.FileSystem.ScanForFree` | src/filesys/directory.c:158-169 | the first slot that is free or cannot be read, and the entry last read |
| `FileSysImpl.FileSystem.Add` | src/filesys/directory.c:135-179 | dir_add computes DirAdd: refuses bad names, names its scan meets and a full directory |
| `FileSysImpl.FileSystem.FilesysCreate` | src/filesys/filesys.c:40-59 | filesys_create computes Create and keeps the invariant |
| `FileSysImpl.FileSystem.FilesysOpen` | src/filesys/filesys.c:61-77 | filesys_open computes Open and keeps the invariant |
| `FileSysImpl.FileSystem.Erase` | src/filesys/directory.c:203-210 | without memory nothing changes; otherwise the entry is erased on disk and the open inode of that sector, and no other, is marked removed |
| `FileSysImpl.FileSystem.FilesysRemove` | src/filesys/filesys.c:79-91 | filesys_remove computes Remove and keeps the invariant |
| `FileSysImpl.FileSystem.FileWrite` | src/filesys/inode.c:252-318 | computes Write, keeps the invariant and returns the number of bytes moved |
| `FileSysImpl.FileSystem.FileClose` | src/filesys/file.c:44-54 | computes CloseSector and keeps the invariant |
| `FileSysImpl.FileSystem.DoFormat` | src/filesys/filesys.c:93-103 | succeeds if and only if the disk has room for the system files, and then leaves the formatted state with the map read back |
| `FileSysImpl.ReleaseReady` | src/filesys/free-map.c:47 | the sectors released at a last close are all marked when they are released |
| `SectorUse.RemoveMeaning` | src/filesys/filesys.c:79-91 | the sectors of a file nobody has open are freed, all of them and no others; the inode of an open file is marked removed and its sectors stay |
| `SectorUse.StepRemoved` | src/filesys/inode.c:160-187 | a removed file stays open and removed through every step until the close that frees its sectors |
| `SectorUse.RemovesOrFrees` | src/filesys/directory.c:181-216 | right after its removal a file is either open and marked removed, or not open and its sectors are free |
| `SectorUse.RemovedIsFreed` | src/filesys/inode.c:160-195 | over every run, the first state after a removal in which the file is not open has all its sectors free |
| `SectorUse.CreateInodeUsed` | src/filesys/inode.c:68-106 | inode_create marks the data sectors of the new file, which were free, and no others; failing, it marks nothing |
| `SectorUse.CreateUsed` | src/filesys/filesys.c:40-59 | which sectors a creation takes, for each way it can end: on success those of the new file; none if memory or room is missing; and if dir_add refuses, the data sectors, which no file owns |
| `SectorUse.RefusedWhen` | src/filesys/directory.c:133-179 | with memory, dir_add refuses a creation that has room on disk if and only if the name is invalid or taken or the directory is full |
| `SectorUse.CreateTight` | src/filesys/filesys.c:40-59 | a creation loses sectors if and only if dir_add refuses a file that has data |
| `SectorUse.OpenTight` | src/filesys/filesys.c:61-77 | opening loses none |
| `SectorUse.CloseTight` | src/filesys/inode.c:160-187 | closing loses none |
| `SectorUse.RemoveTight` | src/filesys/filesys.c:79-91 | removing loses none |
| `SectorUse.StepTight` | src/filesys/free-map.c:26-50 | no step but such a creation loses a sector |
| `SectorUse.FormatTight` | src/filesys/filesys.c:93-103 | a formatted disk has lost none |
| `SectorUse.RunTight` | src/filesys/free-map.c:26-50 | in every state of every run without such creations, a sector is marked if and only if it belongs to a file that is named or open or to a system file |
| `Ordering.InsertOrderedSorted` | src/lib/kernel/list.c:442-459 | ordered insertion keeps a list sorted, for every strict weak order |
| `Ordering.InsertOrderedTies` | src/lib/kernel/list.c:442-459 | a new element goes behind everything it ties with |
| `Ordering.InsertAt` | src/lib/kernel/list.c:451-458 | where the search of list_insert_ordered stops is where ordered insertion puts the element |
| `Ordering.InsertionSortStable` | src/lib/kernel/list.c:401-440 | the reference sort is a stable sorted permutation |
| `Ordering.StableSortUnique` | src/lib/kernel/list.c:401-440 | a stable sort has only one result |
| `Ordering.MergeSorted` | src/lib/kernel/list.c:374-399 | merging two sorted runs is sorted |
| `Ordering.MergeTies` | src/lib/kernel/list.c:374-399 | a merge takes ties of the left run first |
| `Ordering.MergeInPlaceTies` | src/lib/kernel/list.c:374-399 | merging two adjacent runs inside a list reorders no ties |
| `Ordering.RunsAfterFirst` | src/lib/kernel/list.c:352-372 | taking off the first natural run leaves one run fewer |
| `Ordering.RunsAppend` | src/lib/kernel/list.c:412-437 | joining two lists adds no run |
| `Ordering.SortedIsOneRun` | src/lib/kernel/list.c:352-372 | a sorted list is at most one run |
| `Ordering.OneRunIsSorted` | src/lib/kernel/list.c:439 | a list of at most one run is sorted |
| `KernelList.List.constructor` | src/lib/kernel/list.c:60-68 | the empty list, head and tail linked |
| `KernelList.List.Insert` | src/lib/kernel/list.c:165-178 | inserts before the given element; the pointers still form that sequence |
| `KernelList.List.Remove` | src/lib/kernel/list.c:215-255 | removes the element and returns the one behind it |
| `KernelList.List.Splice` | src/lib/kernel/list.c:180-204 | moves a range of the list in front of another element, by rewriting six pointers |
| `KernelList.SplicedLinked` | src/lib/kernel/list.c:183-204 | pointers rewritten at the three seams make the spliced sequence well linked in both directions |
| `KernelList.List.InsertOrdered` | src/lib/kernel/list.c:442-459 | computes ordered insertion |
| `KernelList.List.FindEndOfRun` | src/lib/kernel/list.c:352-372 | the end of the first natural run |
| `KernelList.List.InplaceMerge` | src/lib/kernel/list.c:374-399 | replaces two adjacent runs by their merge |
| `KernelList.List.MergeNextRuns` | src/lib/kernel/list.c:415-434 | finds the next two runs and merges them in place, or finds that the last run has no partner |
| `KernelList.List.Pass` | src/lib/kernel/list.c:412-437 | one pass takes r natural runs to at most ceil(r/2), returns that count, and reorders no ties |
| `KernelList.List.Sort` | src/lib/kernel/list.c:401-440 | leaves a well-linked list equal to the stable reference sort, for every strict weak order; ends because runs at least halve |
| `Bits.TurnOffKeepsLeading` | src/lib/kernel/hash.c:328-333 | clearing the lowest set bit of a number that is not a power of two keeps its leading bit |
| `Bits.PowerOf2Test` | src/lib/kernel/hash.c:335-340 | the bit trick recognises exactly the powers of two |
| `Bits.AndPow2` | src/lib/kernel/bitmap.c:196-203 | masking with one bit tests that bit |
| `Bits.AndMask` | src/lib/kernel/hash.c:304-310 | masking with 2^k - 1 is the remainder modulo 2^k |
| `Bitmaps.FirstFitLeast` | src/lib/kernel/bitmap.c:289-310 | first fit is the least start with enough room, and fails only if there is no room |
| `Bitmaps.OneBit` | src/lib/kernel/bitmap.c:155-194 | changing one bit of one word changes exactly that bit of the map |
| `Bitmaps.WordOps` | src/lib/kernel/bitmap.c:155-194 | or, and-not and xor with a bit mask set, clear and flip that bit and keep the word in range |
| `Bitmaps.Bitmap.constructor` | src/lib/kernel/bitmap.c:78-94 | all bits clear, whatever the storage held |
| `Bitmaps.Bitmap.Test` | src/lib/kernel/bitmap.c:196-203 | the bit of the represented sequence |
| `Bitmaps.Bitmap.Mark` | src/lib/kernel/bitmap.c:155-166 | sets exactly that bit |
| `Bitmaps.Bitmap.Reset` | src/lib/kernel/bitmap.c:168-179 | clears exactly that bit |
| `Bitmaps.Bitmap.Flip` | src/lib/kernel/bitmap.c:181-194 | inverts exactly that bit |
| `Bitmaps.Bitmap.Set` | src/lib/kernel/bitmap.c:143-153 | assigns exactly that bit |
| `Bitmaps.Bitmap.SetMultiple` | src/lib/kernel/bitmap.c:216-228 | assigns exactly the range |
| `Bitmaps.Bitmap.Contains` | src/lib/kernel/bitmap.c:248-263 | whether the range holds the value |
| `Bitmaps.Bitmap.Scan` | src/lib/kernel/bitmap.c:289-310 | computes first fit on the packed words |
| `Bitmaps.Bitmap.ScanAndFlip` | src/lib/kernel/bitmap.c:312-326 | first fit, with exactly that range inverted |
| `HashTable.BucketInRange` | src/lib/kernel/hash.c:304-310 | with a power of two of buckets the mask is the remainder, an index in range |
| `HashTable.TableDistinct` | src/lib/kernel/hash.c:312-326 | no two elements of a table tie |
| `HashTable.PushFront` | src/lib/kernel/hash.c:415-421 | an element put in its bucket joins the set, if nothing there ties with it |
| `HashTable.Unlink` | src/lib/kernel/hash.c:423-429 | unlinking an element takes exactly it out of the set |
| `HashTable.Hash.MatchUnique` | src/lib/kernel/hash.c:129-135 | a lookup has only one answer |
| `HashTable.Hash.constructor` | src/lib/kernel/hash.c:22-42 | the empty set in four buckets |
| `HashTable.Hash.FindElem` | src/lib/kernel/hash.c:312-326 | searching one bucket answers for the whole set |
| `HashTable.Hash.Find` | src/lib/kernel/hash.c:129-135 | the element that ties with the given one, or none |
| `HashTable.Hash.InsertElem` | src/lib/kernel/hash.c:415-421 | adds the element to the set |
| `HashTable.Hash.RemoveElem` | src/lib/kernel/hash.c:423-429 | removes the element from the set |
| `HashTable.Hash.Insert` | src/lib/kernel/hash.c:94-110 | set insertion that leaves a tying element in place and returns it; with memory the load stays below four per bucket |
| `HashTable.Hash.Replace` | src/lib/kernel/hash.c:112-127 | set insertion that takes the place of a tying element and returns it |
| `HashTable.Hash.Delete` | src/lib/kernel/hash.c:137-154 | set deletion of the tying element, returned |
| `HashTable.Hash.NewBucketCnt` | src/lib/kernel/hash.c:360-372 | the power of two, at least four, that leaves about two elements per bucket |
| `HashTable.Hash.Rehash` | src/lib/kernel/hash.c:347-413 | keeps the set with or without memory, and with memory leaves fewer than four elements per bucket |
| `HashTable.Hash.MoveBucket` | src/lib/kernel/hash.c:396-411 | moves every element of one bucket to its new bucket |
| `Palloc.InitPool` | src/threads/palloc.c:151-170 | a pool's bitmap fits in the pages in front of the pool and takes as few as hold it; the pool ends where it should; there is none if and only if the bitmap does not fit |
| `Palloc.Init` | src/threads/palloc.c:43-62 | the two pools and their bitmaps are four disjoint regions that fill memory from 1 MB on; the user pool gets half of it, but no more than the limit |
| `Palloc.GroupsAreSeparate` | src/threads/palloc.c:64-101 | live groups are disjoint, avoid both bitmaps and lie in one pool |
| `Palloc.AllocateConsistent` | src/threads/palloc.c:64-101 | handing out the first fit keeps marked bits and live groups in exact agreement |
| `Palloc.ReleaseConsistent` | src/threads/palloc.c:116-142 | taking a group back keeps the agreement |
| `Palloc.PageAllocator.constructor` | src/threads/palloc.c:45-62 | no group is live at first |
| `Palloc.PageAllocator.GetMultiple` | src/threads/palloc.c:64-101 | the least index with enough free pages of the chosen pool, None only if there is none or no page is asked for |
| `Palloc.PageAllocator.FreeMultiple` | src/threads/palloc.c:116-142 | the group is gone and no other, in whichever pool it came from |
| `Malloc.BlockRoundTrip` | src/threads/malloc.c:266-294 | block_to_arena and the index undo arena_to_block |
| `Malloc.AddressRoundTrip` | src/threads/malloc.c:266-294 | arena_to_block undoes block_to_arena on every block address |
| `Malloc.NewArena` | src/threads/malloc.c:122-146 | a new arena puts each of its blocks on the free list once |
| `Malloc.PopBlock` | src/threads/malloc.c:148-153 | taking the front block keeps free_cnt equal to the arena's blocks on the list |
| `Malloc.PushBlock` | src/threads/malloc.c:233-240 | so does putting a live block back |
| `Malloc.AllFree` | src/threads/malloc.c:242-243 | free_cnt reaches the block count if and only if no block of the arena is live |
| `Malloc.DropArena` | src/threads/malloc.c:243-254 | giving an unused arena back keeps the invariant |
| `Malloc.BigArena` | src/threads/malloc.c:106-120 | a big block comes with its own page group and all the room behind the header |
| `Malloc.DropBig` | src/threads/malloc.c:257-262 | and goes with it |
| `Malloc.BlocksSeparate` | src/threads/malloc.c:266-294 | any two blocks are disjoint over their whole usable size |
| `Malloc.BigPagesRight` | src/threads/malloc.c:108-111 | the rounded page count is enough if and only if the request is at most 2^32 - 12 |
| `Malloc.BigPagesWrapped` | src/threads/malloc.c:108-111 | the largest request is given a single page |
| `Malloc.LinksHarmless` | src/threads/malloc.c:144-150 | linking and unlinking writes the link fields of free blocks only: no byte of a live block changes |
| `Malloc.HeaderHarmless` | src/threads/malloc.c:136-151 | writing an arena header changes no byte of a live block |
| `Malloc.PagesHarmless` | src/threads/malloc.c:127-146 | writing inside a page group that holds no live block changes no byte of one |
| `Malloc.WordReads` | src/threads/malloc.c:50-55 | the four bytes of a stored word read back as the word |
| `Malloc.PushedFront` | src/lib/kernel/list.c:207-213 | pushing a block to the front of a free list leaves links in memory that spell out the longer list, forward and backward |
| `Malloc.PushedBack` | src/lib/kernel/list.c:215-221 | the same at the back |
| `Malloc.TakenOut` | src/lib/kernel/list.c:248-255 | removing element k leaves links that spell out the list without it |
| `Malloc.OthersSame` | src/threads/malloc.c:144-150 | links written for one free list leave every header and the links of all other lists as they are |
| `Malloc.HeaderWritten` | src/threads/malloc.c:136-151 | a header written leaves every other header and all links as they are |
| `Malloc.DroppedImage` | src/threads/malloc.c:243-262 | filling the pages of an arena that is given back leaves the headers and links of the rest |
| `Malloc.OwnersHarmless` | src/threads/malloc.c:50-61 | whatever the owners of live blocks write into them, the headers and links in memory still describe the heap |
| `Malloc.FreedSmall` | src/threads/malloc.c:222-256 | freeing a small block, with the poison fill, the links and the count it writes, keeps every other block's size and bytes; the arena goes back if and only if this was its last block |
| `Malloc.FreedBig` | src/threads/malloc.c:257-262 | freeing a big block keeps every other block's size and bytes |
| `Malloc.CopyInto` | src/threads/malloc.c:205-210 | copying into a new block leaves all others alone |
| `Malloc.MovedBlock` | src/threads/malloc.c:194-214 | malloc, memcpy and free in a row keep the common prefix and every other block |
| `Malloc.Heap.constructor` | src/threads/malloc.c:68-85 | nothing is live at first |
| `Malloc.Heap.FindDesc` | src/threads/malloc.c:100-105 | the smallest size class that fits |
| `Malloc.Heap.Malloc` | src/threads/malloc.c:87-154 | keeps the invariant, the headers and links in memory, and every byte of every live block; a returned block is new, disjoint from all live ones and large enough if and only if the size does not wrap; null, with nothing written, exactly for size zero or when neither a free block nor pages are there |
| `Malloc.Heap.MallocBig` | src/threads/malloc.c:106-120 | the page-multiple branch, with the header it writes |
| `Malloc.Heap.AddArena` | src/threads/malloc.c:122-146 | a new arena with its header, all its blocks linked in memory, and no byte written outside its page |
| `Malloc.Heap.LinkBlocks` | src/threads/malloc.c:141-145 | the loop puts every block on the free list in order, leaves links in memory that spell the list out, and writes inside the arena only |
| `Malloc.Heap.TakeBlock` | src/threads/malloc.c:148-153 | the front block is unlinked and becomes live; no byte of a live block changes |
| `Malloc.Heap.MallocSmall` | src/threads/malloc.c:122-154 | the size-class branch |
| `Malloc.Heap.UnlinkArena` | src/threads/malloc.c:247-251 | the loop takes exactly the arena's blocks off the free list, leaves links that spell out the rest, and writes link fields of free blocks only |
| `Malloc.Heap.ReleaseArena` | src/threads/malloc.c:243-254 | unlinks every block of the arena and frees its page; no byte of a live block changes |
| `Malloc.Heap.FreeSmall` | src/threads/malloc.c:222-256 | the size-class branch of free |
| `Malloc.Heap.FreeBig` | src/threads/malloc.c:257-262 | the page-multiple branch of free |
| `Malloc.Heap.Free` | src/threads/malloc.c:216-264 | the block is gone, the headers and links in memory describe the heap without it, every other block keeps size and bytes, the arena is returned exactly with its last block; null does nothing |
| `Malloc.Heap.Realloc` | src/threads/malloc.c:188-214 | size zero frees; failure leaves the old block; a null block is malloc; a moved block keeps the common prefix and no other block changes |
| `Mlfqs.PriorityOf` | src/threads/thread.c:592-601 | the priority is clamped to the legal range |
| `Mlfqs.PriorityAntitone` | src/threads/thread.c:592-601 | more CPU use or niceness never raises the priority |
| `Mlfqs.PriorityExact` | src/threads/thread.c:592-601 | the priority is 63 less a quarter of recent_cpu, rounded, less twice the nice value, kept within the legal range |
| `Mlfqs.LoadExact` | src/threads/thread.c:604-613 | load_avg becomes (59 load_avg + ready) / 60, less than 2/F below the exact value |
| `Mlfqs.CoeffExact` | src/threads/thread.c:621-622 | the coefficient is less than 1/F below 2 load_avg / (2 load_avg + 1) |
| `Mlfqs.RecentExact` | src/threads/thread.c:621-631 | recent_cpu becomes coefficient times recent_cpu plus nice, within 1/F and recent_cpu/F of the exact value |
| `Mlfqs.LoadBound` | src/threads/thread.c:604-613 | load_avg stays between 0 and n in fixed point |
| `Mlfqs.CoeffBound` | src/threads/thread.c:621-622 | the decay coefficient is at most 2n/(2n+1) |
| `Mlfqs.RecentBound` | src/threads/thread.c:621-629 | the one-second update brings recent_cpu back into its band |
| `Mlfqs.NoOverflow` | src/threads/fixed.h:5-30 | up to 272 ready threads no 32-bit intermediate of the one-second update, priorities included, overflows |
| `Mlfqs.NoOverflowTick` | src/threads/thread.c:217-222 | nor any of a tick or a priority computation |
| `Mlfqs.OverflowBeyond` | src/threads/fixed.h:5-30 | the bound itself: 272 is the last count for which the band of recent_cpu fits 32 bits |
| `Scheduler.EnqueueKeeps` | src/threads/thread.c:363-387 | unblocking keeps the ready list sorted and complete |
| `Scheduler.ScheduleKeeps` | src/threads/thread.c:824-832 | the thread dispatched has maximal priority, and exactly it runs |
| `Scheduler.WakeLoopKeeps` | src/devices/timer.c:183-207 | the wake-up loop moves exactly the sleepers that are due to the ready list |
| `Scheduler.WakeKeeps` | src/devices/timer.c:178-207 | each interrupt wakes exactly the sleepers whose tick has come, and next_wakeup_tick is again the head's tick or INT64_MAX |
| `Scheduler.SwitchKeeps` | src/threads/thread.c:887-901 | a step that gives up the processor keeps the invariant and dispatches a maximal thread |
| `Scheduler.SwitchMeaning` | src/threads/thread.c:824-901 | after a step that gives up the processor: the thread that ran is left as its call says, a thread of maximal priority is dispatched and runs, no other thread changes, and who is ready and who asleep follows from that |
| `Scheduler.SleepMeaning` | src/threads/thread.c:249-268 | the running thread, and only it, joins the sleep queue, blocked and with the tick asked for, and next_wakeup_tick is no later |
| `Scheduler.SleeperStays` | src/devices/timer.c:183-207 | a step takes a sleeper out of the queue if and only if it is a timer interrupt at or after its tick, and then the sleeper is ready |
| `Scheduler.SleepsUntilDue` | src/devices/timer.c:96-106 | over every run a thread that sleeps stays in the queue up to the first interrupt that counts its tick or a later one, and that interrupt makes it ready |
| `Scheduler.UnblockMeaning` | src/threads/thread.c:363-387 | the thread is ready and nothing else changes |
| `Scheduler.SecondUpdateKeeps` | src/threads/thread.c:604-651 | the one-second recomputation re-establishes the sorted ready list |
| `Scheduler.SecondMeaning` | src/threads/thread.c:603-651 | the load average, every recent_cpu and every priority but idle's are recomputed by the formulas, the ready list is a permutation, nothing else changes |
| `Scheduler.InterruptKeeps` | src/devices/timer.c:178-223 | a timer interrupt keeps the invariant |
| `Scheduler.TimerMeaning` | src/devices/timer.c:178-223 | thread by thread: the tick is charged to the running thread, exactly the sleepers that are due become ready, every fourth tick the running thread's priority is recomputed and every hundredth the load average, every recent_cpu and every priority |
| `Scheduler.SetNiceKeeps` | src/threads/thread.c:510-521 | thread_set_nice keeps the invariant |
| `Scheduler.ChangeNiceMeaning` | src/threads/thread.c:510-521 | the running thread has the new nice value and the priority it asks for; no other thread changes |
| `Scheduler.CreateKeeps` | src/threads/thread.c:734-803 | thread_create keeps the invariant |
| `Scheduler.CreateMeaning` | src/threads/thread.c:293-337 | the child is ready with its parent's nice value and recent_cpu and the priority they ask for; no other thread changes |
| `Scheduler.BootKeeps` | src/threads/thread.c:148-187 | the state thread_start leaves, idle at the lowest priority, satisfies the invariant and the accounting bounds |
| `Scheduler.StepKeeps` | src/threads/thread.c:217-235 | every step keeps the invariant |
| `Scheduler.StepExists` | src/threads/thread.c:824-832 | every enabled step can be taken: there is always a thread to run |
| `Scheduler.RunKeeps` | src/threads/thread.c:363-461 | in every reachable state the ready list is sorted and holds exactly the non-idle ready threads, and the sleep queue is sorted with next_wakeup_tick at its head |
| `Scheduler.StepBounds` | src/threads/thread.c:764-784 | the accounting bounds hold after every step, for inheriting children too |
| `Scheduler.RunBounds` | src/threads/thread.c:604-631 | over every run with at most n ready threads at updates, load_avg and all recent_cpu stay in their bands |
| `Scheduler.StepNoOverflow` | src/threads/fixed.h:5-30 | within the bands no 32-bit intermediate of any step overflows |
| `Scheduler.RunNoOverflow` | src/threads/fixed.h:5-30 | over every run with at most 272 ready threads at updates, no 32-bit intermediate of a tick, an update or a priority computation overflows |
| `Scheduler.StepOrder` | src/threads/thread.c:363-461 | no step but the one-second recomputation lets a later thread of the ready list overtake |
| `Scheduler.StepJoins` | src/threads/thread.c:363-461 | a thread that joins the ready list stands behind every ready thread of its priority or above, unless that is dispatched at once |
| `Scheduler.StepJoinsBoth` | src/devices/timer.c:183-207 | of two sleepers woken together the one ahead in the sleep queue stands ahead, if its priority is no lower |
| `Scheduler.StaysAhead` | src/threads/thread.c:363-461 | a thread stays ahead until it is dispatched |
| `Scheduler.AheadServedFirst` | src/threads/thread.c:363-461 | between two recomputations a thread is not dispatched before one that is ahead of it |
| `Scheduler.FirstComeFirstServed` | src/threads/thread.c:363-461 | between two recomputations a thread is not dispatched before one of at least its priority that was enqueued, or queued to sleep, ahead of it |
| `SchedulerImpl.Kernel.ThreadUnblock` | src/threads/thread.c:363-387 | a blocked thread is placed behind all ready threads of its priority or above and ahead of the rest; the ready list stays sorted and complete |
| `SchedulerImpl.ListInsertOrdered` | src/lib/kernel/list.c:446-459 | the search loop computes ordered insertion |
| `SchedulerImpl.Kernel.SwitchThreads` | src/threads/thread.c:887-901 | called with nobody running, dispatches a thread of maximal priority, the idle thread if and only if none is ready, and re-establishes the invariant of the ready list |
| `SchedulerImpl.Kernel.ThreadYield` | src/threads/thread.c:443-461 | takes a Yield step: the caller is left ready, a thread of maximal priority, the caller included, is dispatched, and no other thread changes |
| `SchedulerImpl.Kernel.ThreadBlock` | src/threads/thread.c:339-353 | takes a Block step: the caller is left blocked, a ready thread of maximal priority is dispatched, and no other thread changes |
| `SchedulerImpl.Kernel.ThreadSleep` | src/threads/thread.c:249-268 | takes a Sleep step: unless it is idle, the caller is in the sleep queue, blocked, with the tick asked for, and next_wakeup_tick is no later |
| `SchedulerImpl.Kernel.ThreadExit` | src/threads/thread.c:422-441 | takes an Exit step: the caller is gone, a ready thread of maximal priority is dispatched, and no other thread changes |
| `SchedulerImpl.Kernel.ThreadCreate` | src/threads/thread.c:293-337 | takes a CreateThread step: the child is ready with inherited accounts and the priority they ask for |
| `SchedulerImpl.Kernel.ThreadSetNice` | src/threads/thread.c:510-521 | takes a ChangeNice step and then yields if and only if outranked; when it returns no ready thread has a higher priority than the running one |
| `SchedulerImpl.Kernel.TryThreadYield` | src/threads/thread.c:547-560 | yields if and only if a ready thread has a higher priority; afterwards none has |
| `SchedulerImpl.Kernel.UpdatePriorityMlfqs` | src/threads/thread.c:576-588 | the running thread has the priority its accounts ask for, no other thread changes, and the invariant is kept |
| `SchedulerImpl.Kernel.ThreadMlfqsTick` | src/threads/thread.c:217-235 | charges exactly the running thread one tick, unless it is idle, and keeps the invariant |
| `SchedulerImpl.Kernel.WakeSleepers` | src/devices/timer.c:183-207 | the wake-up loop computes Wake |
| `SchedulerImpl.Kernel.AgeThreads` | src/threads/thread.c:624-644 | the loops over all_list age every thread but idle, once each |
| `SchedulerImpl.Kernel.UpdateLoad` | src/threads/thread.c:604-622 | the new load average, from the ready threads and the running one unless it is idle, and the decay coefficient |
| `SchedulerImpl.Kernel.OneSecondUpdate` | src/threads/thread.c:603-651 | computes SecondUpdate |
| `SchedulerImpl.Kernel.TimerInterrupt` | src/devices/timer.c:178-223 | takes a TimerTick step |
| `Synch.StepKeeps` | src/threads/synch.c:170-245 | every atomic step keeps value equal to initial plus ups minus downs and loses no wake-up |
| `Synch.AttemptMeaning` | src/threads/synch.c:170-186 | a round of sema_down takes one from a positive value and lets the thread pass, or queues it by its priority; nothing else happens to it or to the others |
| `Synch.MembershipStep` | src/threads/synch.c:170-245 | a thread is inside sema_down after a step if and only if it was, or has just called it, and the step does not let it pass |
| `Synch.UpWakesHighest` | src/threads/synch.c:218-245 | an up wakes exactly one waiter, of maximal current priority |
| `Synch.NoLostWakeup` | src/threads/synch.c:170-245 | with a waiter and a positive value, some woken thread can complete its down |
| `Synch.RunKeeps` | src/threads/synch.c:170-245 | the invariant holds under every interleaving |
| `Synch.WaitsUntilServed` | src/threads/synch.c:170-245 | under every interleaving a thread is queued or on its way back to the test from its call of sema_down until the step that lets it pass |
| `Synch.InsideMeansWaiting` | src/threads/synch.c:170-245 | and a thread that is queued or on its way back has called sema_down and not passed since |
| `Synch.LockStepKeeps` | src/threads/synch.c:316-376 | every lock step keeps the lock invariant |
| `Synch.LockStepMeaning` | src/threads/synch.c:316-376 | who is between down and up, and whom the holder field names, after each step |
| `Synch.LockFreed` | src/threads/synch.c:316-376 | the semaphore is positive if and only if nobody is inside, and a release makes it so |
| `Synch.OnlyOne` | src/threads/synch.c:316-376 | a thread between its down and its up is alone there |
| `Synch.LockRunKeeps` | src/threads/synch.c:316-376 | under every interleaving at most one thread is inside and a non-null holder is that thread |
| `Synch.Semaphore.constructor` | src/threads/synch.c:154-161 | starts with the given value and nobody waiting |
| `Synch.Semaphore.DownOnce` | src/threads/synch.c:170-186 | one round of the sema_down loop: with a positive value it is decremented and nobody queues; with zero the thread joins the waiters, behind those of its priority or above |
| `Synch.Semaphore.TryDownNow` | src/threads/synch.c:193-212 | decrements exactly when the value is positive; the waiters stay as they are |
| `Synch.Semaphore.UpNow` | src/threads/synch.c:218-245 | unblocks one waiter of maximal current priority, if there is one, which leaves the queue and nobody else does, and increments |
| `Donation.ChainExists` | src/threads/synch.c:89-113 | from every lock there is a chain of lower-priority holders that ends or meets itself |
| `Donation.ChainUnique` | src/threads/synch.c:89-113 | and only one |
| `Donation.LockTable.DonatePriority` | src/threads/synch.c:75-113 | raises exactly the first 20 holders of the chain to the donor's priority and records what the donor waits for; ends on cycles too |
| `Donation.DonationCloses` | src/threads/synch.c:75-113 | no priority drops; no thread is left waiting for a lower-priority holder if and only if the chain has at most 20 holders |
| `Donation.DonationLeast` | src/threads/synch.c:75-113 | nothing but the waiting edge and priorities changes, and no closed graph with these edges and no lower priorities gives any thread less than donation does |
| `Donation.DonationFallsShort` | src/threads/synch.c:89-113 | a convoy of 21 holders leaves the last of them below the thread that waits for it |
| `Arithmetic.Divl` | src/lib/arithmetic.c:25-37 | a quotient that fits 32 bits; the precondition is that the instruction does not trap |
| `Arithmetic.Nlz` | src/lib/arithmetic.c:41-73 | shifting by the result sets the top bit and loses nothing |
| `Arithmetic.NlzUnique` | src/lib/arithmetic.c:41-73 | which determines the result |
| `Arithmetic.NarrowBranch` | src/lib/arithmetic.c:80-112 | two-digit long division is exact and its second divide cannot trap |
| `Arithmetic.ShiftedDivisor` | src/lib/arithmetic.c:113-120 | the shifted divisor keeps the top 32 significant bits |
| `Arithmetic.ShortDivisor` | src/lib/arithmetic.c:80-126 | a divisor short by g overestimates the quotient by one at most |
| `Arithmetic.Shortfall` | src/lib/arithmetic.c:80-126 | the inequality that makes the truncated divisor short by little enough |
| `Arithmetic.WideQuotient` | src/lib/arithmetic.c:113-126 | the estimate is the true quotient or one more, and the test tells which |
| `Arithmetic.DivideNarrow` | src/lib/arithmetic.c:80-112 | floor division for divisors below 2^32 |
| `Arithmetic.DivideWide` | src/lib/arithmetic.c:113-126 | floor division for wider divisors |
| `Arithmetic.Udiv64` | src/lib/arithmetic.c:75-127 | floor division for every 64-bit dividend and nonzero divisor; no divide traps |
| `Arithmetic.Umod64` | src/lib/arithmetic.c:129-135 | the low 32 bits of the remainder |
| `Arithmetic.Umod64Exact` | src/lib/arithmetic.c:129-135 | exact for every dividend if and only if the divisor is at most 2^32 |
| `Arithmetic.Sdiv64` | src/lib/arithmetic.c:137-146 | truncation toward zero if and only if not INT64_MIN by -1, which wraps |
| `Arithmetic.Smod64` | src/lib/arithmetic.c:148-154 | the remainder of truncated division, as 32 bits |
| `Heapsort.DoSwap` | src/lib/stdlib.c:66-79 | exchanges two elements |
| `Heapsort.LargestAt` | src/lib/stdlib.c:103-112 | the largest of an element and its children |
| `Heapsort.FloatDown` | src/lib/stdlib.c:96-123 | one round moves the only possible violation down to a child |
| `Heapsort.Heapify` | src/lib/stdlib.c:81-123 | restores the heap on a suffix whose subheaps are valid, moving nothing outside it |
| `Heapsort.RootIsMax` | src/lib/stdlib.c:131-152 | every element of a heap is at most its root |
| `Heapsort.TakeMax` | src/lib/stdlib.c:145-151 | moving the root behind the heap extends the sorted part |
| `Heapsort.Sort` | src/lib/stdlib.c:125-152 | a nondecreasing permutation, for every total preorder and length |
| `Stdio.DigitsFit` | src/lib/stdio.c:501-513 | a 64-bit value's digits and separators fit the 64-byte buffer |
| `Stdio.BasesLegible` | src/lib/stdio.c:138-140 | in the bases of %d, %o and %x the digits can be told from each other, from sign, separator and prefix |
| `Stdio.DigitsSpell` | src/lib/stdio.c:501-513 | the digits, least significant first, spell the value |
| `Stdio.GroupsMarked` | src/lib/stdio.c:501-509 | separators stand after every full group of digits counted from the least significant, and nowhere else |
| `Stdio.Accumulate` | src/lib/stdio.c:501-513 | the digit loop leaves the digits, least significant first |
| `Stdio.PadDigits` | src/lib/stdio.c:515-524 | zeros for the precision and the # flag, within the buffer |
| `Stdio.OutputDup` | src/lib/stdio.c:549-555 | the character, cnt times |
| `Stdio.FormatInteger` | src/lib/stdio.c:462-547 | prints sign, prefix, padding and digits as the flags, width and precision ask |
| `Stdio.ReadBack` | src/lib/stdio.c:462-547 | whatever flags, width and precision are given, the digits of the text spell the value in its base, and there is a minus sign if and only if a negative number is converted as signed |
| `Stdio.Layout` | src/lib/stdio.c:475-547 | sign, prefix, at least as many digits as the precision asks for, and padding to the width in front, behind or as zeros before the digits, as the flags say; with both flags it is put in twice |
| `Stdio.OctalRendered` | src/lib/stdio.c:462-547 | %0No prints a number below 8^N as exactly its N octal digits |
| `Stdio.Snprintf` | src/lib/stdio.c:19-52 | the buffer receives the text cut to its size, null-terminated, and nothing outside changes |
| `Ustar.StripIdempotent` | src/lib/ustar.c:56-73 | stripping twice is stripping once |
| `Ustar.StripMeaning` | src/lib/ustar.c:56-73 | what is dropped is made of "/", "./" and "../" only, what is left begins with none of them, and that is the result, or "." if it is empty or ".." |
| `Ustar.StripKeeps` | src/lib/ustar.c:56-73 | a name without such a prefix is kept as it is |
| `Ustar.StripPrefixes` | src/lib/ustar.c:65-73 | the pointer loop drops a prefix made of "/", "./" and "../" only, and all of it; the result is the rest, or "." if that is empty or ".." |
| `Ustar.Strip` | src/lib/ustar.c:56-73 | the result is not empty, not "..", and starts with none of "/", "./", "../"; what it is, `Ustar.StripMeaning` says |
| `Ustar.CalculateChksum` | src/lib/ustar.c:35-54 | the loop computes the sum with the checksum field as spaces |
| `Ustar.SumIgnoresField` | src/lib/ustar.c:46-51 | the checksum does not depend on its own field |
| `Ustar.SumChange` | src/lib/ustar.c:44-52 | any other byte counts in full |
| `Ustar.ParseOctalField` | src/lib/ustar.c:120-162 | the loop computes ParseOctal, with its overflow test |
| `Ustar.ParseOctalMeaning` | src/lib/ustar.c:120-162 | a field is accepted if and only if it is octal digits, below 2^32, ended by a space or null, and the result is what the digits spell |
| `Ustar.OctalRoundTrip` | src/lib/ustar.c:120-162 | parsing a printed octal field gives back every number below 2^32 that fits the field |
| `Ustar.ComposedFields` | src/lib/ustar.c:99-115 | each field of a composed header reads back, and the checksum field holds the header's own checksum |
| `Ustar.OwnerFields` | src/lib/ustar.c:99-113 | mode 0644 or 0755, owner and group 0 by the name root, and the fixed modification time |
| `Ustar.MakeHeader` | src/lib/ustar.c:75-118 | fills the buffer field by field with the composed header; fails exactly on long names and then leaves the buffer alone |
| `Ustar.ParseHeader` | src/lib/ustar.c:175-227 | the chain of tests computes Parse |
| `Ustar.ParseMeaning` | src/lib/ustar.c:175-227 | end of archive if and only if all bytes are zero; each error if and only if its test is the first to fail; otherwise type, stripped name and size of the header |
| `Ustar.IsAllZeros` | src/lib/ustar.c:164-173 | whether every byte is zero |
| `Ustar.RoundTrip` | src/lib/ustar.c:75-227 | composing fails if and only if the stripped name is longer than 99; otherwise parsing returns the stripped name, the type, and the size (0 for a directory) if and only if the size is not negative |
| `Ustar.CorruptionDetected` | src/lib/ustar.c:199-210 | a composed header with any one byte changed outside the checksum field is rejected |

## Left out

- Malloc.Heap.Realloc: moving a block requires that the new size plus the arena header does not wrap, because beyond that malloc returns a block smaller than asked for (`Malloc.BigPagesRight`) and the copy runs past it.
- FileSys.CreateKeeps: sizes above 2^31 - 512 are not covered, because rounding them up to sectors overflows off_t.
- FileSys.CreateSucceedsWhen: the same bound on sizes.
- FileSys.RunSyncs: only for runs in which memory does not run out; without a bounce buffer the last part of the map is not written, and the kernel does not retry.
- FileSysImpl.FileSystem.FilesysCreate: opening and closing the root directory around the call is represented by whether it succeeds; the pair restores the list of open inodes (`FileSys.OpenThenClose`).
- FileSysImpl.FileSystem.FilesysOpen: the same.
- FileSysImpl.FileSystem.FilesysRemove: the same.
- FileSysImpl.FileSystem.FileWrite: runs do not deny writes; `Inode.WriteAt` has the test of the count.
- FileSysImpl.FileSystem.DoFormat: allocations succeed; a failing one panics.
- FileSysImpl.FileSystem.MapByteAt: the storage is read bit by bit, not by reinterpreting words.
- Inode.ReadAt: negative offsets are not covered; the source computes on them with mixed signedness.
- Inode.WriteAt: negative offsets are not covered, for the same reason.
- KernelList.List.Splice: moves a range within one list, which is how list_sort uses it; list_splice also works between two lists.
- Bitmaps.Bitmap.constructor: the storage is given; bitmap_create returns null when malloc does.
- HashTable.Hash.constructor: the buckets are allocated; hash_init returns false when malloc fails.
- Palloc.PageAllocator.GetMultiple: which pages are handed out, not the zero fill of PAL_ZERO or the panic of PAL_ASSERT.
- Palloc.PageAllocator.FreeMultiple: which pages are free, not the 0xcc fill; `Malloc` models that fill for the pages it frees.
- Donation.LockTable.DonatePriority: the donor list and the early return for thread_mlfqs are not modelled; donor lists are ordered through a different list element than the one they are linked by, so no property of them is stated.
- Stdio.Snprintf: the text is given; format strings are not parsed and only integer conversions are modelled.
- Scheduler.FirstComeFirstServed: until the next one-second recomputation, which may reorder by new priorities.
- Address-space teardown, munmap and freeing of swap slots at exit. What a process sees of a memory-mapped page while others write the file is not stated; its write-back is (`Paging.EvictWritesBack`).
- Stack set-up in process.c, which has the effect of adding a zero page and loading it.
- Page-fault decoding, pagedir bit layout and TLB handling: the page directory is a map with accessed and dirty bits.
- list_unique, min and max, reverse: easy members beside the ones modelled.
- hash_clear, hash_destroy, hash_apply and iterators.
- bitmap_count and bitmap_dump.
- The malloc descriptors lie outside the modelled memory: the links inside blocks that point to the ends of a list are modelled, the words in the descriptor that point back are not.
- calloc's overflow test, and the locks around each malloc descriptor.
- Condition variables, remove_priority and update_priority.
- thread_set_sleeping, statistics getters that scale by 100, and FP_ROUND.
- do_swap byte by byte: elements are values.
- Processes, system calls, devices, interrupts, boot code, and host tools.
