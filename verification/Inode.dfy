/** Sector-chunked file I/O (src/filesys/inode.c) over a block device.

    A file's data is one contiguous extent of 512-byte sectors.  The reads and writes
    below go sector by sector, through a bounce buffer for partial sectors; the
    specification is the flat array of all bytes of the device. */
module Inode {
  import opened Common

  const SECTOR := 512

  type Sector = s: seq<Byte> | |s| == SECTOR witness seq(SECTOR, _ => 0)

  function Zeros(): Sector { seq(SECTOR, _ => 0) }

  function Sectors(size: nat): nat {
    (size + SECTOR - 1) / SECTOR
  }

  /** Byte k of the device. */
  function ByteAt(disk: seq<Sector>, k: nat): Byte
    requires k < SECTOR * |disk|
  {
    disk[k / SECTOR][k % SECTOR]
  }

  /** The device as one array of bytes. */
  function Flat(disk: seq<Sector>): (f: seq<Byte>)
    ensures |f| == SECTOR * |disk|
  {
    seq(SECTOR * |disk|, k requires 0 <= k < SECTOR * |disk| => ByteAt(disk, k))
  }

  /** The device with the bytes b at position `at`. */
  function Overwrite(disk: seq<Sector>, at: nat, b: seq<Byte>): (r: seq<Sector>)
    requires at + |b| <= SECTOR * |disk|
    ensures |r| == |disk|
  {
    seq(|disk|, k requires 0 <= k < |disk| => OverwriteSector(disk, at, b, k))
  }

  function OverwriteSector(disk: seq<Sector>, at: nat, b: seq<Byte>, k: nat): Sector
    requires at + |b| <= SECTOR * |disk| && k < |disk|
  {
    seq(SECTOR, j requires 0 <= j < SECTOR =>
      if at <= SECTOR * k + j < at + |b| then b[SECTOR * k + j - at] else disk[k][j])
  }

  lemma OverwriteFlat(disk: seq<Sector>, at: nat, b: seq<Byte>)
    requires at + |b| <= SECTOR * |disk|
    ensures Flat(Overwrite(disk, at, b)) == Patch(Flat(disk), at, b)
  {
    var disk' := Overwrite(disk, at, b);
    var f, g := Flat(disk'), Patch(Flat(disk), at, b);
    forall k: nat | k < SECTOR * |disk| ensures f[k] == g[k] {
      assert f[k] == ByteAt(disk', k) == OverwriteSector(disk, at, b, k / SECTOR)[k % SECTOR];
    }
  }

  lemma FlatInjective(disk: seq<Sector>, disk': seq<Sector>)
    requires |disk| == |disk'| && Flat(disk) == Flat(disk')
    ensures disk == disk'
  {
    forall k: nat | k < |disk| ensures disk[k] == disk'[k] {
      forall j: nat | j < SECTOR ensures disk[k][j] == disk'[k][j] {
        ChunkByte(disk, k, j);
        ChunkByte(disk', k, j);
        assert Flat(disk)[SECTOR * k + j] == Flat(disk')[SECTOR * k + j];
      }
    }
  }

  /** struct inode_disk: where a file's data is. */
  datatype Header = Header(start: nat, length: nat)

  predicate Fits(h: Header, device: nat) {
    h.start + Sectors(h.length) <= device
  }

  /** The bytes of the file. */
  function Contents(disk: seq<Sector>, h: Header): (c: seq<Byte>)
    requires Fits(h, |disk|)
    ensures |c| == h.length
  {
    Flat(disk)[SECTOR * h.start..SECTOR * h.start + h.length]
  }

  /** What a transfer of size bytes at offset leaves after clipping at end of file. */
  function Clipped(length: nat, size: int, offset: nat): nat {
    if size <= 0 || offset >= length then 0 else Min(size, length - offset)
  }

  /** Without memory for a bounce buffer only the leading whole sectors move. */
  function Moved(length: nat, size: int, offset: nat, memory: bool): (n: nat)
    ensures n <= Clipped(length, size, offset)
  {
    var c := Clipped(length, size, offset);
    if memory then c else if offset % SECTOR == 0 then c / SECTOR * SECTOR else 0
  }

  /** byte_to_sector. */
  function ByteToSector(h: Header, pos: nat): nat
    requires pos < h.length
  {
    h.start + pos / SECTOR
  }

  /** The size of the next chunk (zero or less: stop). */
  function Chunk(length: nat, size: int, offset: nat): int {
    Min(size, Min(length - offset, SECTOR - offset % SECTOR))
  }

  predicate Whole(size: int, offset: nat) { offset % SECTOR == 0 && size == SECTOR }

  /** One chunk, then the rest. */
  lemma MovedStep(length: nat, size: int, offset: nat, memory: bool)
    requires size > 0
    ensures var c := Chunk(length, size, offset);
            if c <= 0 || (!Whole(c, offset) && !memory) then Moved(length, size, offset, memory) == 0
            else
              && offset + c <= length
              && offset % SECTOR + c <= SECTOR
              && Moved(length, size, offset, memory) == c + Moved(length, size - c, offset + c, memory)
  {
    var c := Chunk(length, size, offset);
    if c > 0 {
      assert Clipped(length, size, offset) == c + Clipped(length, size - c, offset + c);
    }
  }

  /** A chunk lies within one sector of the device. */
  lemma ChunkByte(disk: seq<Sector>, sector: nat, j: nat)
    requires sector < |disk| && j < SECTOR
    ensures SECTOR * sector + j < SECTOR * |disk| && ByteAt(disk, SECTOR * sector + j) == disk[sector][j]
  {
  }

  /** Rewriting part of one sector is rewriting those bytes of the device. */
  lemma ChunkWritten(disk: seq<Sector>, sector: nat, ofs: nat, b: seq<Byte>)
    requires sector < |disk| && ofs + |b| <= SECTOR
    ensures var disk' := disk[sector := Patch(disk[sector], ofs, b)];
            && SECTOR * sector + ofs + |b| <= SECTOR * |disk|
            && Flat(disk') == Patch(Flat(disk), SECTOR * sector + ofs, b)
  {
    var p: Sector := Patch(disk[sector], ofs, b);
    var disk' := disk[sector := p];
    var at := SECTOR * sector + ofs;
    var f, g := Flat(disk'), Patch(Flat(disk), at, b);
    forall k: nat | k < SECTOR * |disk| ensures f[k] == g[k] {
      assert f[k] == ByteAt(disk', k);
      if k / SECTOR == sector {
        assert f[k] == p[k % SECTOR] && k == SECTOR * sector + k % SECTOR;
      }
    }
  }

  /** Writing a then b behind it is writing a + b. */
  lemma PatchAppend(s: seq<Byte>, at: nat, a: seq<Byte>, b: seq<Byte>)
    requires at + |a| + |b| <= |s|
    ensures Patch(Patch(s, at, a), at + |a|, b) == Patch(s, at, a + b)
  {
  }

  lemma PatchNothing(s: seq<Byte>, at: nat)
    requires at <= |s|
    ensures Patch(s, at, []) == s
  {
  }

  /** The block device: block_read and block_write move whole sectors. */
  class Device {
    var sectors: seq<Sector>

    method BlockRead(k: nat) returns (s: Sector)
      requires k < |sectors|
      ensures s == sectors[k]
    {
      s := sectors[k];
    }

    method BlockWrite(k: nat, s: Sector)
      requires k < |sectors|
      modifies this
      ensures sectors == old(sectors)[k := s]
    {
      sectors := sectors[k := s];
    }
  }

  lemma SliceJoin(f: seq<Byte>, lo: nat, m: nat, n: nat)
    requires lo + m + n <= |f|
    ensures f[lo..lo + m] + f[lo + m..lo + m + n] == f[lo..lo + m + n]
  {
  }

  /** A slice of one sector is a slice of the device. */
  lemma ChunkRead(disk: seq<Sector>, sector: nat, ofs: nat, n: nat)
    requires sector < |disk| && ofs + n <= SECTOR
    ensures SECTOR * sector + ofs + n <= SECTOR * |disk|
    ensures disk[sector][ofs..ofs + n] == Flat(disk)[SECTOR * sector + ofs..SECTOR * sector + ofs + n]
  {
    var f, at := Flat(disk), SECTOR * sector + ofs;
    var a, b := f[at..at + n], disk[sector][ofs..ofs + n];
    forall j: nat | j < n ensures a[j] == b[j] {
      ChunkByte(disk, sector, ofs + j);
      assert f[at + j] == ByteAt(disk, at + j);
    }
  }

  /** The sector of a byte, in device coordinates. */
  lemma ByteToSectorIs(h: Header, pos: nat, device: nat)
    requires pos < h.length && Fits(h, device)
    ensures ByteToSector(h, pos) < device
    ensures SECTOR * ByteToSector(h, pos) + pos % SECTOR == SECTOR * h.start + pos
  {
  }

  lemma FitsBytes(h: Header, device: nat)
    requires Fits(h, device)
    ensures SECTOR * h.start + h.length <= SECTOR * device
  {
  }

  /** memcpy into the caller's buffer. */
  method CopyOut(buffer: array<Byte>, at: nat, b: seq<Byte>)
    requires at + |b| <= buffer.Length
    modifies buffer
    ensures buffer[..] == Patch(old(buffer[..]), at, b)
  {
    var i := 0;
    while i < |b|
      invariant 0 <= i <= |b|
      invariant forall k :: 0 <= k < buffer.Length ==>
                  buffer[k] == if at <= k < at + i then b[k - at] else old(buffer[k])
    {
      buffer[at + i] := b[i];
      i := i + 1;
    }
  }

  /** One round of the loop of inode_read_at: a whole sector goes straight into the
      buffer, part of one through the bounce buffer, if there is memory for it. */
  method ReadChunk(dev: Device, sectorIdx: nat, sectorOfs: nat, chunk: nat, buffer: array<Byte>, at: nat, memory: bool)
    returns (done: bool)
    requires sectorIdx < |dev.sectors| && sectorOfs + chunk <= SECTOR && at + chunk <= buffer.Length
    modifies buffer
    ensures done <==> memory || (sectorOfs == 0 && chunk == SECTOR)
    ensures buffer[..] == if done then Patch(old(buffer[..]), at, dev.sectors[sectorIdx][sectorOfs..sectorOfs + chunk])
                          else old(buffer[..])
  {
    hide Patch;
    if sectorOfs == 0 && chunk == SECTOR {
      var s := dev.BlockRead(sectorIdx);
      assert s == s[0..SECTOR];
      CopyOut(buffer, at, s);
    } else {
      if !memory { return false; }
      var bounce := dev.BlockRead(sectorIdx);
      CopyOut(buffer, at, bounce[sectorOfs..sectorOfs + chunk]);
    }
    return true;
  }

  /** One round of the loop of inode_write_at: the rest of a sector that is written in
      part is read first. */
  method WriteChunk(dev: Device, sectorIdx: nat, sectorOfs: nat, data: seq<Byte>, memory: bool) returns (done: bool)
    requires sectorIdx < |dev.sectors| && 0 < |data| && sectorOfs + |data| <= SECTOR
    modifies dev
    ensures done <==> memory || (sectorOfs == 0 && |data| == SECTOR)
    ensures var was := old(dev.sectors);
            dev.sectors == if done then was[sectorIdx := Patch(was[sectorIdx], sectorOfs, data)] else was
  {
    hide Patch;
    if sectorOfs == 0 && |data| == SECTOR {
      PatchWhole(dev.sectors[sectorIdx], data);
      dev.BlockWrite(sectorIdx, data);
    } else {
      if !memory { return false; }
      var bounce;
      if sectorOfs > 0 || |data| < SECTOR - sectorOfs {
        bounce := dev.BlockRead(sectorIdx);
      } else {
        bounce := Zeros();
      }
      bounce := Patch(bounce, sectorOfs, data);
      dev.BlockWrite(sectorIdx, bounce);
    }
    return true;
  }

  /** inode_read_at: fills the buffer with exactly the bytes of the file from offset
      on, as many as remain before end of file. */
  method ReadAt(dev: Device, h: Header, buffer: array<Byte>, size: int, offset: nat, memory: bool) returns (n: nat)
    requires Fits(h, |dev.sectors|) && size <= buffer.Length
    modifies buffer
    ensures n == Moved(h.length, size, offset, memory) <= buffer.Length
    ensures n > 0 ==> offset + n <= h.length && buffer[..n] == Contents(dev.sectors, h)[offset..offset + n]
    ensures buffer[n..] == old(buffer[..])[n..]
  {
    hide Flat;
    hide Patch;
    hide Moved;
    hide Sectors;
    hide Chunk;
    hide ByteToSector;
    hide Got;
    n := 0;
    var left, pos := size, offset;
    ghost var before := buffer[..];
    GotNothing(dev.sectors, h, offset, before);
    while left > 0
      invariant 0 <= n <= buffer.Length && pos == offset + n && left == size - n
      invariant n > 0 ==> pos <= h.length
      invariant Got(dev.sectors, h, offset, before, n, buffer[..])
      invariant Moved(h.length, size, offset, memory) == n + Moved(h.length, left, pos, memory)
      decreases left
    {
      MovedStep(h.length, left, pos, memory);
      ChunkFits(h.length, left, pos);
      var chunk := Chunk(h.length, left, pos);
      if chunk <= 0 { break; }
      GotMore(dev.sectors, h, offset, before, n, chunk, buffer[..]);
      var done := ReadChunk(dev, ByteToSector(h, pos), pos % SECTOR, chunk, buffer, n, memory);
      if !done { break; }
      n, pos, left := n + chunk, pos + chunk, left - chunk;
    }
    MovedNone(h.length, left, pos, memory);
    GotAll(dev.sectors, h, offset, before, n, buffer[..]);
    BufferSlices(buffer, n);
  }

  /** The buffer after the first n bytes have arrived. */
  ghost predicate Got(disk: seq<Sector>, h: Header, offset: nat, before: seq<Byte>, n: nat, now: seq<Byte>) {
    && Fits(h, |disk|) && n <= |before| && (n > 0 ==> offset + n <= h.length)
    && (n == 0 ==> now == before)
    && (n > 0 ==> now == Patch(before, 0, Contents(disk, h)[offset..offset + n]))
  }

  lemma GotNothing(disk: seq<Sector>, h: Header, offset: nat, before: seq<Byte>)
    requires Fits(h, |disk|)
    ensures Got(disk, h, offset, before, 0, before)
  {
  }

  lemma ChunkFits(length: nat, size: int, offset: nat)
    ensures var c := Chunk(length, size, offset);
            c > 0 ==> c <= size && offset + c <= length && offset % SECTOR + c <= SECTOR
  {
  }

  lemma GotMore(disk: seq<Sector>, h: Header, offset: nat, before: seq<Byte>, n: nat, m: nat, now: seq<Byte>)
    requires Got(disk, h, offset, before, n, now) && n + m <= |before| == |now|
    requires 0 < m && offset + n + m <= h.length && (offset + n) % SECTOR + m <= SECTOR
    ensures var sector, ofs := ByteToSector(h, offset + n), (offset + n) % SECTOR;
            && sector < |disk|
            && Got(disk, h, offset, before, n + m, Patch(now, n, disk[sector][ofs..ofs + m]))
  {
    hide Flat;
    hide Patch;
    hide Sectors;
    var pos := offset + n;
    ByteToSectorIs(h, pos, |disk|);
    ChunkRead(disk, ByteToSector(h, pos), pos % SECTOR, m);
    ContentsSlice(disk, h, pos, m);
    ReadStep(before, Contents(disk, h), offset, n, m);
  }

  lemma GotAll(disk: seq<Sector>, h: Header, offset: nat, before: seq<Byte>, n: nat, now: seq<Byte>)
    requires Got(disk, h, offset, before, n, now) && n <= |before| == |now|
    ensures n > 0 ==> offset + n <= h.length && now[..n] == Contents(disk, h)[offset..offset + n]
    ensures now[n..] == before[n..]
  {
    hide Flat;
    hide Patch;
    if n > 0 { PatchFront(before, Contents(disk, h)[offset..offset + n]); }
  }

  lemma PatchFront(s: seq<Byte>, b: seq<Byte>)
    requires |b| <= |s|
    ensures Patch(s, 0, b)[..|b|] == b && Patch(s, 0, b)[|b|..] == s[|b|..]
  {
  }

  lemma BufferSlices(buffer: array<Byte>, n: nat)
    requires n <= buffer.Length
    ensures buffer[..n] == buffer[..][..n] && buffer[n..] == buffer[..][n..]
  {
  }

  lemma MovedNone(length: nat, size: int, offset: nat, memory: bool)
    ensures size <= 0 ==> Moved(length, size, offset, memory) == 0
  {
  }

  lemma ContentsSlice(disk: seq<Sector>, h: Header, offset: nat, n: nat)
    requires Fits(h, |disk|) && offset + n <= h.length
    ensures Contents(disk, h)[offset..offset + n]
            == Flat(disk)[SECTOR * h.start + offset..SECTOR * h.start + offset + n]
  {
  }

  /** The buffer after one more chunk. */
  lemma ReadStep(before: seq<Byte>, f: seq<Byte>, lo: nat, n: nat, m: nat)
    requires n + m <= |before| && lo + n + m <= |f|
    ensures n == 0 ==> Patch(before, n, f[lo + n..lo + n + m]) == Patch(before, 0, f[lo..lo + n + m])
    ensures Patch(Patch(before, 0, f[lo..lo + n]), n, f[lo + n..lo + n + m]) == Patch(before, 0, f[lo..lo + n + m])
  {
    PatchAppend(before, 0, f[lo..lo + n], f[lo + n..lo + n + m]);
    SliceJoin(f, lo, n, m);
  }

  /** inode_write_at: refused while writes are denied; otherwise overwrites exactly
      the bytes from offset on, as many as fit before end of file, and no other byte
      of the device. */
  method WriteAt(dev: Device, h: Header, denyWriteCnt: nat, buffer: seq<Byte>, size: int, offset: nat, memory: bool)
    returns (n: nat)
    requires Fits(h, |dev.sectors|) && size <= |buffer|
    modifies dev
    ensures |dev.sectors| == |old(dev.sectors)|
    ensures n == if denyWriteCnt != 0 then 0 else Moved(h.length, size, offset, memory)
    ensures n == 0 ==> dev.sectors == old(dev.sectors)
    ensures n > 0 ==> offset + n <= h.length && n <= |buffer|
    ensures n > 0 ==> SECTOR * h.start + offset + n <= SECTOR * |dev.sectors|
    ensures n > 0 ==> dev.sectors == Overwrite(old(dev.sectors), SECTOR * h.start + offset, buffer[..n])
  {
    hide Flat;
    hide Patch;
    hide Moved;
    hide Sectors;
    hide Chunk;
    hide ByteToSector;
    hide Put;
    n := 0;
    if denyWriteCnt != 0 { return; }
    var left, pos := size, offset;
    PutNothing(dev.sectors, h, offset, buffer);
    while left > 0
      invariant 0 <= n <= |buffer| && pos == offset + n && left == size - n
      invariant n > 0 ==> pos <= h.length
      invariant |dev.sectors| == |old(dev.sectors)| && Put(old(dev.sectors), h, offset, buffer, n, dev.sectors)
      invariant Moved(h.length, size, offset, memory) == n + Moved(h.length, left, pos, memory)
      decreases left
    {
      MovedStep(h.length, left, pos, memory);
      ChunkFits(h.length, left, pos);
      var chunk := Chunk(h.length, left, pos);
      if chunk <= 0 { break; }
      PutMore(old(dev.sectors), h, offset, buffer, n, chunk, dev.sectors);
      var done := WriteChunk(dev, ByteToSector(h, pos), pos % SECTOR, buffer[n..n + chunk], memory);
      if !done { break; }
      n, pos, left := n + chunk, pos + chunk, left - chunk;
    }
    MovedNone(h.length, left, pos, memory);
    PutAll(old(dev.sectors), h, offset, buffer, n, dev.sectors);
  }

  /** The device after the first n bytes have been written. */
  ghost predicate Put(was: seq<Sector>, h: Header, offset: nat, buffer: seq<Byte>, n: nat, now: seq<Sector>) {
    && Fits(h, |was|) && |now| == |was| && n <= |buffer| && (n > 0 ==> offset + n <= h.length)
    && (n == 0 ==> now == was)
    && (n > 0 ==>
          && SECTOR * h.start + offset + n <= SECTOR * |was|
          && Flat(now) == Patch(Flat(was), SECTOR * h.start + offset, buffer[..n]))
  }

  lemma PutNothing(was: seq<Sector>, h: Header, offset: nat, buffer: seq<Byte>)
    requires Fits(h, |was|)
    ensures Put(was, h, offset, buffer, 0, was)
  {
  }

  lemma PutMore(was: seq<Sector>, h: Header, offset: nat, buffer: seq<Byte>, n: nat, m: nat, now: seq<Sector>)
    requires Put(was, h, offset, buffer, n, now) && n + m <= |buffer|
    requires 0 < m && offset + n + m <= h.length && (offset + n) % SECTOR + m <= SECTOR
    ensures var sector, ofs := ByteToSector(h, offset + n), (offset + n) % SECTOR;
            && sector < |now|
            && Put(was, h, offset, buffer, n + m, now[sector := Patch(now[sector], ofs, buffer[n..n + m])])
  {
    hide Flat;
    hide Patch;
    hide Sectors;
    var pos := offset + n;
    FitsBytes(h, |was|);
    ByteToSectorIs(h, pos, |was|);
    ChunkWritten(now, ByteToSector(h, pos), pos % SECTOR, buffer[n..n + m]);
    WriteStep(Flat(was), SECTOR * h.start + offset, buffer, n, m);
  }

  lemma PutAll(was: seq<Sector>, h: Header, offset: nat, buffer: seq<Byte>, n: nat, now: seq<Sector>)
    requires Put(was, h, offset, buffer, n, now)
    ensures n == 0 ==> now == was
    ensures n > 0 ==> offset + n <= h.length && SECTOR * h.start + offset + n <= SECTOR * |was|
    ensures n > 0 ==> now == Overwrite(was, SECTOR * h.start + offset, buffer[..n])
  {
    hide Flat;
    hide Patch;
    hide Overwrite;
    if n > 0 {
      var at := SECTOR * h.start + offset;
      OverwriteFlat(was, at, buffer[..n]);
      FlatInjective(now, Overwrite(was, at, buffer[..n]));
    }
  }

  lemma PatchWhole(s: Sector, data: seq<Byte>)
    requires |data| == SECTOR
    ensures Patch(s, 0, data) == data
  {
  }

  lemma WriteStep(f: seq<Byte>, lo: nat, buffer: seq<Byte>, n: nat, m: nat)
    requires n + m <= |buffer| && lo + n + m <= |f|
    ensures n == 0 ==> Patch(f, lo + n, buffer[n..n + m]) == Patch(f, lo, buffer[..n + m])
    ensures Patch(Patch(f, lo, buffer[..n]), lo + n, buffer[n..n + m]) == Patch(f, lo, buffer[..n + m])
  {
    PatchAppend(f, lo, buffer[..n], buffer[n..n + m]);
    assert buffer[..n] + buffer[n..n + m] == buffer[..n + m];
    PatchNothing(f, lo);
  }

  /** A write changes the file as it would a flat byte array, and no sector outside
      the extent. */
  lemma WriteMeaning(disk: seq<Sector>, h: Header, offset: nat, b: seq<Byte>)
    requires Fits(h, |disk|) && offset + |b| <= h.length
    ensures SECTOR * h.start + offset + |b| <= SECTOR * |disk|
    ensures var disk' := Overwrite(disk, SECTOR * h.start + offset, b);
            && Contents(disk', h) == Patch(Contents(disk, h), offset, b)
            && forall k :: 0 <= k < |disk| && !(h.start <= k < h.start + Sectors(h.length)) ==> disk'[k] == disk[k]
  {
    FitsBytes(h, |disk|);
    var lo := SECTOR * h.start;
    var disk' := Overwrite(disk, lo + offset, b);
    OverwriteFlat(disk, lo + offset, b);
    PatchSlice(Flat(disk), lo, h.length, offset, b);
    forall k | 0 <= k < |disk| && !(h.start <= k < h.start + Sectors(h.length)) ensures disk'[k] == disk[k] {
      assert disk'[k] == OverwriteSector(disk, lo + offset, b, k);
      OtherSector(disk, h, offset, b, k);
    }
  }

  lemma PatchSlice(f: seq<Byte>, lo: nat, n: nat, offset: nat, b: seq<Byte>)
    requires lo + n <= |f| && offset + |b| <= n
    ensures Patch(f, lo + offset, b)[lo..lo + n] == Patch(f[lo..lo + n], offset, b)
  {
  }

  lemma OtherSector(disk: seq<Sector>, h: Header, offset: nat, b: seq<Byte>, k: nat)
    requires Fits(h, |disk|) && offset + |b| <= h.length && SECTOR * h.start + offset + |b| <= SECTOR * |disk|
    requires k < |disk| && !(h.start <= k < h.start + Sectors(h.length))
    ensures OverwriteSector(disk, SECTOR * h.start + offset, b, k) == disk[k]
  {
  }

  /** A file depends on its own extent only. */
  lemma ContentsFrame(disk: seq<Sector>, disk': seq<Sector>, h: Header)
    requires |disk| == |disk'| && Fits(h, |disk|)
    requires forall k :: h.start <= k < h.start + Sectors(h.length) ==> disk'[k] == disk[k]
    ensures Contents(disk', h) == Contents(disk, h)
  {
    var lo := SECTOR * h.start;
    var f, f' := Flat(disk), Flat(disk');
    var c, c' := f[lo..lo + h.length], f'[lo..lo + h.length];
    forall i: nat | i < h.length ensures c'[i] == c[i] {
      assert f'[lo + i] == ByteAt(disk', lo + i) && f[lo + i] == ByteAt(disk, lo + i);
      assert disk'[(lo + i) / SECTOR] == disk[(lo + i) / SECTOR];
    }
  }

  /** What was written is what a later read of the same range returns, and a read of
      any other file returns what it did before. */
  lemma ReadAfterWrite(disk: seq<Sector>, h: Header, offset: nat, b: seq<Byte>, other: Header)
    requires Fits(h, |disk|) && offset + |b| <= h.length && Fits(other, |disk|)
    requires h.start + Sectors(h.length) <= other.start || other.start + Sectors(other.length) <= h.start
    ensures SECTOR * h.start + offset + |b| <= SECTOR * |disk|
    ensures var disk' := Overwrite(disk, SECTOR * h.start + offset, b);
            && Contents(disk', h)[offset..offset + |b|] == b
            && Contents(disk', other) == Contents(disk, other)
  {
    WriteMeaning(disk, h, offset, b);
    ContentsFrame(disk, Overwrite(disk, SECTOR * h.start + offset, b), other);
  }
}
