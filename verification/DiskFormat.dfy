/** How inodes and directory entries lie in bytes on the disk (struct inode_disk in
    src/filesys/inode.c, struct dir_entry in src/filesys/directory.c). */
module DiskFormat {
  import opened Common
  import opened Inode

  const LIMIT32 := 0x1_0000_0000
  const NAME_MAX := 14
  const ENTRY := 20

  /** A 32-bit number, least significant byte first. */
  function Le(n: nat): (b: seq<Byte>)
    requires n < LIMIT32
    ensures |b| == 4
  {
    [n % 256, n / 256 % 256, n / 65536 % 256, n / 16777216 % 256]
  }

  function FromLe(b: seq<Byte>): nat
    requires |b| == 4
  {
    (b[0] as int) + 256 * (b[1] as int) + 65536 * (b[2] as int) + 16777216 * (b[3] as int)
  }

  lemma LeRoundTrip(n: nat)
    requires n < LIMIT32
    ensures FromLe(Le(n)) == n
  {
    assert n / 65536 == n / 256 / 256;
    assert n / 16777216 == n / 65536 / 256;
  }

  /** An inode sector: start, length, magic number, zeros. */
  function EncodeHeader(h: Header): Sector
    requires h.start < LIMIT32 && h.length < LIMIT32
  {
    Le(h.start) + Le(h.length) + [0x44, 0x4f, 0x4e, 0x49] + seq(SECTOR - 12, _ => 0)
  }

  function DecodeHeader(s: Sector): Header {
    Header(FromLe(s[0..4]), FromLe(s[4..8]))
  }

  lemma HeaderRoundTrip(h: Header)
    requires h.start < LIMIT32 && h.length < LIMIT32
    ensures DecodeHeader(EncodeHeader(h)) == h
  {
    var s := EncodeHeader(h);
    assert s[0..4] == Le(h.start) && s[4..8] == Le(h.length);
    LeRoundTrip(h.start);
    LeRoundTrip(h.length);
  }

  /** A directory entry, decoded. */
  datatype Entry = Entry(sector: nat, name: seq<Byte>, inUse: bool)

  /** The C string held in a buffer. */
  function CString(b: seq<Byte>): seq<Byte> {
    if b == [] || b[0] == 0 then [] else [b[0]] + CString(b[1..])
  }

  lemma {:induction false} CStringOf(name: seq<Byte>, tail: seq<Byte>)
    requires 0 !in name
    ensures CString(name + [0] + tail) == name
  {
    if name != [] {
      assert (name + [0] + tail)[1..] == name[1..] + [0] + tail;
      CStringOf(name[1..], tail);
    }
  }

  /** sector (4 bytes), name (15 bytes, as strlcpy leaves them), in_use. */
  function EncodeEntry(e: seq<Byte>, sector: nat, name: seq<Byte>): (b: seq<Byte>)
    requires |e| == ENTRY && sector < LIMIT32 && |name| <= NAME_MAX
    ensures |b| == ENTRY
  {
    Le(sector) + name + [0] + e[4 + |name| + 1..ENTRY - 1] + [1]
  }

  function EraseEntry(e: seq<Byte>): (b: seq<Byte>)
    requires |e| == ENTRY
    ensures |b| == ENTRY
  {
    e[ENTRY - 1 := 0]
  }

  function DecodeEntry(b: seq<Byte>): Entry
    requires |b| == ENTRY
  {
    Entry(FromLe(b[0..4]), CString(b[4..ENTRY - 1]), b[ENTRY - 1] != 0)
  }

  lemma EntryRoundTrip(e: seq<Byte>, sector: nat, name: seq<Byte>)
    requires |e| == ENTRY && sector < LIMIT32 && |name| <= NAME_MAX && 0 !in name
    ensures DecodeEntry(EncodeEntry(e, sector, name)) == Entry(sector, name, true)
  {
    var b, tail := EncodeEntry(e, sector, name), e[4 + |name| + 1..ENTRY - 1];
    assert b[0..4] == Le(sector);
    assert b[4..ENTRY - 1] == name + [0] + tail;
    LeRoundTrip(sector);
    CStringOf(name, tail);
  }

  lemma EraseRoundTrip(e: seq<Byte>)
    requires |e| == ENTRY
    ensures DecodeEntry(EraseEntry(e)) == DecodeEntry(e).(inUse := false)
  {
    var b := EraseEntry(e);
    assert b[0..4] == e[0..4] && b[4..ENTRY - 1] == e[4..ENTRY - 1];
  }
}
