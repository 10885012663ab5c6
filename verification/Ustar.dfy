/** ustar archive headers (src/lib/ustar.c): composing a header and parsing one, in the
    format of the "ustar Interchange Format" part of the pax utility in POSIX.1-2001. */
module Ustar {
  import opened Common
  import opened DiskFormat
  import opened Stdio
  import Arithmetic

  const HEADER := 512
  const NAME := 0
  const MODE := 100
  const UID := 108
  const GID := 116
  const SIZE := 124
  const MTIME := 136
  const CHKSUM := 148
  const TYPEFLAG := 156
  const MAGIC := 257
  const VERSION := 263
  const UNAME := 265
  const GNAME := 297
  const PREFIX := 345

  const REGULAR: Byte := 48
  const DIRECTORY: Byte := 53
  const INT_MAX := 0x7fff_ffff

  type HeaderBytes = s: seq<Byte> | |s| == HEADER witness seq(HEADER, _ => 0)

  // ----- file names

  predicate StartsWith(s: seq<Byte>, t: seq<Byte>) { |t| <= |s| && s[..|t|] == t }

  /** "/", "./" or "../" in front. */
  predicate Antisocial(name: seq<Byte>) {
    StartsWith(name, [47]) || StartsWith(name, [46, 47]) || StartsWith(name, [46, 46, 47])
  }

  /** What follows the first slash (strchr, plus one). */
  function AfterSlash(name: seq<Byte>): (r: seq<Byte>)
    requires 47 in name
    ensures |r| < |name|
    ensures forall b :: b in r ==> b in name
  {
    if name[0] == 47 then name[1..] else AfterSlash(name[1..])
  }

  lemma AntisocialSlash(name: seq<Byte>)
    requires Antisocial(name)
    ensures 47 in name
  {
    if StartsWith(name, [47]) {
      assert name[..1][0] == name[0];
    } else if StartsWith(name, [46, 47]) {
      assert name[..2][1] == name[1];
    } else {
      assert name[..3][2] == name[2];
    }
  }

  function Dropped(name: seq<Byte>): (r: seq<Byte>)
    ensures !Antisocial(r)
    ensures |r| <= |name| && forall b :: b in r ==> b in name
    decreases |name|
  {
    if Antisocial(name) then
      AntisocialSlash(name);
      Dropped(AfterSlash(name))
    else name
  }

  /** strip_antisocial_prefixes. */
  function Strip(name: seq<Byte>): (r: seq<Byte>)
    ensures !Antisocial(r) && r != [] && r != [46, 46]
    ensures 0 !in name ==> 0 !in r
  {
    var d := Dropped(name);
    DotIsFine();
    if d == [] || d == [46, 46] then [46] else d
  }

  lemma DotIsFine()
    ensures !Antisocial([46]) && [46] != [46, 46]
  {
    assert [46][..1][0] == 46;
    assert |[46]| == 1;
  }

  lemma StripIdempotent(name: seq<Byte>)
    ensures Strip(Strip(name)) == Strip(name)
  {
    var r := Strip(name);
    assert Dropped(r) == r;
  }

  /** s is made of the pieces "/", "./" and "../". */
  ghost predicate Climbing(s: seq<Byte>)
    decreases |s|
  {
    || s == []
    || (s[0] == 47 && Climbing(s[1..]))
    || (|s| >= 2 && s[0] == 46 && s[1] == 47 && Climbing(s[2..]))
    || (|s| >= 3 && s[0] == 46 && s[1] == 46 && s[2] == 47 && Climbing(s[3..]))
  }

  /** r is what is left of name behind its first k bytes. */
  ghost predicate StrippedAt(name: seq<Byte>, k: nat, r: seq<Byte>) {
    && k <= |name| && Climbing(name[..k])
    && var rest := name[k..];
       && !(|rest| >= 1 && rest[0] == 47)
       && !(|rest| >= 2 && rest[0] == 46 && rest[1] == 47)
       && !(|rest| >= 3 && rest[0] == 46 && rest[1] == 46 && rest[2] == 47)
       && r == if rest == [] || rest == [46, 46] then [46] else rest
  }

  /** What is dropped from the front is made of "/", "./" and "../" only, what is left does
      not begin with one of them, and that is the result, or "." if it is empty or "..". */
  lemma {:induction false} StripMeaning(name: seq<Byte>) returns (k: nat)
    ensures StrippedAt(name, k, Strip(name))
    decreases |name|
  {
    hide Climbing;
    hide Dropped;
    hide Antisocial;
    var n := PieceLength(name);
    if n == 0 {
      k := 0;
      assert name[0..] == name && name[..0] == [];
      NoClimb();
      Unstripped(name);
    } else {
      var rest := name[n..];
      var j := StripMeaning(rest);
      ClimbStep(name, n, j);
      assert name[n + j..] == rest[j..];
      k := n + j;
    }
  }

  lemma NoClimb()
    ensures Climbing([])
  {
  }

  lemma Unstripped(name: seq<Byte>)
    requires !Antisocial(name)
    ensures Dropped(name) == name
  {
  }

  lemma ClimbStep(name: seq<Byte>, n: nat, j: nat)
    requires 0 < n <= 3 && n + j <= |name| && name[n - 1] == 47 && forall i :: 0 <= i < n - 1 ==> name[i] == 46
    requires Climbing(name[n..][..j])
    ensures Climbing(name[..n + j])
  {
    var s := name[..n + j];
    assert s[n..] == name[n..][..j];
  }

  /** The length of the piece in front, 0 if there is none. */
  lemma PieceLength(name: seq<Byte>) returns (n: nat)
    ensures n <= 3 && n <= |name| && (n == 0 <==> !Antisocial(name))
    ensures n > 0 ==> Dropped(name) == Dropped(name[n..])
    ensures n > 0 ==> name[n - 1] == 47 && forall i :: 0 <= i < n - 1 ==> name[i] == 46
    ensures n == 0 ==> !(|name| >= 1 && name[0] == 47) && !(|name| >= 2 && name[0] == 46 && name[1] == 47)
    ensures n == 0 ==> !(|name| >= 3 && name[0] == 46 && name[1] == 46 && name[2] == 47)
  {
    AntisocialIs(name);
    n := if !Antisocial(name) then 0 else if name[0] == 47 then 1 else if name[1] == 47 then 2 else 3;
    if n > 0 {
      AntisocialSlash(name);
      FirstSlash(name, n);
    }
  }

  lemma AntisocialIs(name: seq<Byte>)
    ensures Antisocial(name) <==>
            || (|name| >= 1 && name[0] == 47)
            || (|name| >= 2 && name[0] == 46 && name[1] == 47)
            || (|name| >= 3 && name[0] == 46 && name[1] == 46 && name[2] == 47)
  {
    if |name| >= 1 { assert name[..1] == [name[0]]; }
    if |name| >= 2 { assert name[..2] == [name[0], name[1]]; }
    if |name| >= 3 { assert name[..3] == [name[0], name[1], name[2]]; }
  }

  lemma {:induction false} FirstSlash(name: seq<Byte>, n: nat)
    requires 0 < n <= |name| && name[n - 1] == 47 && forall i :: 0 <= i < n - 1 ==> name[i] != 47
    ensures 47 in name && AfterSlash(name) == name[n..]
  {
    if n > 1 {
      FirstSlash(name[1..], n - 1);
      assert name[1..][n - 1..] == name[n..];
    }
  }

  /** A name without such a prefix is kept as it is. */
  lemma StripKeeps(name: seq<Byte>)
    requires !Antisocial(name) && name != [] && name != [46, 46]
    ensures Strip(name) == name
  {
  }

  /** strip_antisocial_prefixes as the pointer-advancing loop. */
  method StripPrefixes(fileName: seq<Byte>) returns (r: seq<Byte>)
    ensures r == Strip(fileName) && exists k: nat :: StrippedAt(fileName, k, r)
  {
    ghost var k := StripMeaning(fileName);
    r := fileName;
    while Antisocial(r)
      invariant Dropped(r) == Dropped(fileName)
      decreases |r|
    {
      AntisocialSlash(r);
      r := AfterSlash(r);
    }
    if r == [] || r == [46, 46] {
      r := [46];
    }
  }

  // ----- checksum

  /** The sum of the first n bytes, the checksum field counted as spaces. */
  function Sum(h: seq<Byte>, n: nat): (r: nat)
    requires n <= |h|
    ensures r <= 255 * n
  {
    if n == 0 then 0 else Sum(h, n - 1) + if CHKSUM <= n - 1 < CHKSUM + 8 then 32 else h[n - 1]
  }

  /** calculate_chksum. */
  method CalculateChksum(h: array<Byte>) returns (chksum: nat)
    requires h.Length == HEADER
    ensures chksum == Sum(h[..], HEADER)
  {
    chksum := 0;
    var i := 0;
    while i < HEADER
      invariant 0 <= i <= HEADER && chksum == Sum(h[..], i)
    {
      var inField := i >= CHKSUM && i < CHKSUM + 8;
      chksum := chksum + if inField then 32 else h[i];
      i := i + 1;
    }
  }

  /** The checksum does not depend on its own field. */
  lemma {:induction false} SumIgnoresField(h: seq<Byte>, h': seq<Byte>, n: nat)
    requires n <= |h| == |h'|
    requires forall i :: 0 <= i < n && !(CHKSUM <= i < CHKSUM + 8) ==> h'[i] == h[i]
    ensures Sum(h', n) == Sum(h, n)
  {
    if n > 0 { SumIgnoresField(h, h', n - 1); }
  }

  /** Any other byte counts in full. */
  lemma {:induction false} SumChange(h: seq<Byte>, i: nat, b: Byte, n: nat)
    requires n <= |h| && i < |h| && !(CHKSUM <= i < CHKSUM + 8)
    ensures Sum(h[i := b], n) - Sum(h, n) == if i < n then b - h[i] else 0
  {
    if n > 0 { SumChange(h, i, b, n - 1); }
  }

  // ----- octal fields

  /** parse_octal_field from position ofs on, value so far given.  None for false. */
  function ParseOctal(s: seq<Byte>, ofs: nat, value: nat): Option<nat>
    requires ofs <= |s|
    decreases |s| - ofs
  {
    if ofs == |s| then None
    else if 48 <= s[ofs] <= 55 then
      if value > 0xffff_ffff / 8 then None else ParseOctal(s, ofs + 1, s[ofs] - 48 + value * 8)
    else if s[ofs] == 32 || s[ofs] == 0 then (if ofs > 0 then Some(value) else None)
    else None
  }

  /** The number that octal digits spell, read from the left. */
  function OctalValue(s: seq<Byte>): int {
    if s == [] then 0 else OctalValue(s[..|s| - 1]) * 8 + s[|s| - 1] - 48
  }

  /** s is a valid octal field: k digits, at least one, then a space or null byte, and a
      value that fits 32 bits. */
  ghost predicate OctalField(s: seq<Byte>, k: nat) {
    && 0 < k < |s| && (s[k] == 32 || s[k] == 0)
    && (forall i :: 0 <= i < k ==> 48 <= s[i] <= 55)
    && 0 <= OctalValue(s[..k]) <= 0xffff_ffff
  }

  lemma {:induction false} OctalGrows(s: seq<Byte>, i: nat, j: nat)
    requires i <= j <= |s| && forall k :: 0 <= k < j ==> 48 <= s[k] <= 55
    ensures 0 <= OctalValue(s[..i]) <= OctalValue(s[..j])
  {
    if i < j {
      OctalGrows(s, i, j - 1);
      assert s[..j][..j - 1] == s[..j - 1];
    } else if i > 0 {
      OctalGrows(s, i - 1, i - 1);
      assert s[..i][..i - 1] == s[..i - 1];
    }
  }

  /** parse_octal_field accepts exactly the valid fields and returns what they spell. */
  lemma ParseOctalMeaning(s: seq<Byte>)
    ensures ParseOctal(s, 0, 0).Some? <==> exists k: nat :: OctalField(s, k)
    ensures forall k: nat :: OctalField(s, k) ==> ParseOctal(s, 0, 0) == Some(OctalValue(s[..k]))
  {
    assert s[..0] == [];
    ParseFrom(s, 0);
  }

  lemma {:induction false} ParseFrom(s: seq<Byte>, ofs: nat)
    requires ofs <= |s| && (forall i :: 0 <= i < ofs ==> 48 <= s[i] <= 55)
    requires 0 <= OctalValue(s[..ofs]) <= 0xffff_ffff
    ensures ParseOctal(s, ofs, OctalValue(s[..ofs])).Some? <==> exists k: nat :: OctalField(s, k)
    ensures forall k: nat :: OctalField(s, k) ==> ParseOctal(s, ofs, OctalValue(s[..ofs])) == Some(OctalValue(s[..k]))
    decreases |s| - ofs
  {
    var v := OctalValue(s[..ofs]);
    if ofs < |s| && 48 <= s[ofs] <= 55 {
      assert s[..ofs + 1][..ofs] == s[..ofs];
      if v > 0xffff_ffff / 8 {
        forall k: nat ensures !OctalField(s, k) {
          if ofs < k && OctalField(s, k) { OctalGrows(s, ofs + 1, k); }
        }
      } else {
        ParseFrom(s, ofs + 1);
      }
    } else if ofs < |s| && ofs > 0 && (s[ofs] == 32 || s[ofs] == 0) {
      assert OctalField(s, ofs);
    }
  }

  method ParseOctalField(s: seq<Byte>) returns (ok: bool, value: nat)
    ensures ok <==> ParseOctal(s, 0, 0).Some?
    ensures ok ==> ParseOctal(s, 0, 0) == Some(value)
  {
    value := 0;
    var ofs := 0;
    while ofs < |s|
      invariant 0 <= ofs <= |s| && ParseOctal(s, ofs, value) == ParseOctal(s, 0, 0)
    {
      var c := s[ofs];
      if c >= 48 && c <= 55 {
        if value > 0xffff_ffff / 8 {
          return false, value;
        }
        value := c - 48 + value * 8;
      } else if c == 32 || c == 0 {
        return ofs > 0, value;
      } else {
        return false, value;
      }
      ofs := ofs + 1;
    }
    return false, value;
  }

  /** Reading the leading k of w printed digits gives the leading part of the number,
      as long as that part fits in 32 bits. */
  lemma {:induction false} OctalPrefix(n: nat, w: nat, j: nat)
    requires j < w
    ensures Pow8(w - 1 - j) > 0 && Octal(n, w)[j] == 48 + (n / Pow8(w - 1 - j)) % 8
  {
    Pow8Positive(w - 1 - j);
    if j < w - 1 {
      OctalPrefix(n / 8, w - 1, j);
      DivPow8(n, w - 1 - j);
    }
  }

  lemma {:induction false} Pow8Positive(k: nat)
    ensures Pow8(k) > 0
  {
    if k > 0 { Pow8Positive(k - 1); }
  }

  /** n / 8 / 8^(k-1) is n / 8^k. */
  lemma DivPow8(n: nat, k: nat)
    requires k > 0
    ensures Pow8(k - 1) > 0 && Pow8(k) > 0 && n / 8 / Pow8(k - 1) == n / Pow8(k)
  {
    Pow8Positive(k - 1);
    Arithmetic.DivDiv(n, 8, Pow8(k - 1));
  }

  /** Parsing a printed number: every prefix of the digits is the number's own prefix. */
  lemma {:induction false} ParsePrinted(n: nat, w: nat, j: nat)
    requires j <= w && w > 0 && n < Pow8(w) && n < 0x1_0000_0000
    ensures Pow8(w - j) > 0
    ensures ParseOctal(Octal(n, w) + [0], j, n / Pow8(w - j)) == Some(n)
    decreases w - j
  {
    Pow8Positive(w - j);
    var s := Octal(n, w) + [0];
    if j < w {
      OctalPrefix(n, w, j);
      Pow8Positive(w - j - 1);
      var v := n / Pow8(w - j - 1);
      Arithmetic.DivDiv(n, Pow8(w - j - 1), 8);
      assert n / Pow8(w - j) == v / 8;
      QuotientAtMost(n, Pow8(w - j - 1));
      assert s[j] - 48 + v / 8 * 8 == v;
      ParsePrinted(n, w, j + 1);
    } else {
      assert s[w] == 0 && n / Pow8(0) == n;
    }
  }

  lemma QuotientAtMost(n: nat, d: nat)
    requires d > 0
    ensures n / d <= n
  {
    Arithmetic.DivBounds(n, d);
    Arithmetic.MulMono(1, d, n / d);
  }

  lemma {:induction false} QuotientZero(n: nat, d: nat)
    requires n < d
    ensures n / d == 0
  {
    Arithmetic.DivUnique(n, d, 0);
  }

  /** Printing and parsing are inverse on every number that fits 32 bits. */
  lemma OctalRoundTrip(n: nat, w: nat)
    requires w > 0 && n < Pow8(w) && n < 0x1_0000_0000
    ensures ParseOctal(Octal(n, w) + [0], 0, 0) == Some(n)
  {
    ParsePrinted(n, w, 0);
    QuotientZero(n, Pow8(w));
  }

  // ----- composing a header

  /** Bytes written at an offset. */
  datatype Field = Field(at: nat, bytes: seq<Byte>)

  ghost predicate FieldsOk(fields: seq<Field>, n: nat) {
    && (forall i :: 0 <= i < |fields| ==> fields[i].at + |fields[i].bytes| <= n)
    && (forall i, j :: 0 <= i < j < |fields| ==>
          Clear(fields[i].at, |fields[i].bytes|, fields[j].at, |fields[j].bytes|))
  }

  /** Two ranges have nothing in common. */
  predicate Clear(a: nat, n: nat, b: nat, m: nat) {
    a + n <= b || b + m <= a
  }

  function Written(h: seq<Byte>, fields: seq<Field>): (r: seq<Byte>)
    requires forall i :: 0 <= i < |fields| ==> fields[i].at + |fields[i].bytes| <= |h|
    ensures |r| == |h|
  {
    if fields == [] then h
    else Patch(Written(h, fields[..|fields| - 1]), fields[|fields| - 1].at, fields[|fields| - 1].bytes)
  }

  lemma PatchReads(s: seq<Byte>, at: nat, b: seq<Byte>, lo: nat, n: nat)
    requires at + |b| <= |s| && lo + n <= |s|
    ensures Patch(s, at, b)[at..at + |b|] == b
    ensures Clear(at, |b|, lo, n) ==> Patch(s, at, b)[lo..lo + n] == s[lo..lo + n]
  {
  }

  /** A field reads back as it was written. */
  lemma {:induction false} WrittenAt(h: seq<Byte>, fields: seq<Field>, k: nat)
    requires FieldsOk(fields, |h|) && k < |fields|
    ensures Written(h, fields)[fields[k].at..fields[k].at + |fields[k].bytes|] == fields[k].bytes
  {
    var n := |fields| - 1;
    var before := Written(h, fields[..n]);
    PatchReads(before, fields[n].at, fields[n].bytes, fields[k].at, |fields[k].bytes|);
    if k < n { WrittenAt(h, fields[..n], k); }
  }

  /** What lies between the fields stays. */
  lemma {:induction false} WrittenOutside(h: seq<Byte>, fields: seq<Field>, lo: nat, m: nat)
    requires FieldsOk(fields, |h|) && lo + m <= |h|
    requires forall i :: 0 <= i < |fields| ==> Clear(fields[i].at, |fields[i].bytes|, lo, m)
    ensures Written(h, fields)[lo..lo + m] == h[lo..lo + m]
  {
    if fields != [] {
      var n := |fields| - 1;
      PatchReads(Written(h, fields[..n]), fields[n].at, fields[n].bytes, lo, m);
      WrittenOutside(h, fields[..n], lo, m);
    }
  }

  const USTAR: seq<Byte> := [117, 115, 116, 97, 114, 0]
  const ROOT: seq<Byte> := [114, 111, 111, 116, 0]
  const MTIME_2006 := 1136102400

  /** A negative int as printf's %o takes it. */
  function Unsigned(size: int): nat
    requires -0x8000_0000 <= size <= INT_MAX
  {
    if size < 0 then size + 0x1_0000_0000 else size
  }

  /** Everything ustar_make_header fills in, but for the checksum. */
  function Fields(name: seq<Byte>, typ: Byte, size: int): (fields: seq<Field>)
    requires -0x8000_0000 <= size <= INT_MAX
    ensures |fields| == 11
  {
    [ Field(NAME, name + [0]),
      Field(MODE, Octal(if typ == REGULAR then 420 else 493, 7) + [0]),
      Field(UID, Octal(0, 7) + [0]),
      Field(GID, Octal(0, 7) + [0]),
      Field(SIZE, Octal(Unsigned(size), 11) + [0]),
      Field(MTIME, Octal(MTIME_2006, 11) + [0]),
      Field(TYPEFLAG, [typ]),
      Field(MAGIC, USTAR),
      Field(VERSION, [48, 48]),
      Field(GNAME, ROOT),
      Field(UNAME, ROOT) ]
  }

  lemma FieldsAreOk(name: seq<Byte>, typ: Byte, size: int)
    requires -0x8000_0000 <= size <= INT_MAX && |name| <= 99
    ensures FieldsOk(Fields(name, typ, size), HEADER)
  {
    hide Octal;
  }

  function Body(name: seq<Byte>, typ: Byte, size: int): HeaderBytes
    requires -0x8000_0000 <= size <= INT_MAX && |name| <= 99
  {
    FieldsAreOk(name, typ, size);
    Written(seq(HEADER, _ => 0), Fields(name, typ, size))
  }

  /** The whole header of a file whose name is short enough. */
  function Composed(name: seq<Byte>, typ: Byte, size: int): HeaderBytes
    requires -0x8000_0000 <= size <= INT_MAX && |name| <= 99
  {
    var h := Body(name, typ, size);
    Patch(h, CHKSUM, Octal(Sum(h, HEADER), 7) + [0])
  }

  /** ustar_make_header; None for false. */
  function Make(fileName: seq<Byte>, typ: Byte, size: int): Option<HeaderBytes>
    requires -0x8000_0000 <= size <= INT_MAX
  {
    var name := Strip(fileName);
    if |name| > 99 then None else Some(Composed(name, typ, size))
  }

  // ----- parsing a header

  datatype Error =
    | NotUstar | BadVersion | CorruptChksum | ChecksumMismatch
    | NameTooLong | BadType | CorruptSize | TooLarge

  datatype Result = EndOfArchive | File(name: seq<Byte>, typ: Byte, size: nat) | Failure(error: Error)

  predicate AllZeros(h: seq<Byte>) { forall i :: 0 <= i < |h| ==> h[i] == 0 }

  /** ustar_parse_header. */
  function Parse(h: HeaderBytes): Result {
    var chksum := ParseOctal(h[CHKSUM..CHKSUM + 8], 0, 0);
    var size := ParseOctal(h[SIZE..SIZE + 12], 0, 0);
    if AllZeros(h) then EndOfArchive
    else if h[MAGIC..MAGIC + 6] != USTAR then Failure(NotUstar)
    else if h[VERSION] != 48 || h[VERSION + 1] != 48 then Failure(BadVersion)
    else if chksum.None? then Failure(CorruptChksum)
    else if chksum.value != Sum(h, HEADER) then Failure(ChecksumMismatch)
    else if h[NAME + 99] != 0 || h[PREFIX] != 0 then Failure(NameTooLong)
    else if h[TYPEFLAG] != REGULAR && h[TYPEFLAG] != DIRECTORY then Failure(BadType)
    else if h[TYPEFLAG] == REGULAR && size.None? then Failure(CorruptSize)
    else if h[TYPEFLAG] == REGULAR && size.value > INT_MAX then Failure(TooLarge)
    else File(Strip(CString(h[NAME..NAME + 100])), h[TYPEFLAG], if h[TYPEFLAG] == REGULAR then size.value else 0)
  }

  /** What each error complains of. */
  predicate Violates(h: HeaderBytes, e: Error) {
    match e
    case NotUstar => h[MAGIC..MAGIC + 6] != USTAR
    case BadVersion => !(h[VERSION] == 48 && h[VERSION + 1] == 48)
    case CorruptChksum => ParseOctal(h[CHKSUM..CHKSUM + 8], 0, 0).None?
    case ChecksumMismatch => ParseOctal(h[CHKSUM..CHKSUM + 8], 0, 0) != Some(Sum(h, HEADER))
    case NameTooLong => !(h[NAME + 99] == 0 && h[PREFIX] == 0)
    case BadType => h[TYPEFLAG] !in {REGULAR, DIRECTORY}
    case CorruptSize => h[TYPEFLAG] == REGULAR && ParseOctal(h[SIZE..SIZE + 12], 0, 0).None?
    case TooLarge =>
      var size := ParseOctal(h[SIZE..SIZE + 12], 0, 0);
      h[TYPEFLAG] == REGULAR && (size.None? || size.value > INT_MAX)
  }

  /** The order in which complaints come. */
  function Rank(e: Error): nat {
    match e
    case NotUstar => 0
    case BadVersion => 1
    case CorruptChksum => 2
    case ChecksumMismatch => 3
    case NameTooLong => 4
    case BadType => 5
    case CorruptSize => 6
    case TooLarge => 7
  }

  /** Which header gives which answer: end of archive exactly for zeros, otherwise the first
      complaint there is, and a file exactly if there is none. */
  lemma ParseMeaning(h: HeaderBytes, e: Error)
    ensures Parse(h) == EndOfArchive <==> forall i :: 0 <= i < HEADER ==> h[i] == 0
    ensures Parse(h) == Failure(e) <==>
            && Parse(h) != EndOfArchive && Violates(h, e) && forall f: Error :: Rank(f) < Rank(e) ==> !Violates(h, f)
    ensures Parse(h).File? <==> Parse(h) != EndOfArchive && forall f: Error :: !Violates(h, f)
    ensures Parse(h).File? ==>
              && Parse(h).typ == h[TYPEFLAG] && Parse(h).name == Strip(CString(h[NAME..NAME + 100]))
              && (h[TYPEFLAG] == REGULAR ==> ParseOctal(h[SIZE..SIZE + 12], 0, 0) == Some(Parse(h).size))
              && (h[TYPEFLAG] == DIRECTORY ==> Parse(h).size == 0)
  {
    hide ParseOctal;
    hide Sum;
    hide Strip;
    hide CString;
    var p := Parse(h);
    if p.Failure? { assert Violates(h, p.error); }
  }

  // ----- parsing undoes composing

  lemma SliceAt(h: seq<Byte>, lo: nat, n: nat, j: nat)
    requires j < n && lo + n <= |h|
    ensures h[lo..lo + n][j] == h[lo + j]
  {
  }

  /** The fields of a composed header, the checksum aside. */
  lemma BodyFields(name: seq<Byte>, typ: Byte, size: int)
    requires -0x8000_0000 <= size <= INT_MAX && |name| <= 99
    ensures var h := Body(name, typ, size);
            && h[NAME..NAME + |name| + 1] == name + [0]
            && h[SIZE..SIZE + 12] == Octal(Unsigned(size), 11) + [0]
            && h[TYPEFLAG..TYPEFLAG + 1] == [typ]
            && h[MAGIC..MAGIC + 6] == USTAR
            && h[VERSION..VERSION + 2] == [48, 48]
            && h[PREFIX..PREFIX + 1] == [0]
            && (|name| < 99 ==> h[NAME + 99..NAME + 100] == [0])
  {
    hide Written;
    var z, fields := seq(HEADER, _ => 0), Fields(name, typ, size);
    FieldsAreOk(name, typ, size);
    WrittenAt(z, fields, 0);
    WrittenAt(z, fields, 4);
    WrittenAt(z, fields, 6);
    WrittenAt(z, fields, 7);
    WrittenAt(z, fields, 8);
    WrittenOutside(z, fields, PREFIX, 1);
    if |name| < 99 { WrittenOutside(z, fields, NAME + 99, 1); }
  }

  /** The fields of the whole header. */
  lemma ComposedFields(name: seq<Byte>, typ: Byte, size: int)
    requires -0x8000_0000 <= size <= INT_MAX && |name| <= 99 && 0 !in name
    ensures var h := Composed(name, typ, size);
            && CString(h[NAME..NAME + 100]) == name
            && h[NAME + 99] == 0
            && h[SIZE..SIZE + 12] == Octal(Unsigned(size), 11) + [0]
            && h[TYPEFLAG] == typ
            && h[MAGIC..MAGIC + 6] == USTAR
            && h[VERSION] == 48 && h[VERSION + 1] == 48
            && h[PREFIX] == 0
            && ParseOctal(h[CHKSUM..CHKSUM + 8], 0, 0) == Some(Sum(h, HEADER))
  {
    hide Body;
    hide Sum;
    hide Octal;
    hide CString;
    hide Patch;
    hide ParseOctal;
    var g := Body(name, typ, size);
    var sum := Octal(Sum(g, HEADER), 7) + [0];
    var h := Composed(name, typ, size);
    BodyFields(name, typ, size);
    PatchReads(g, CHKSUM, sum, NAME, |name| + 1);
    PatchReads(g, CHKSUM, sum, NAME + 99, 1);
    PatchReads(g, CHKSUM, sum, SIZE, 12);
    PatchReads(g, CHKSUM, sum, TYPEFLAG, 1);
    PatchReads(g, CHKSUM, sum, MAGIC, 6);
    PatchReads(g, CHKSUM, sum, VERSION, 2);
    PatchReads(g, CHKSUM, sum, PREFIX, 1);
    SliceAt(h, NAME + 99, 1, 0);
    SliceAt(h, TYPEFLAG, 1, 0);
    SliceAt(h, VERSION, 2, 0);
    SliceAt(h, VERSION, 2, 1);
    SliceAt(h, PREFIX, 1, 0);
    if |name| == 99 { SliceAt(h, NAME, 100, 99); }
    NameField(h, name);
    ChecksumField(g, h, sum);
  }

  /** The rest of what the source fills in: mode 0644 or 0755, owner and group 0 by the name
      root, and the fixed modification time. */
  lemma OwnerFields(name: seq<Byte>, typ: Byte, size: int)
    requires -0x8000_0000 <= size <= INT_MAX && |name| <= 99
    ensures var h := Composed(name, typ, size);
            && ParseOctal(h[MODE..MODE + 8], 0, 0) == Some(if typ == REGULAR then 0x1a4 else 0x1ed)
            && ParseOctal(h[UID..UID + 8], 0, 0) == Some(0) && ParseOctal(h[GID..GID + 8], 0, 0) == Some(0)
            && ParseOctal(h[MTIME..MTIME + 12], 0, 0) == Some(1136102400)
            && h[UNAME..UNAME + 5] == [114, 111, 111, 116, 0] && h[GNAME..GNAME + 5] == [114, 111, 111, 116, 0]
  {
    hide Written;
    hide Sum;
    hide Octal;
    hide ParseOctal;
    hide Patch;
    var z, fields := seq(HEADER, _ => 0), Fields(name, typ, size);
    var g := Body(name, typ, size);
    var sum := Octal(Sum(g, HEADER), 7) + [0];
    FieldsAreOk(name, typ, size);
    OwnerField(z, fields, 1, sum);
    OwnerField(z, fields, 2, sum);
    OwnerField(z, fields, 3, sum);
    OwnerField(z, fields, 5, sum);
    OwnerField(z, fields, 9, sum);
    OwnerField(z, fields, 10, sum);
    Pow8Values();
    OctalRoundTrip(0, 7);
    OctalRoundTrip(0x1a4, 7);
    OctalRoundTrip(0x1ed, 7);
    OctalRoundTrip(MTIME_2006, 11);
  }

  lemma OwnerField(z: seq<Byte>, fields: seq<Field>, k: nat, sum: seq<Byte>)
    requires FieldsOk(fields, |z|) && k < |fields| && CHKSUM + |sum| <= |z|
    requires Clear(CHKSUM, |sum|, fields[k].at, |fields[k].bytes|)
    ensures Patch(Written(z, fields), CHKSUM, sum)[fields[k].at..fields[k].at + |fields[k].bytes|] == fields[k].bytes
  {
    WrittenAt(z, fields, k);
    PatchReads(Written(z, fields), CHKSUM, sum, fields[k].at, |fields[k].bytes|);
  }

  lemma NameField(h: HeaderBytes, name: seq<Byte>)
    requires |name| <= 99 && 0 !in name && h[NAME..NAME + |name| + 1] == name + [0]
    ensures CString(h[NAME..NAME + 100]) == name
  {
    var tail := h[NAME + |name| + 1..NAME + 100];
    assert h[NAME..NAME + 100] == h[NAME..NAME + |name| + 1] + tail;
    CStringOf(name, tail);
  }

  /** The checksum field holds the checksum of the header that contains it. */
  lemma ChecksumField(g: HeaderBytes, h: HeaderBytes, sum: seq<Byte>)
    requires sum == Octal(Sum(g, HEADER), 7) + [0] && h == Patch(g, CHKSUM, sum)
    ensures ParseOctal(h[CHKSUM..CHKSUM + 8], 0, 0) == Some(Sum(h, HEADER))
  {
    hide ParseOctal;
    hide Octal;
    hide Sum;
    PatchReads(g, CHKSUM, sum, 0, 0);
    SumIgnoresField(g, h, HEADER);
    SumBound(g);
    Pow8Values();
    OctalRoundTrip(Sum(g, HEADER), 7);
  }

  lemma SumBound(h: HeaderBytes)
    ensures Sum(h, HEADER) <= 255 * HEADER
  {
  }

  /** Parsing undoes composing.  Composing fails exactly on names that strip to more
      than 99 characters; otherwise the stripped name and the type come back, and for
      a regular file the size does if and only if it is not negative. */
  lemma RoundTrip(fileName: seq<Byte>, typ: Byte, size: int)
    requires 0 !in fileName && (typ == REGULAR || typ == DIRECTORY) && -0x8000_0000 <= size <= INT_MAX
    ensures Make(fileName, typ, size).None? <==> |Strip(fileName)| > 99
    ensures |Strip(fileName)| <= 99 ==>
              Parse(Make(fileName, typ, size).value) ==
              if typ == DIRECTORY then File(Strip(fileName), typ, 0)
              else if size >= 0 then File(Strip(fileName), typ, size)
              else Failure(TooLarge)
  {
    hide Composed;
    hide Strip;
    hide Sum;
    hide Octal;
    hide ParseOctal;
    hide CString;
    var name := Strip(fileName);
    StripFacts(fileName);
    if |name| <= 99 {
      var h := Composed(name, typ, size);
      ComposedFields(name, typ, size);
      SliceAt(h, MAGIC, 6, 0);
      assert !AllZeros(h);
      Pow8Values();
      OctalRoundTrip(Unsigned(size), 11);
      StripIdempotent(fileName);
    }
  }

  lemma StripFacts(name: seq<Byte>)
    requires 0 !in name
    ensures 0 !in Strip(name)
  {
  }

  /** A header that has one byte changed outside the checksum field is rejected. */
  lemma CorruptionDetected(fileName: seq<Byte>, typ: Byte, size: int, i: nat, b: Byte)
    requires 0 !in fileName && -0x8000_0000 <= size <= INT_MAX && |Strip(fileName)| <= 99
    requires i < HEADER && !(CHKSUM <= i < CHKSUM + 8) && b != Make(fileName, typ, size).value[i]
    ensures Parse(Make(fileName, typ, size).value[i := b]).Failure?
  {
    hide Composed;
    hide Strip;
    hide Sum;
    hide Octal;
    hide ParseOctal;
    hide CString;
    StripFacts(fileName);
    var h := Composed(Strip(fileName), typ, size);
    ComposedFields(Strip(fileName), typ, size);
    var h' := h[i := b];
    SumChange(h, i, b, HEADER);
    assert h'[CHKSUM..CHKSUM + 8] == h[CHKSUM..CHKSUM + 8];
    SliceAt(h, MAGIC, 6, 0);
    SliceAt(h, MAGIC, 6, 1);
    assert !AllZeros(h') by {
      assert h'[MAGIC] != 0 || h'[MAGIC + 1] != 0;
    }
  }

  // ----- the functions as they work on the buffer

  /** strlcpy. */
  method StrLcpy(header: array<Byte>, at: nat, bufSize: nat, text: seq<Byte>)
    requires at + bufSize <= header.Length && |text| < bufSize
    modifies header
    ensures header[..] == Patch(old(header[..]), at, text + [0])
  {
    var i := 0;
    while i < |text|
      invariant 0 <= i <= |text|
      invariant forall k :: 0 <= k < header.Length ==>
                  header[k] == if at <= k < at + i then text[k - at] else old(header[k])
    {
      header[at + i] := text[i];
      i := i + 1;
    }
    header[at + i] := 0;
  }

  /** snprintf with "%0No". */
  method PutOctal(header: array<Byte>, at: nat, width: nat, value: nat)
    requires at + width + 1 <= header.Length && width > 0 && value < Pow8(width) && value < LIMIT64
    modifies header
    ensures header[..] == Patch(old(header[..]), at, Octal(value, width) + [0])
  {
    var text := FormatInteger(value, false, false, BaseOctal(), ZeroPadded(width));
    OctalRendered(value, width);
    var length := Snprintf(header, at, width + 1, text);
  }

  method PutBytes(header: array<Byte>, at: nat, bytes: seq<Byte>)
    requires at + |bytes| <= header.Length
    modifies header
    ensures header[..] == Patch(old(header[..]), at, bytes)
  {
    var i := 0;
    while i < |bytes|
      invariant 0 <= i <= |bytes|
      invariant forall k :: 0 <= k < header.Length ==>
                  header[k] == if at <= k < at + i then bytes[k - at] else old(header[k])
    {
      header[at + i] := bytes[i];
      i := i + 1;
    }
  }

  /** memset to zero. */
  method ClearAll(header: array<Byte>)
    modifies header
    ensures header[..] == seq(header.Length, _ => 0)
  {
    var i := 0;
    while i < header.Length
      invariant 0 <= i <= header.Length && forall k :: 0 <= k < i ==> header[k] == 0
    {
      header[i] := 0;
      i := i + 1;
    }
  }

  /** The next field goes on top of those before it. */
  lemma WrittenStep(z: seq<Byte>, fields: seq<Field>, k: nat)
    requires k < |fields| && forall i :: 0 <= i < |fields| ==> fields[i].at + |fields[i].bytes| <= |z|
    ensures Written(z, fields[..k + 1]) == Patch(Written(z, fields[..k]), fields[k].at, fields[k].bytes)
  {
    assert fields[..k + 1][..k] == fields[..k];
  }

  lemma WrittenNone(z: seq<Byte>, fields: seq<Field>)
    ensures Written(z, fields[..0]) == z
  {
  }

  /** The numeric fields up to the modification time. */
  method FillNumbers(header: array<Byte>, name: seq<Byte>, typ: Byte, size: int)
    requires header.Length == HEADER && |name| <= 99 && -0x8000_0000 <= size <= INT_MAX
    requires header[..] == seq(HEADER, _ => 0)
    modifies header
    ensures |Fields(name, typ, size)| == 11 && FieldsOk(Fields(name, typ, size), HEADER)
    ensures header[..] == Written(seq(HEADER, _ => 0), Fields(name, typ, size)[..6])
  {
    hide Written;
    hide Patch;
    hide Octal;
    ghost var z, fields := seq(HEADER, _ => 0), Fields(name, typ, size);
    FieldsAreOk(name, typ, size);
    WrittenNone(z, fields);
    Pow8Values();
    OctalZero(7);
    WrittenStep(z, fields, 0);
    StrLcpy(header, NAME, 100, name);
    WrittenStep(z, fields, 1);
    PutOctal(header, MODE, 7, if typ == REGULAR then 420 else 493);
    WrittenStep(z, fields, 2);
    StrLcpy(header, UID, 8, Dup(48, 7));
    WrittenStep(z, fields, 3);
    StrLcpy(header, GID, 8, Dup(48, 7));
    WrittenStep(z, fields, 4);
    PutOctal(header, SIZE, 11, Unsigned(size));
    WrittenStep(z, fields, 5);
    PutOctal(header, MTIME, 11, MTIME_2006);
  }

  /** The fields behind the checksum. */
  method FillStrings(header: array<Byte>, name: seq<Byte>, typ: Byte, size: int)
    requires header.Length == HEADER && |name| <= 99 && -0x8000_0000 <= size <= INT_MAX
    requires FieldsOk(Fields(name, typ, size), HEADER)
    requires header[..] == Written(seq(HEADER, _ => 0), Fields(name, typ, size)[..6])
    modifies header
    ensures header[..] == Body(name, typ, size)
  {
    hide Written;
    hide Patch;
    hide Octal;
    ghost var z, fields := seq(HEADER, _ => 0), Fields(name, typ, size);
    WrittenStep(z, fields, 6);
    PutBytes(header, TYPEFLAG, [typ]);
    WrittenStep(z, fields, 7);
    StrLcpy(header, MAGIC, 6, USTAR[..5]);
    assert USTAR[..5] + [0] == USTAR;
    WrittenStep(z, fields, 8);
    PutBytes(header, VERSION, [48, 48]);
    WrittenStep(z, fields, 9);
    StrLcpy(header, GNAME, 32, ROOT[..4]);
    assert ROOT[..4] + [0] == ROOT;
    WrittenStep(z, fields, 10);
    StrLcpy(header, UNAME, 32, ROOT[..4]);
    assert fields[..11] == fields;
  }

  /** ustar_make_header. */
  method MakeHeader(fileName: seq<Byte>, typ: Byte, size: int, header: array<Byte>) returns (ok: bool)
    requires header.Length == HEADER && -0x8000_0000 <= size <= INT_MAX && (typ == REGULAR || typ == DIRECTORY)
    modifies header
    ensures ok <==> Make(fileName, typ, size).Some?
    ensures ok ==> header[..] == Make(fileName, typ, size).value
    ensures !ok ==> header[..] == old(header[..])
  {
    hide Body;
    hide Sum;
    hide Patch;
    hide Octal;
    var name := StripPrefixes(fileName);
    if |name| > 99 {
      return false;
    }
    ClearAll(header);
    FillNumbers(header, name, typ, size);
    FillStrings(header, name, typ, size);
    var chksum := CalculateChksum(header);
    SumBound(header[..]);
    Pow8Values();
    PutOctal(header, CHKSUM, 7, chksum);
    return true;
  }

  /** is_all_zeros. */
  method IsAllZeros(h: seq<Byte>) returns (r: bool)
    ensures r <==> AllZeros(h)
  {
    var i := 0;
    while i < |h|
      invariant 0 <= i <= |h| && AllZeros(h[..i])
    {
      if h[i] != 0 {
        return false;
      }
      assert h[..i + 1] == h[..i] + [h[i]];
      i := i + 1;
    }
    assert h[..i] == h;
    return true;
  }

  /** ustar_parse_header. */
  method ParseHeader(header: array<Byte>) returns (r: Result)
    requires header.Length == HEADER
    ensures r == Parse(header[..])
  {
    hide ParseOctal;
    hide Sum;
    hide CString;
    hide Strip;
    ghost var h: HeaderBytes := header[..];
    var zeros := IsAllZeros(header[..]);
    if zeros {
      return EndOfArchive;
    }
    var chksumOk, chksum := ParseOctalField(header[CHKSUM..CHKSUM + 8]);
    var sum := CalculateChksum(header);
    var sizeOk, sizeUl := ParseOctalField(header[SIZE..SIZE + 12]);
    ArraySlice(header, CHKSUM, 8);
    ArraySlice(header, SIZE, 12);
    ArraySlice(header, MAGIC, 6);
    ArraySlice(header, NAME, 100);
    if header[MAGIC..MAGIC + 6] != USTAR {
      return Failure(NotUstar);
    } else if header[VERSION] != 48 || header[VERSION + 1] != 48 {
      return Failure(BadVersion);
    } else if !chksumOk {
      return Failure(CorruptChksum);
    } else if chksum != sum {
      return Failure(ChecksumMismatch);
    } else if header[NAME + 99] != 0 || header[PREFIX] != 0 {
      return Failure(NameTooLong);
    } else if header[TYPEFLAG] != REGULAR && header[TYPEFLAG] != DIRECTORY {
      return Failure(BadType);
    }
    if header[TYPEFLAG] == REGULAR {
      if !sizeOk {
        return Failure(CorruptSize);
      } else if sizeUl > INT_MAX {
        return Failure(TooLarge);
      }
    } else {
      sizeUl := 0;
    }
    var name := StripPrefixes(CString(header[NAME..NAME + 100]));
    return File(name, header[TYPEFLAG], sizeUl);
  }

  lemma ArraySlice(header: array<Byte>, lo: nat, n: nat)
    requires lo + n <= header.Length
    ensures header[lo..lo + n] == header[..][lo..lo + n]
  {
  }
}
