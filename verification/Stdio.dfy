/** Integer conversions of printf (format_integer, output_dup and vsnprintf in
    src/lib/stdio.c). */
module Stdio {
  import opened Common
  import Arithmetic

  datatype Flags = Flags(minus: bool, plus: bool, space: bool, pound: bool, zero: bool, group: bool)

  /** struct printf_conversion; precision below zero means none was given. */
  datatype Conversion = Conversion(flags: Flags, width: nat, precision: int)

  /** struct integer_base. */
  datatype Base = Base(base: nat, digits: seq<Byte>, x: Byte, group: nat)

  predicate BaseOk(b: Base) {
    8 <= b.base == |b.digits| && b.group > 0
  }

  const BUF := 64
  const LIMIT64 := 0x1_0000_0000_0000_0000

  function BaseOctal(): Base { Base(8, [48, 49, 50, 51, 52, 53, 54, 55], 0, 3) }

  /** The digits of value, least significant first, with the group separators. */
  function Digits(value: nat, b: Base, grouped: bool, cnt: nat): seq<Byte>
    requires BaseOk(b)
    decreases value
  {
    if value == 0 then []
    else
      (if grouped && cnt > 0 && cnt % b.group == 0 then [44] else [])
      + [b.digits[value % b.base]] + Digits(value / b.base, b, grouped, cnt + 1)
  }

  /** 8 to the power k. */
  function Pow8(k: nat): nat { if k == 0 then 1 else 8 * Pow8(k - 1) }

  lemma DivSmaller(value: nat, base: nat, p: nat)
    requires value < 8 * p && base >= 8
    ensures value / base < p
  {
    var q := value / base;
    MulAtLeast(base, q);
    assert base * q <= value;
  }

  lemma MulAtLeast(base: nat, q: nat)
    requires base >= 8
    ensures base * q >= 8 * q
  {
    assert (base - 8) * q >= 0;
  }

  lemma DigitsStep(value: nat, b: Base, grouped: bool, cnt: nat)
    requires BaseOk(b) && value > 0
    ensures value / b.base < value
    ensures Digits(value, b, grouped, cnt)
            == Piece(value, b, grouped, cnt) + Digits(value / b.base, b, grouped, cnt + 1)
  {
    DivSmaller(value, b.base, value);
  }

  /** One digit, behind its separator if one is due. */
  function Piece(value: nat, b: Base, grouped: bool, cnt: nat): seq<Byte>
    requires BaseOk(b)
  {
    (if grouped && cnt > 0 && cnt % b.group == 0 then [44] else []) + [b.digits[value % b.base]]
  }

  /** A value below 8^k has at most k digits and as many separators. */
  lemma {:induction false} DigitsFit(value: nat, b: Base, grouped: bool, cnt: nat, k: nat)
    requires BaseOk(b) && value < Pow8(k)
    ensures |Digits(value, b, grouped, cnt)| <= 2 * k
    decreases k
  {
    if value > 0 {
      DivSmaller(value, b.base, Pow8(k - 1));
      DigitsFit(value / b.base, b, grouped, cnt + 1, k - 1);
    }
  }

  function Dup(ch: Byte, cnt: nat): (s: seq<Byte>)
    ensures |s| == cnt
  {
    seq(cnt, _ => ch)
  }

  function Reversed(s: seq<Byte>): (r: seq<Byte>)
    ensures |r| == |s|
  {
    seq(|s|, i requires 0 <= i < |s| => s[|s| - 1 - i])
  }

  /** The digits with the zeros that the precision and the # flag ask for. */
  function Padded(d: seq<Byte>, b: Base, c: Conversion): (r: seq<Byte>) {
    var precision := if c.precision < 0 then 1 else c.precision;
    var p := d + Dup(48, if |d| < Min(precision, BUF - 1) then Min(precision, BUF - 1) - |d| else 0);
    if c.flags.pound && b.base == 8 && (p == [] || p[|p| - 1] != 48) then p + [48] else p
  }

  function Sign(isSigned: bool, negative: bool, c: Conversion): seq<Byte> {
    if !isSigned then []
    else if c.flags.plus then [if negative then 45 else 43]
    else if c.flags.space then [if negative then 45 else 32]
    else if negative then [45]
    else []
  }

  function Prefix(value: nat, b: Base, c: Conversion): seq<Byte> {
    if c.flags.pound && value > 0 && b.x != 0 then [48, b.x] else []
  }

  /** What format_integer prints. */
  function Rendered(value: nat, isSigned: bool, negative: bool, b: Base, c: Conversion): seq<Byte>
    requires BaseOk(b)
  {
    var body := Padded(Digits(value, b, c.flags.group, 0), b, c);
    var sign, x := Sign(isSigned, negative, c), Prefix(value, b, c);
    var fill := c.width - |body| - |x| - |sign|;
    var pad := if fill < 0 then 0 else fill;
    [] + Pad(!c.flags.minus && !c.flags.zero, 32, pad) + sign + x + Pad(c.flags.zero, 48, pad) + Reversed(body)
    + Pad(c.flags.minus, 32, pad)
  }

  function Pad(wanted: bool, ch: Byte, cnt: nat): seq<Byte> {
    if wanted then Dup(ch, cnt) else []
  }

  /** output_dup. */
  method OutputDup(out: seq<Byte>, ch: Byte, cnt: nat) returns (r: seq<Byte>)
    ensures r == out + Dup(ch, cnt)
  {
    r := out;
    var n := cnt;
    while n > 0
      invariant 0 <= n <= cnt && r == out + Dup(ch, cnt - n)
    {
      r := r + [ch];
      n := n - 1;
    }
  }

  method OutputPad(out: seq<Byte>, wanted: bool, ch: Byte, cnt: nat) returns (r: seq<Byte>)
    ensures r == out + Pad(wanted, ch, cnt)
  {
    r := out;
    if wanted {
      r := OutputDup(out, ch, cnt);
    }
  }

  method PutDigit(buf: array<Byte>, at: nat, v: nat, b: Base, grouped: bool, digitCnt: nat) returns (cp: nat)
    requires BaseOk(b) && at + 2 <= buf.Length
    modifies buf
    ensures cp <= buf.Length && buf[..cp] == old(buf[..at]) + Piece(v, b, grouped, digitCnt)
  {
    cp := at;
    if grouped && digitCnt > 0 && digitCnt % b.group == 0 {
      buf[cp] := 44;
      cp := cp + 1;
    }
    buf[cp] := b.digits[v % b.base];
    cp := cp + 1;
  }

  /** The digit loop: fills the buffer from its start. */
  method Accumulate(buf: array<Byte>, value: nat, b: Base, grouped: bool) returns (cp: nat)
    requires BaseOk(b) && value < LIMIT64 && buf.Length == BUF
    modifies buf
    ensures cp <= 44 && buf[..cp] == Digits(value, b, grouped, 0)
  {
    hide Digits;
    hide Piece;
    ghost var all := Digits(value, b, grouped, 0);
    DigitsBound(value, b, grouped);
    cp := 0;
    var v: nat, digitCnt: nat := value, 0;
    while v > 0
      invariant cp + |Digits(v, b, grouped, digitCnt)| == |all| <= 44
      invariant buf[..cp] + Digits(v, b, grouped, digitCnt) == all
      decreases v
    {
      DigitsStep(v, b, grouped, digitCnt);
      ghost var before, piece := buf[..cp], Piece(v, b, grouped, digitCnt);
      ghost var rest := Digits(v / b.base, b, grouped, digitCnt + 1);
      PieceNonempty(v, b, grouped, digitCnt);
      cp := PutDigit(buf, cp, v, b, grouped, digitCnt);
      v, digitCnt := v / b.base, digitCnt + 1;
      assert (before + piece) + rest == before + (piece + rest);
    }
    DigitsNone(b, grouped, digitCnt);
  }

  lemma DigitsBound(value: nat, b: Base, grouped: bool)
    requires BaseOk(b) && value < LIMIT64
    ensures |Digits(value, b, grouped, 0)| <= 44
  {
    Pow8Values();
    DigitsFit(value, b, grouped, 0, 22);
  }

  lemma PieceNonempty(value: nat, b: Base, grouped: bool, cnt: nat)
    requires BaseOk(b)
    ensures |Piece(value, b, grouped, cnt)| >= 1
  {
  }

  lemma DigitsNone(b: Base, grouped: bool, cnt: nat)
    requires BaseOk(b)
    ensures Digits(0, b, grouped, cnt) == []
  {
  }

  lemma Pow8Values()
    ensures Pow8(22) == 0x4_0000_0000_0000_0000 && Pow8(7) == 0x20_0000 && Pow8(11) == 0x2_0000_0000
  {
    assert Pow8(4) == 4096;
    assert Pow8(7) == 0x20_0000;
    assert Pow8(11) == 0x2_0000_0000;
    assert Pow8(15) == 0x2000_0000_0000;
    assert Pow8(19) == 0x200_0000_0000_0000;
  }

  /** The zeros behind the digits. */
  method PadDigits(buf: array<Byte>, start: nat, b: Base, c: Conversion) returns (cp: nat)
    requires buf.Length == BUF && start <= 44
    modifies buf
    ensures cp <= BUF && buf[..cp] == Padded(old(buf[..start]), b, c)
  {
    ghost var d := buf[..start];
    var precision := if c.precision < 0 then 1 else c.precision;
    cp := start;
    while cp < precision && cp < BUF - 1
      invariant start <= cp <= BUF - 1 && (cp > start ==> cp <= precision)
      invariant buf[..cp] == d + Dup(48, cp - start)
      decreases precision - cp
    {
      buf[cp] := 48;
      cp := cp + 1;
    }
    if c.flags.pound && b.base == 8 && (cp == 0 || buf[cp - 1] != 48) {
      ghost var p := buf[..cp];
      assert cp > 0 ==> p[|p| - 1] == buf[cp - 1];
      buf[cp] := 48;
      cp := cp + 1;
      assert buf[..cp] == p + [48];
    } else {
      assert cp > 0 ==> buf[..cp][cp - 1] == buf[cp - 1];
    }
  }

  /** The buffer, last character first. */
  method OutputReversed(out: seq<Byte>, buf: array<Byte>, n: nat) returns (r: seq<Byte>)
    requires n <= buf.Length
    ensures r == out + Reversed(buf[..n])
  {
    ghost var body := Reversed(buf[..n]);
    r := out;
    var cp := n;
    while cp > 0
      invariant 0 <= cp <= n && r == out + body[..n - cp]
    {
      cp := cp - 1;
      r := r + [buf[cp]];
      assert body[..n - cp] == body[..n - cp - 1] + [body[n - cp - 1]];
    }
    assert body[..n] == body;
  }

  /** format_integer. */
  method FormatInteger(value: nat, isSigned: bool, negative: bool, b: Base, c: Conversion) returns (out: seq<Byte>)
    requires BaseOk(b) && value < LIMIT64
    ensures out == Rendered(value, isSigned, negative, b, c)
  {
    hide Digits;
    hide Padded;
    hide Reversed;
    hide Pad;
    hide Sign;
    hide Prefix;
    var sign := Sign(isSigned, negative, c);
    var x := Prefix(value, b, c);
    var buf := new Byte[BUF];
    var cp := Accumulate(buf, value, b, c.flags.group);
    cp := PadDigits(buf, cp, b, c);
    ghost var body := buf[..cp];
    var padCnt := c.width - cp - |x| - |sign|;
    if padCnt < 0 {
      padCnt := 0;
    }
    out := OutputPad([], !c.flags.minus && !c.flags.zero, 32, padCnt);
    out := out + sign + x;
    out := OutputPad(out, c.flags.zero, 48, padCnt);
    out := OutputReversed(out, buf, cp);
    out := OutputPad(out, c.flags.minus, 32, padCnt);
  }

  // ----- reading the text back

  function BaseDecimal(): Base { Base(10, [48, 49, 50, 51, 52, 53, 54, 55, 56, 57], 0, 3) }

  function BaseHex(): Base {
    Base(16, [48, 49, 50, 51, 52, 53, 54, 55, 56, 57, 97, 98, 99, 100, 101, 102], 120, 4)
  }

  /** The digits of b can be told from each other and from everything else that is printed:
      space, comma and the two signs come before the digits in ASCII. */
  ghost predicate Legible(b: Base) {
    && BaseOk(b) && b.digits[0] == 48
    && (forall i, j :: 0 <= i < j < |b.digits| ==> b.digits[i] != b.digits[j])
    && (forall i :: 0 <= i < |b.digits| ==> b.digits[i] > 45 && b.digits[i] != b.x)
    && (b.x == 0 || b.x > 45)
  }

  lemma DecimalLegible()
    ensures Legible(BaseDecimal())
  {
    assert forall i :: 0 <= i < 10 ==> BaseDecimal().digits[i] == 48 + i;
  }

  lemma OctalLegible()
    ensures Legible(BaseOctal())
  {
    assert forall i :: 0 <= i < 8 ==> BaseOctal().digits[i] == 48 + i;
  }

  lemma HexLegible()
    ensures Legible(BaseHex())
  {
    assert forall i :: 0 <= i < 16 ==> BaseHex().digits[i] == if i < 10 then 48 + i else 87 + i;
  }

  /** The bases of %d, %o and %x. */
  lemma BasesLegible()
    ensures Legible(BaseDecimal()) && Legible(BaseOctal()) && Legible(BaseHex())
  {
    hide Legible;
    DecimalLegible();
    OctalLegible();
    HexLegible();
  }

  /** Where a digit stands in the table of digits. */
  function IndexIn(d: seq<Byte>, ch: Byte): (i: nat)
    requires ch in d
    ensures i < |d| && d[i] == ch
  {
    if d[0] == ch then 0 else 1 + IndexIn(d[1..], ch)
  }

  /** The number a text spells in base b, read from the left; what is not a digit is passed
      over. */
  function ValueOf(s: seq<Byte>, b: Base): nat {
    if s == [] then 0
    else
      var ch, v := s[|s| - 1], ValueOf(s[..|s| - 1], b);
      if ch in b.digits then v * b.base + IndexIn(b.digits, ch) else v
  }

  lemma ValueSnoc(s: seq<Byte>, ch: Byte, b: Base)
    ensures ValueOf(s + [ch], b)
            == if ch in b.digits then ValueOf(s, b) * b.base + IndexIn(b.digits, ch) else ValueOf(s, b)
  {
    assert (s + [ch])[..|s|] == s;
  }

  /** Leading characters that are zeros or no digits change nothing. */
  lemma {:induction false} ValueFront(p: seq<Byte>, s: seq<Byte>, b: Base)
    requires Legible(b) && forall i :: 0 <= i < |p| ==> p[i] == 48 || p[i] !in b.digits
    ensures ValueOf(p + s, b) == ValueOf(s, b)
  {
    if s != [] {
      var n := |s| - 1;
      ValueFront(p, s[..n], b);
      assert p + s == (p + s[..n]) + [s[n]];
      ValueSnoc(p + s[..n], s[n], b);
    } else if p != [] {
      var n := |p| - 1;
      ValueFront(p[..n], [], b);
      assert p + s == p && p[..n] + [] == p[..n] && p == p[..n] + [p[n]];
      ValueSnoc(p[..n], p[n], b);
      if p[n] == 48 { DigitIndex(b, 0); }
    }
  }

  lemma {:induction false} ValueBack(s: seq<Byte>, p: seq<Byte>, b: Base)
    requires forall i :: 0 <= i < |p| ==> p[i] !in b.digits
    ensures ValueOf(s + p, b) == ValueOf(s, b)
  {
    if p == [] {
      assert s + p == s;
    } else {
      var n := |p| - 1;
      ValueBack(s, p[..n], b);
      assert s + p == (s + p[..n]) + [p[n]];
      ValueSnoc(s + p[..n], p[n], b);
    }
  }

  lemma DigitIndex(b: Base, i: nat)
    requires Legible(b) && i < |b.digits|
    ensures b.digits[i] in b.digits && IndexIn(b.digits, b.digits[i]) == i
  {
    var j := IndexIn(b.digits, b.digits[i]);
    assert b.digits[j] == b.digits[i];
  }

  /** The digits, turned around, spell the value. */
  lemma {:induction false} DigitsSpell(value: nat, b: Base, grouped: bool, cnt: nat)
    requires Legible(b)
    ensures ValueOf(Reversed(Digits(value, b, grouped, cnt)), b) == value
    decreases value
  {
    hide Legible;
    hide Digits;
    hide Piece;
    hide Reversed;
    hide ValueOf;
    hide IndexIn;
    LegibleFacts(b);
    if value == 0 {
      DigitsNone(b, grouped, cnt);
      NothingSpelt(b);
    } else {
      DigitsStep(value, b, grouped, cnt);
      var rest := Digits(value / b.base, b, grouped, cnt + 1);
      DigitsSpell(value / b.base, b, grouped, cnt + 1);
      PieceSpells(value, b, grouped, cnt, rest);
      Arithmetic.DivBounds(value, b.base);
    }
  }

  lemma LegibleFacts(b: Base)
    requires Legible(b)
    ensures BaseOk(b) && 32 !in b.digits && 43 !in b.digits && 44 !in b.digits && 45 !in b.digits && b.x !in b.digits
  {
  }

  lemma NothingSpelt(b: Base)
    ensures ValueOf(Reversed([]), b) == 0
  {
  }

  /** One more digit in front of the rest is the last of the text. */
  lemma PieceSpells(value: nat, b: Base, grouped: bool, cnt: nat, rest: seq<Byte>)
    requires Legible(b)
    ensures ValueOf(Reversed(Piece(value, b, grouped, cnt) + rest), b)
            == ValueOf(Reversed(rest), b) * b.base + value % b.base
  {
    hide Legible;
    hide Piece;
    hide Reversed;
    hide ValueOf;
    LegibleFacts(b);
    var r, digit := Reversed(rest), b.digits[value % b.base];
    DigitIndex(b, value % b.base);
    ValueSnoc(r, digit, b);
    ValueSnoc(r + [digit], 44, b);
    ReversedPiece(value, b, grouped, cnt, rest);
  }

  lemma ReversedPiece(value: nat, b: Base, grouped: bool, cnt: nat, rest: seq<Byte>)
    requires BaseOk(b)
    ensures var digit := b.digits[value % b.base];
            Reversed(Piece(value, b, grouped, cnt) + rest)
            == if grouped && cnt > 0 && cnt % b.group == 0 then Reversed(rest) + [digit] + [44]
               else Reversed(rest) + [digit]
  {
  }

  /** Zeros for the precision and the # flag are leading zeros of the text. */
  lemma PaddedZeros(d: seq<Byte>, b: Base, c: Conversion) returns (k: nat)
    ensures Padded(d, b, c) == d + Dup(48, k) && Reversed(Padded(d, b, c)) == Dup(48, k) + Reversed(d)
    ensures |d| + k >= Min(if c.precision < 0 then 1 else c.precision, BUF - 1)
    ensures c.flags.pound && b.base == 8 ==> |d| + k > 0 && (d + Dup(48, k))[|d| + k - 1] == 48
    ensures |d| + k <= if |d| < Min(if c.precision < 0 then 1 else c.precision, BUF - 1)
                       then Min(if c.precision < 0 then 1 else c.precision, BUF - 1) + (if c.flags.pound then 1 else 0)
                       else |d| + (if c.flags.pound then 1 else 0)
  {
    k := |Padded(d, b, c)| - |d|;
  }

  /** Whatever flags, width and precision are given, the digits of the text spell the value
      in the base, and a minus sign is there if and only if a negative number is
      converted as signed: read back, the text is the number. */
  lemma ReadBack(value: nat, isSigned: bool, negative: bool, b: Base, c: Conversion)
    requires Legible(b)
    ensures var text := Rendered(value, isSigned, negative, b, c);
            ValueOf(text, b) == value && (45 in text <==> isSigned && negative)
  {
    hide Legible;
    hide Rendered;
    hide Digits;
    hide Reversed;
    hide ValueOf;
    LegibleFacts(b);
    var d := Digits(value, b, c.flags.group, 0);
    var left, sign, x, zeros, right := Parts(value, isSigned, negative, b, c);
    var front := left + sign + x + zeros;
    FrontHarmless(left, sign, x, zeros, b);
    ValueBack(front + Reversed(d), right, b);
    ValueFront(front, Reversed(d), b);
    DigitsSpell(value, b, c.flags.group, 0);
    DigitsPlain(value, b, c.flags.group, 0);
    ReversedMembers(d);
    MinusWhere(left, sign, x, zeros, Reversed(d), right);
  }

  lemma MinusWhere(left: seq<Byte>, sign: seq<Byte>, x: seq<Byte>, zeros: seq<Byte>, d: seq<Byte>, right: seq<Byte>)
    requires 45 !in left && 45 !in x && 45 !in zeros && 45 !in d && 45 !in right
    ensures 45 in left + sign + x + zeros + d + right <==> 45 in sign
  {
  }

  /** The text taken apart: spaces, sign, prefix, zeros, the digits of the value, spaces. */
  lemma Parts(value: nat, isSigned: bool, negative: bool, b: Base, c: Conversion)
    returns (left: seq<Byte>, sign: seq<Byte>, x: seq<Byte>, zeros: seq<Byte>, right: seq<Byte>)
    requires Legible(b)
    ensures Rendered(value, isSigned, negative, b, c)
            == left + sign + x + zeros + Reversed(Digits(value, b, c.flags.group, 0)) + right
    ensures (forall i :: 0 <= i < |left| ==> left[i] == 32) && (forall i :: 0 <= i < |right| ==> right[i] == 32)
    ensures forall i :: 0 <= i < |zeros| ==> zeros[i] == 48
    ensures SignIs(sign, isSigned, negative, c.flags)
    ensures x == [] || (x == [48, b.x] && b.x > 45)
  {
    hide Digits;
    hide Padded;
    hide Reversed;
    hide Rendered;
    hide Sign;
    hide Prefix;
    hide Pad;
    hide Legible;
    LegibleFacts(b);
    var d := Digits(value, b, c.flags.group, 0);
    var k := PaddedZeros(d, b, c);
    SignFacts(value, isSigned, negative, b, c);
    PrefixPlain(value, b, c);
    sign, x := Sign(isSigned, negative, c), Prefix(value, b, c);
    var digits := Reversed(Padded(d, b, c));
    var pad := PadCount(c, sign, x, digits);
    RenderedIs(value, isSigned, negative, b, c);
    left, right := Pad(!c.flags.minus && !c.flags.zero, 32, pad), Pad(c.flags.minus, 32, pad);
    zeros := Pad(c.flags.zero, 48, pad) + Dup(48, k);
    PadsAre(32, pad);
    PadsAre(48, pad);
    Regroup(left + sign + x, Pad(c.flags.zero, 48, pad), Dup(48, k), Reversed(d));
  }

  lemma PadsAre(ch: Byte, cnt: nat)
    ensures forall wanted, i :: 0 <= i < |Pad(wanted, ch, cnt)| ==> Pad(wanted, ch, cnt)[i] == ch
  {
  }

  lemma PrefixPlain(value: nat, b: Base, c: Conversion)
    requires Legible(b)
    ensures var x := Prefix(value, b, c); x == [] || (x == [48, b.x] && b.x > 45)
  {
  }

  function PadCount(c: Conversion, sign: seq<Byte>, x: seq<Byte>, digits: seq<Byte>): nat {
    if c.width > |sign + x + digits| then c.width - |sign + x + digits| else 0
  }

  lemma RenderedIs(value: nat, isSigned: bool, negative: bool, b: Base, c: Conversion)
    requires BaseOk(b)
    ensures var sign, x := Sign(isSigned, negative, c), Prefix(value, b, c);
            var digits := Reversed(Padded(Digits(value, b, c.flags.group, 0), b, c));
            var pad := PadCount(c, sign, x, digits);
            Rendered(value, isSigned, negative, b, c)
            == Pad(!c.flags.minus && !c.flags.zero, 32, pad) + sign + x + Pad(c.flags.zero, 48, pad) + digits
               + Pad(c.flags.minus, 32, pad)
  {
    hide Digits;
    hide Padded;
    hide Reversed;
    hide Sign;
    hide Prefix;
    hide Pad;
    var sign, x := Sign(isSigned, negative, c), Prefix(value, b, c);
    var digits := Reversed(Padded(Digits(value, b, c.flags.group, 0), b, c));
    assert |sign + x + digits| == |sign| + |x| + |digits|;
    var left := Pad(!c.flags.minus && !c.flags.zero, 32, PadCount(c, sign, x, digits));
    assert [] + left == left;
  }

  lemma Regroup(a: seq<Byte>, b: seq<Byte>, c: seq<Byte>, d: seq<Byte>)
    ensures a + b + (c + d) == a + (b + c) + d
  {
  }

  lemma FrontHarmless(left: seq<Byte>, sign: seq<Byte>, x: seq<Byte>, zeros: seq<Byte>, b: Base)
    requires Legible(b)
    requires (forall i :: 0 <= i < |left| ==> left[i] == 32) && (forall i :: 0 <= i < |zeros| ==> zeros[i] == 48)
    requires (forall i :: 0 <= i < |sign| ==> sign[i] <= 45) && (x == [] || x == [48, b.x])
    ensures var front := left + sign + x + zeros;
            forall i :: 0 <= i < |front| ==> front[i] == 48 || front[i] !in b.digits
  {
    forall ch: Byte | ch in b.digits ensures ch > 45 && ch != b.x {
    }
  }

  lemma ReversedMembers(s: seq<Byte>)
    ensures forall ch :: ch in Reversed(s) <==> ch in s
  {
    var r := Reversed(s);
    forall ch | ch in s ensures ch in r {
      var i :| 0 <= i < |s| && s[i] == ch;
      assert r[|s| - 1 - i] == ch;
    }
  }

  lemma {:induction false} DigitsPlain(value: nat, b: Base, grouped: bool, cnt: nat)
    requires Legible(b)
    ensures 45 !in Digits(value, b, grouped, cnt)
    decreases value
  {
    hide Digits;
    hide Legible;
    LegibleFacts(b);
    if value == 0 {
      DigitsNone(b, grouped, cnt);
    } else {
      DigitsStep(value, b, grouped, cnt);
      DigitsPlain(value / b.base, b, grouped, cnt + 1);
      assert b.digits[value % b.base] in b.digits;
    }
  }

  /** How many digits stand behind the last separator when cnt have been written. */
  function SinceComma(cnt: nat, group: nat): nat
    requires group > 0
  {
    if cnt == 0 then 0 else (cnt - 1) % group + 1
  }

  /** Separators stand after every `group` digits, counted from the least significant one,
      and nowhere else; without the flag there are none. */
  lemma {:induction false} GroupsMarked(value: nat, b: Base, grouped: bool, cnt: nat, j: nat)
    requires Legible(b) && j < |Digits(value, b, grouped, cnt)|
    ensures Digits(value, b, grouped, cnt)[j] == 44 <==>
            grouped && (j + SinceComma(cnt, b.group)) % (b.group + 1) == b.group
    decreases value
  {
    hide Digits;
    hide Legible;
    hide SinceComma;
    LegibleFacts(b);
    DigitsNone(b, grouped, cnt);
    DigitsStep(value, b, grouped, cnt);
    var p, rest := Piece(value, b, grouped, cnt), Digits(value / b.base, b, grouped, cnt + 1);
    PieceMarked(value, b, grouped, cnt, j);
    CommaStep(cnt, b.group);
    if j >= |p| {
      GroupsMarked(value / b.base, b, grouped, cnt + 1, j - |p|);
      OneRound(j, b.group);
      assert (p + rest)[j] == rest[j - |p|];
    }
  }

  lemma PieceMarked(value: nat, b: Base, grouped: bool, cnt: nat, j: nat)
    requires Legible(b)
    ensures var p := Piece(value, b, grouped, cnt);
            && |p| == (if grouped && SinceComma(cnt, b.group) == b.group then 2 else 1)
            && (j < |p| ==> (p[j] == 44 <==> grouped && (j + SinceComma(cnt, b.group)) % (b.group + 1) == b.group))
  {
    hide SinceComma;
    CommaStep(cnt, b.group);
    var m := b.group + 1;
    ModOf(SinceComma(cnt, b.group), m, 0, SinceComma(cnt, b.group));
    ModOf(m, m, 1, 0);
    assert b.digits[value % b.base] > 45;
  }

  lemma CommaStep(cnt: nat, group: nat)
    requires group > 0
    ensures cnt > 0 && cnt % group == 0 <==> SinceComma(cnt, group) == group
    ensures SinceComma(cnt + 1, group) == if SinceComma(cnt, group) == group then 1 else SinceComma(cnt, group) + 1
    ensures SinceComma(cnt, group) <= group
  {
    if cnt > 0 { NextMod(cnt - 1, group); }
  }

  lemma NextMod(k: nat, m: nat)
    requires m > 0
    ensures (k + 1) % m == if k % m == m - 1 then 0 else k % m + 1
  {
    var q, r := k / m, k % m;
    if r == m - 1 {
      ModOf(k + 1, m, q + 1, 0);
    } else {
      ModOf(k + 1, m, q, r + 1);
    }
  }

  lemma ModOf(n: nat, m: nat, q: nat, r: nat)
    requires n == q * m + r && r < m
    ensures n % m == r
  {
    Arithmetic.DivUnique(n, m, q);
  }

  lemma OneRound(j: nat, group: nat)
    requires group > 0 && j >= 1
    ensures (j + group) % (group + 1) == (j - 1) % (group + 1)
  {
    var m := group + 1;
    var q, r := (j - 1) / m, (j - 1) % m;
    Arithmetic.MulNext(q, m);
    ModOf(j + group, m, q + 1, r);
  }

  /** The sign that a converted number gets. */
  ghost predicate SignIs(sign: seq<Byte>, isSigned: bool, negative: bool, f: Flags) {
    if !isSigned || (!negative && !f.plus && !f.space) then sign == []
    else sign == [if negative then 45 else if f.plus then 43 else 32]
  }

  /** The layout: without padding the text is sign, prefix and at least as many digits as
      the precision asks for, 63 at most; a zero in front for %#o; the prefix for %#x of a
      nonzero value.  Padding to the width goes in front, behind for the - flag, and
      as zeros between prefix and digits for the 0 flag; with both flags it is put in
      twice. */
  lemma Layout(value: nat, isSigned: bool, negative: bool, b: Base, c: Conversion)
    returns (sign: seq<Byte>, x: seq<Byte>, digits: seq<Byte>, pad: nat)
    requires BaseOk(b)
    ensures SignIs(sign, isSigned, negative, c.flags)
    ensures x == if c.flags.pound && value > 0 && b.x != 0 then [48, b.x] else []
    ensures |digits| >= Min(if c.precision < 0 then 1 else c.precision, BUF - 1)
    ensures c.flags.pound && b.base == 8 ==> digits != [] && digits[0] == 48
    ensures pad == if c.width > |sign + x + digits| then c.width - |sign + x + digits| else 0
    ensures Rendered(value, isSigned, negative, b, c.(width := 0)) == sign + x + digits
    ensures Rendered(value, isSigned, negative, b, c)
            == if c.flags.zero then sign + x + Dup(48, pad) + digits + (if c.flags.minus then Dup(32, pad) else [])
               else if c.flags.minus then sign + x + digits + Dup(32, pad)
               else Dup(32, pad) + sign + x + digits
  {
    hide Digits;
    hide Padded;
    hide Reversed;
    hide Rendered;
    hide Sign;
    hide Prefix;
    hide Pad;
    var d := Digits(value, b, c.flags.group, 0);
    var k := PaddedZeros(d, b, c);
    PaddedAnyWidth(d, b, c);
    FirstReversed(Padded(d, b, c));
    sign, x, digits := Sign(isSigned, negative, c), Prefix(value, b, c), Reversed(Padded(d, b, c));
    SignFacts(value, isSigned, negative, b, c);
    pad := PadCount(c, sign, x, digits);
    RenderedIs(value, isSigned, negative, b, c);
    RenderedIs(value, isSigned, negative, b, c.(width := 0));
    LaidOut(sign, x, digits, pad, c.flags);
    LaidOut(sign, x, digits, 0, c.flags);
  }

  lemma LaidOut(sign: seq<Byte>, x: seq<Byte>, digits: seq<Byte>, pad: nat, f: Flags)
    ensures Pad(!f.minus && !f.zero, 32, pad) + sign + x + Pad(f.zero, 48, pad) + digits + Pad(f.minus, 32, pad)
            == if f.zero then sign + x + Dup(48, pad) + digits + (if f.minus then Dup(32, pad) else [])
               else if f.minus then sign + x + digits + Dup(32, pad)
               else Dup(32, pad) + sign + x + digits
    ensures Pad(!f.minus && !f.zero, 32, 0) + sign + x + Pad(f.zero, 48, 0) + digits + Pad(f.minus, 32, 0)
            == sign + x + digits
  {
    assert [] + sign == sign;
    assert sign + x + [] == sign + x;
    assert sign + x + digits + [] == sign + x + digits;
    assert Dup(32, pad) + sign + x + digits + [] == Dup(32, pad) + sign + x + digits;
    assert Pad(!f.minus && !f.zero, 32, 0) == [] && Pad(f.zero, 48, 0) == [] && Pad(f.minus, 32, 0) == [];
  }

  lemma SignFacts(value: nat, isSigned: bool, negative: bool, b: Base, c: Conversion)
    ensures SignIs(Sign(isSigned, negative, c), isSigned, negative, c.flags)
    ensures Sign(isSigned, negative, c.(width := 0)) == Sign(isSigned, negative, c)
    ensures Prefix(value, b, c) == if c.flags.pound && value > 0 && b.x != 0 then [48, b.x] else []
    ensures Prefix(value, b, c.(width := 0)) == Prefix(value, b, c)
  {
  }

  lemma PaddedAnyWidth(d: seq<Byte>, b: Base, c: Conversion)
    ensures Padded(d, b, c.(width := 0)) == Padded(d, b, c)
  {
  }

  lemma FirstReversed(s: seq<Byte>)
    ensures s != [] ==> Reversed(s)[0] == s[|s| - 1]
  {
  }

  // ----- %0No

  /** The conversion %0No. */
  function ZeroPadded(width: nat): Conversion {
    Conversion(Flags(false, false, false, false, true, false), width, -1)
  }

  /** n in octal, exactly w digits. */
  function Octal(n: nat, w: nat): (s: seq<Byte>)
    ensures |s| == w
  {
    if w == 0 then [] else Octal(n / 8, w - 1) + [48 + n % 8]
  }

  lemma {:induction false} OctalZero(w: nat)
    ensures Octal(0, w) == Dup(48, w)
  {
    if w > 0 { OctalZero(w - 1); }
  }

  /** The digits reversed, with zeros in front, are the octal numeral. */
  lemma {:induction false} DigitsOctal(n: nat, cnt: nat, w: nat)
    requires n < Pow8(w)
    ensures var d := Digits(n, BaseOctal(), false, cnt);
            |d| <= w && Dup(48, w - |d|) + Reversed(d) == Octal(n, w)
    decreases w
  {
    var d := Digits(n, BaseOctal(), false, cnt);
    if n == 0 {
      OctalZero(w);
    } else {
      var rest := Digits(n / 8, BaseOctal(), false, cnt + 1);
      DigitsOctal(n / 8, cnt + 1, w - 1);
      var last := BaseOctal().digits[n % 8];
      assert d == [last] + rest && last == 48 + n % 8;
      assert Reversed(d) == Reversed(rest) + [last];
    }
  }

  /** A number that fits its field is printed as exactly that many octal digits. */
  lemma OctalRendered(n: nat, w: nat)
    requires n < Pow8(w) && w > 0
    ensures Rendered(n, false, false, BaseOctal(), ZeroPadded(w)) == Octal(n, w)
  {
    hide Digits;
    hide Octal;
    DigitsNone(BaseOctal(), false, 0);
    var d := Digits(n, BaseOctal(), false, 0);
    DigitsOctal(n, 0, w);
    if n > 0 { DigitsStep(n, BaseOctal(), false, 0); }
    if n == 0 {
      assert Padded(d, BaseOctal(), ZeroPadded(w)) == [48];
      OctalZero(w);
      assert Reversed([48]) == [48];
      assert Dup(48, w - 1) + [48] == Dup(48, w);
    } else {
      assert |d| >= 1;
      assert Padded(d, BaseOctal(), ZeroPadded(w)) == d;
    }
    var body := Padded(d, BaseOctal(), ZeroPadded(w));
    assert [] + [] + [] + [] + Dup(48, w - |body|) + Reversed(body) + [] == Dup(48, w - |body|) + Reversed(body);
  }

  /** vsnprintf_helper and vsnprintf: what a buffer of the given size receives. */
  function Clip(text: seq<Byte>, bufSize: nat): seq<Byte> {
    if bufSize == 0 then [] else (if |text| < bufSize then text else text[..bufSize - 1]) + [0]
  }

  /** vsnprintf into a buffer, character by character. */
  method Snprintf(buffer: array<Byte>, at: nat, bufSize: nat, text: seq<Byte>) returns (length: nat)
    requires at + bufSize <= buffer.Length
    modifies buffer
    ensures length == |text| && |Clip(text, bufSize)| <= bufSize
    ensures buffer[..] == Patch(old(buffer[..]), at, Clip(text, bufSize))
  {
    var maxLength := if bufSize > 0 then bufSize - 1 else 0;
    length := 0;
    var p := at;
    while length < |text|
      invariant 0 <= length <= |text| && p == at + Min(length, maxLength)
      invariant forall k :: 0 <= k < buffer.Length ==> buffer[k] == if at <= k < p then text[k - at] else old(buffer[k])
    {
      if length < maxLength {
        buffer[p] := text[length];
        p := p + 1;
      }
      length := length + 1;
    }
    if bufSize > 0 {
      buffer[p] := 0;
    }
  }
}
