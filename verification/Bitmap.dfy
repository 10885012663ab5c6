/** Bitmaps packed into 32-bit words (src/lib/kernel/bitmap.c), against plain
    sequences of bits. */
module Bitmaps {
  import opened Arithmetic
  import opened Bits
  import opened Common

  const ELEM_BITS := 32

  // ----- specification on bit sequences

  /** The cnt bits from i on are all `value`. */
  ghost predicate AllAre(s: seq<bool>, i: int, cnt: int, value: bool)
    requires 0 <= i && 0 <= cnt && i + cnt <= |s|
  {
    forall j :: i <= j < i + cnt ==> s[j] == value
  }

  /** s with cnt bits from i on set to `value`. */
  function Filled(s: seq<bool>, i: nat, cnt: nat, value: bool): seq<bool>
    requires i + cnt <= |s|
  {
    seq(|s|, j requires 0 <= j < |s| => if i <= j < i + cnt then value else s[j])
  }

  /** The result of bitmap_scan: the first group, or None for BITMAP_ERROR. */
  ghost predicate IsFirstFit(s: seq<bool>, start: nat, cnt: nat, value: bool, r: Option<nat>) {
    && (r.Some? ==>
          && start <= r.value && r.value + cnt <= |s|
          && AllAre(s, r.value, cnt, value)
          && forall i | start <= i < r.value :: !AllAre(s, i, cnt, value))
    && (r.None? ==> forall i | start <= i && i + cnt <= |s| :: !AllAre(s, i, cnt, value))
  }

  ghost function FirstFit(s: seq<bool>, start: nat, cnt: nat, value: bool): (r: Option<nat>)
    ensures r.Some? ==> start <= r.value && r.value + cnt <= |s|
    decreases |s| - start
  {
    if start + cnt > |s| then None
    else if AllAre(s, start, cnt, value) then Some(start)
    else if start == |s| then None
    else FirstFit(s, start + 1, cnt, value)
  }

  /** It is the least index with room, and None only when there is no room. */
  lemma {:induction false} FirstFitLeast(s: seq<bool>, start: nat, cnt: nat, value: bool)
    ensures IsFirstFit(s, start, cnt, value, FirstFit(s, start, cnt, value))
    decreases |s| - start
  {
    if start + cnt <= |s| && !AllAre(s, start, cnt, value) && start < |s| {
      FirstFitLeast(s, start + 1, cnt, value);
    }
  }

  lemma FirstFitUnique(s: seq<bool>, start: nat, cnt: nat, value: bool, r: Option<nat>)
    requires IsFirstFit(s, start, cnt, value, r)
    ensures r == FirstFit(s, start, cnt, value)
  {
    var f := FirstFit(s, start, cnt, value);
    FirstFitLeast(s, start, cnt, value);
    if r.Some? && f.Some? {
      assert !(r.value < f.value) && !(f.value < r.value);
    }
  }

  // ----- the packed form

  function ElemIdx(i: nat): nat { i / ELEM_BITS }
  function BitMask(i: nat): nat { Pow2(i % ELEM_BITS) }
  function ElemCnt(n: nat): nat { (n + ELEM_BITS - 1) / ELEM_BITS }
  function ByteCnt(n: nat): nat { 4 * ElemCnt(n) }

  predicate IsWord(w: nat) { w < Pow2(ELEM_BITS) }

  ghost predicate AllWords(ws: seq<nat>) {
    forall w :: 0 <= w < |ws| ==> IsWord(ws[w])
  }

  /** The bit sequence that packed words stand for. */
  ghost function Unpacked(ws: seq<nat>, n: nat): (s: seq<bool>)
    requires ElemCnt(n) <= |ws|
    ensures |s| == n
  {
    if n == 0 then [] else Unpacked(ws, n - 1) + [Bit(ws[ElemIdx(n - 1)], (n - 1) % ELEM_BITS)]
  }

  lemma {:induction false} UnpackedAt(ws: seq<nat>, n: nat, i: nat)
    requires ElemCnt(n) <= |ws| && i < n
    ensures Unpacked(ws, n)[i] == Bit(ws[ElemIdx(i)], i % ELEM_BITS)
  {
    if i < n - 1 { UnpackedAt(ws, n - 1, i); }
  }

  /** w' is w with bit k set to `value`. */
  ghost predicate OneBitSet(w: nat, w': nat, k: nat, value: bool) {
    forall j: nat :: j < ELEM_BITS ==> Bit(w', j) == if j == k then value else Bit(w, j)
  }

  /** A word update that changes one bit of the word changes one bit of the map. */
  lemma OneBit(ws: seq<nat>, w': nat, n: nat, i: nat, value: bool)
    requires |ws| == ElemCnt(n) && i < n
    requires OneBitSet(ws[ElemIdx(i)], w', i % ELEM_BITS, value)
    ensures Unpacked(ws[ElemIdx(i) := w'], n) == Unpacked(ws, n)[i := value]
  {
    var s, s' := Unpacked(ws, n)[i := value], Unpacked(ws[ElemIdx(i) := w'], n);
    forall j | 0 <= j < n ensures s'[j] == s[j] {
      UnpackedAt(ws, n, j);
      UnpackedAt(ws[ElemIdx(i) := w'], n, j);
    }
  }

  lemma MaskIsWord(i: nat)
    ensures IsWord(BitMask(i))
  {
    Pow2Mono(i % ELEM_BITS, ELEM_BITS);
  }

  /** The three read-modify-write operations on one word. */
  lemma WordOps(w: nat, i: nat)
    requires IsWord(w)
    ensures IsWord(BitMask(i))
    ensures IsWord(Or(w, BitMask(i))) && OneBitSet(w, Or(w, BitMask(i)), i % ELEM_BITS, true)
    ensures IsWord(And(w, Not(BitMask(i), ELEM_BITS)))
         && OneBitSet(w, And(w, Not(BitMask(i), ELEM_BITS)), i % ELEM_BITS, false)
    ensures IsWord(Xor(w, BitMask(i))) && OneBitSet(w, Xor(w, BitMask(i)), i % ELEM_BITS, !Bit(w, i % ELEM_BITS))
  {
    MaskIsWord(i);
    var m := BitMask(i);
    WordBounds(w, m, ELEM_BITS);
    WordBounds(w, Not(m, ELEM_BITS), ELEM_BITS);
    forall j: nat | j < ELEM_BITS
      ensures Bit(Or(w, m), j) == (j == i % ELEM_BITS || Bit(w, j))
      ensures Bit(And(w, Not(m, ELEM_BITS)), j) == (j != i % ELEM_BITS && Bit(w, j))
      ensures Bit(Xor(w, m), j) == ((j == i % ELEM_BITS) != Bit(w, j))
    {
      BitPow2(i % ELEM_BITS, j);
      BitOr(w, m, j);
      BitNot(m, ELEM_BITS, j);
      BitAnd(w, Not(m, ELEM_BITS), j);
      BitXor(w, m, j);
    }
  }

  class Bitmap {
    const bitCnt: nat
    const bits: array<nat>

    ghost predicate Valid()
      reads bits
    {
      bits.Length == ElemCnt(bitCnt) && AllWords(bits[..])
    }

    ghost function Value(): (s: seq<bool>)
      requires Valid()
      reads bits
      ensures |s| == bitCnt
    {
      Unpacked(bits[..], bitCnt)
    }

    /** bitmap_create, whose storage arrives uninitialised. */
    constructor (n: nat, storage: array<nat>)
      requires storage.Length == ElemCnt(n) && AllWords(storage[..])
      modifies storage
      ensures Valid() && bits == storage && bitCnt == n
      ensures Value() == seq(n, _ => false)
    {
      bitCnt := n;
      bits := storage;
      new;
      SetMultiple(0, n, false);
    }

    method Test(i: nat) returns (b: bool)
      requires Valid() && i < bitCnt
      ensures b == Value()[i]
    {
      AndPow2(bits[ElemIdx(i)], i % ELEM_BITS);
      UnpackedAt(bits[..], bitCnt, i);
      b := And(bits[ElemIdx(i)], BitMask(i)) != 0;
    }

    method Mark(i: nat)
      requires Valid() && i < bitCnt
      modifies bits
      ensures Valid() && Value() == old(Value())[i := true]
    {
      var idx, mask := ElemIdx(i), BitMask(i);
      WordOps(bits[idx], i);
      OneBit(bits[..], Or(bits[idx], mask), bitCnt, i, true);
      ghost var was := bits[..];
      bits[idx] := Or(bits[idx], mask);
      assert bits[..] == was[idx := Or(was[idx], mask)];
    }

    method Reset(i: nat)
      requires Valid() && i < bitCnt
      modifies bits
      ensures Valid() && Value() == old(Value())[i := false]
    {
      var idx, mask := ElemIdx(i), BitMask(i);
      WordOps(bits[idx], i);
      var w' := And(bits[idx], Not(mask, ELEM_BITS));
      OneBit(bits[..], w', bitCnt, i, false);
      ghost var was := bits[..];
      bits[idx] := w';
      assert bits[..] == was[idx := w'];
    }

    method Flip(i: nat)
      requires Valid() && i < bitCnt
      modifies bits
      ensures Valid() && Value() == old(Value())[i := !old(Value())[i]]
    {
      var idx, mask := ElemIdx(i), BitMask(i);
      WordOps(bits[idx], i);
      UnpackedAt(bits[..], bitCnt, i);
      OneBit(bits[..], Xor(bits[idx], mask), bitCnt, i, !Value()[i]);
      ghost var was := bits[..];
      bits[idx] := Xor(bits[idx], mask);
      assert bits[..] == was[idx := Xor(was[idx], mask)];
    }

    method Set(i: nat, value: bool)
      requires Valid() && i < bitCnt
      modifies bits
      ensures Valid() && Value() == old(Value())[i := value]
    {
      if value { Mark(i); } else { Reset(i); }
    }

    method SetMultiple(start: nat, cnt: nat, value: bool)
      requires Valid() && start + cnt <= bitCnt
      modifies bits
      ensures Valid() && Value() == Filled(old(Value()), start, cnt, value)
    {
      var i := 0;
      while i < cnt
        invariant 0 <= i <= cnt && Valid()
        invariant Value() == Filled(old(Value()), start, i, value)
      {
        Set(start + i, value);
        i := i + 1;
      }
    }

    /** bitmap_contains */
    method Contains(start: nat, cnt: nat, value: bool) returns (found: bool)
      requires Valid() && start + cnt <= bitCnt
      ensures found <==> !AllAre(Value(), start, cnt, !value)
    {
      var i := 0;
      while i < cnt
        invariant 0 <= i <= cnt
        invariant AllAre(Value(), start, i, !value)
      {
        var b := Test(start + i);
        if b == value {
          return true;
        }
        i := i + 1;
      }
      return false;
    }

    /** bitmap_scan */
    method Scan(start: nat, cnt: nat, value: bool) returns (r: Option<nat>)
      requires Valid() && start <= bitCnt
      ensures r == FirstFit(Value(), start, cnt, value)
    {
      r := None;
      if cnt <= bitCnt {
        var last := bitCnt - cnt;
        var i := start;
        while i <= last
          invariant start <= i
          invariant forall k | start <= k < i && k + cnt <= bitCnt :: !AllAre(Value(), k, cnt, value)
          decreases last + 1 - i
        {
          var bad := Contains(i, cnt, !value);
          if !bad {
            r := Some(i);
            break;
          }
          i := i + 1;
        }
      }
      FirstFitUnique(Value(), start, cnt, value, r);
    }

    /** bitmap_scan_and_flip */
    method ScanAndFlip(start: nat, cnt: nat, value: bool) returns (r: Option<nat>)
      requires Valid() && start <= bitCnt
      modifies bits
      ensures Valid() && r == FirstFit(old(Value()), start, cnt, value)
      ensures Value() == if r.Some? then Filled(old(Value()), r.value, cnt, !value) else old(Value())
    {
      r := Scan(start, cnt, value);
      if r.Some? {
        SetMultiple(r.value, cnt, !value);
      }
    }
  }
}
