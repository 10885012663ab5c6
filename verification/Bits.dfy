/** Bitwise operations on machine words, defined digit by digit. */
module Bits {
  import opened Arithmetic

  predicate Bit(x: nat, i: nat) {
    if i == 0 then x % 2 == 1 else Bit(x / 2, i - 1)
  }

  function Digit(b: bool): nat { if b then 1 else 0 }

  function And(x: nat, y: nat): nat {
    if x == 0 then 0 else Digit(x % 2 == 1 && y % 2 == 1) + 2 * And(x / 2, y / 2)
  }

  function Or(x: nat, y: nat): nat
    decreases x + y
  {
    if x + y == 0 then 0 else Digit(x % 2 == 1 || y % 2 == 1) + 2 * Or(x / 2, y / 2)
  }

  function Xor(x: nat, y: nat): nat
    decreases x + y
  {
    if x + y == 0 then 0 else Digit((x % 2 == 1) != (y % 2 == 1)) + 2 * Xor(x / 2, y / 2)
  }

  /** ~x on n bits */
  function Not(x: nat, n: nat): nat
    requires x < Pow2(n)
  {
    Pow2(n) - 1 - x
  }

  lemma {:induction i} BitOfZero(i: nat)
    ensures !Bit(0, i)
  {
  }

  lemma AndStep(x: nat, y: nat)
    ensures And(x, y) / 2 == And(x / 2, y / 2)
    ensures And(x, y) % 2 == 1 <==> x % 2 == 1 && y % 2 == 1
  {
  }

  lemma {:induction false} BitAnd(x: nat, y: nat, i: nat)
    ensures Bit(And(x, y), i) <==> Bit(x, i) && Bit(y, i)
  {
    AndStep(x, y);
    if i > 0 {
      BitAnd(x / 2, y / 2, i - 1);
    }
  }

  lemma {:induction false} BitOr(x: nat, y: nat, i: nat)
    ensures Bit(Or(x, y), i) <==> Bit(x, i) || Bit(y, i)
  {
    if x + y == 0 {
      BitOfZero(i);
    } else if i > 0 {
      BitOr(x / 2, y / 2, i - 1);
      assert Or(x, y) / 2 == Or(x / 2, y / 2);
    }
  }

  lemma {:induction false} BitXor(x: nat, y: nat, i: nat)
    ensures Bit(Xor(x, y), i) <==> Bit(x, i) != Bit(y, i)
  {
    if x + y == 0 {
      BitOfZero(i);
    } else if i > 0 {
      BitXor(x / 2, y / 2, i - 1);
      assert Xor(x, y) / 2 == Xor(x / 2, y / 2);
    }
  }

  lemma {:induction false} BitNot(x: nat, n: nat, i: nat)
    requires x < Pow2(n) && i < n
    ensures Bit(Not(x, n), i) <==> !Bit(x, i)
  {
    if i > 0 {
      BitNot(x / 2, n - 1, i - 1);
      assert Not(x, n) / 2 == Not(x / 2, n - 1);
    }
  }

  lemma {:induction false} BitPow2(k: nat, i: nat)
    ensures Bit(Pow2(k), i) <==> i == k
  {
    if k == 0 {
      if i > 0 { BitOfZero(i - 1); }
    } else if i > 0 {
      BitPow2(k - 1, i - 1);
    }
  }

  lemma {:induction false} Pow2Mono(a: nat, b: nat)
    requires a < b
    ensures 2 * Pow2(a) <= Pow2(b)
  {
    if a + 1 < b { Pow2Mono(a, b - 1); }
  }

  lemma {:induction false} WordBounds(x: nat, y: nat, n: nat)
    requires x < Pow2(n) && y < Pow2(n)
    ensures And(x, y) < Pow2(n) && Or(x, y) < Pow2(n) && Xor(x, y) < Pow2(n)
  {
    if n > 0 { WordBounds(x / 2, y / 2, n - 1); }
  }

  /** Masking with a single bit keeps that bit only. */
  lemma {:induction false} AndPow2(x: nat, k: nat)
    ensures And(x, Pow2(k)) == if Bit(x, k) then Pow2(k) else 0
  {
    if x == 0 {
      BitOfZero(k);
    } else if k == 0 {
      AndZero(x / 2);
    } else {
      AndPow2(x / 2, k - 1);
    }
  }

  lemma {:induction x} AndZero(x: nat)
    ensures And(x, 0) == 0
  {
  }

  /** Masking with 2^k - 1 is the remainder by 2^k. */
  lemma {:induction false} AndMask(x: nat, k: nat, p: int)
    requires p == Pow2(k)
    ensures And(x, p - 1) == x % p
  {
    if k == 0 {
      AndZero(x);
    } else {
      var h := Pow2(k - 1);
      AndMask(x / 2, k - 1, h);
      AndOdd(x, h - 1);
      HalfMod(x, h);
    }
  }

  lemma AndOdd(x: nat, y: nat)
    ensures And(x, 2 * y + 1) == x % 2 + 2 * And(x / 2, y)
  {
    AndStep(x, 2 * y + 1);
    assert (2 * y + 1) / 2 == y;
  }

  lemma HalfMod(x: nat, p: int)
    requires p >= 1
    ensures x % (2 * p) == x % 2 + 2 * (x / 2 % p)
  {
    var h := x / 2;
    var q, r := h / p, h % p;
    assert h == p * q + r;
    RemainderUnique(x, 2 * p, q, x % 2 + 2 * r) by {
      assert 2 * (p * q) == q * (2 * p);
    }
  }

  lemma RemainderUnique(x: int, d: int, q: int, r: int)
    requires 0 <= r < d && x == q * d + r
    ensures x % d == r
  {
    DivUnique(x, d, q);
    assert x == x / d * d + x % d;
  }

  /** x & (x - 1), which turns the lowest set bit off. */
  function TurnOffLeast1Bit(x: nat): nat
    requires x > 0
  {
    And(x, x - 1)
  }

  predicate IsPowerOf2(x: nat) {
    x != 0 && TurnOffLeast1Bit(x) == 0
  }

  /** Turning a bit off shrinks the number but never below its leading power of
      two. */
  lemma {:induction false} TurnOffKeepsLeading(x: nat, k: nat)
    requires Pow2(k) <= x < 2 * Pow2(k)
    ensures TurnOffLeast1Bit(x) < x
    ensures x == Pow2(k) ==> TurnOffLeast1Bit(x) == 0
    ensures x != Pow2(k) ==> Pow2(k) <= TurnOffLeast1Bit(x)
  {
    if k == 0 {
      assert x == 1;
    } else if x % 2 == 1 {
      assert x - 1 != 0;
      AndSelf(x / 2);
      assert (x - 1) / 2 == x / 2;
      assert And(x, x - 1) == x - 1;
    } else {
      TurnOffKeepsLeading(x / 2, k - 1);
      assert (x - 1) / 2 == x / 2 - 1;
      assert And(x, x - 1) == 2 * And(x / 2, x / 2 - 1);
    }
  }

  lemma {:induction false} AndSelf(x: nat)
    ensures And(x, x) == x
  {
    if x > 0 { AndSelf(x / 2); }
  }

  /** is_power_of_2 says what its name says. */
  lemma PowerOf2Test(x: nat, k: nat)
    requires Pow2(k) <= x < 2 * Pow2(k)
    ensures IsPowerOf2(x) <==> x == Pow2(k)
  {
    TurnOffKeepsLeading(x, k);
  }

  /** The leading power of two of a positive number. */
  lemma {:induction false} LeadingPower(x: nat) returns (k: nat)
    requires x > 0
    ensures Pow2(k) <= x < 2 * Pow2(k)
  {
    if x == 1 { k := 0; } else {
      k := LeadingPower(x / 2);
      k := k + 1;
    }
  }
}
