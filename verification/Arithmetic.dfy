/** 64-bit division built from the x86 64-by-32 divide (src/lib/arithmetic.c).

    Machine words are integers with explicit bounds; every wrap-around of the
    source is written out with `%`. */
module Arithmetic {

  const B32 := 0x1_0000_0000
  const B64 := 0x1_0000_0000_0000_0000
  const INT64_MIN := -0x8000_0000_0000_0000

  predicate IsU32(x: int) { 0 <= x < B32 }
  predicate IsU64(x: int) { 0 <= x < B64 }
  predicate IsI64(x: int) { INT64_MIN <= x < -INT64_MIN }

  function Pow2(k: nat): (p: int)
    ensures p >= 1
  {
    if k == 0 then 1 else 2 * Pow2(k - 1)
  }

  /** Reading a 64-bit pattern as a signed number. */
  function AsI64(x: int): int
    requires IsU64(x)
  {
    if x < -INT64_MIN then x else x - B64
  }

  /** Reading the low 32 bits of a number as signed. */
  function AsI32(x: int): (r: int)
    ensures -0x8000_0000 <= r < 0x8000_0000
  {
    var u := x % B32;
    if u < 0x8000_0000 then u else u - B32
  }

  /** C division: truncation toward zero. */
  function TruncDiv(n: int, d: int): int
    requires d != 0
  {
    var a := if n < 0 then -n else n;
    var b := if d < 0 then -d else d;
    if (n < 0) == (d < 0) then a / b else -(a / b)
  }

  /** The DIVL instruction.  It traps unless the quotient fits 32 bits, so the
      precondition is exactly "does not trap". */
  function Divl(n: int, d: int): (q: int)
    requires IsU64(n) && 0 < d < B32
    requires n / d < B32
    ensures IsU32(q)
  {
    DivBounds(n, d);
    n / d
  }

  // ----- arithmetic helpers

  lemma DivBounds(n: int, d: int)
    requires 0 <= n && 0 < d
    ensures 0 <= n / d && d * (n / d) <= n < d * (n / d) + d
  {
  }

  lemma MulMono(a: int, b: int, c: int)
    requires a <= b && 0 <= c
    ensures a * c <= b * c
  {
  }

  lemma MulNext(a: int, b: int)
    ensures (a + 1) * b == a * b + b
  {
  }

  lemma MulAssoc(a: int, b: int, c: int)
    ensures a * b * c == a * (b * c)
  {
  }

  lemma MulMono2(a: int, b: int, x: int, y: int)
    requires 0 <= a <= x && 0 <= b <= y
    ensures a * b <= x * y
  {
    MulMono(a, x, b);
    MulMono(b, y, x);
  }

  lemma CancelLe(a: int, b: int, e: int)
    requires a * e <= b * e && 0 < e
    ensures a <= b
  {
    if a > b { MulMono(b + 1, a, e); }
  }

  lemma CancelLt(a: int, b: int, e: int)
    requires a * e < b * e && 0 < e
    ensures a < b
  {
    if a >= b { MulMono(b, a, e); }
  }

  /** The quotient is the only number that fits between the two multiples. */
  lemma DivUnique(n: int, d: int, q: int)
    requires 0 < d && q * d <= n < q * d + d
    ensures n / d == q
  {
    assert n == n / d * d + n % d;
    CancelLt(q, n / d + 1, d);
    CancelLt(n / d, q + 1, d);
  }

  lemma DivAtLeast(n: int, d: int, q: int)
    requires 0 < d && q * d <= n
    ensures q <= n / d
  {
    assert n == n / d * d + n % d;
    CancelLt(q, n / d + 1, d);
  }

  lemma DivLess(n: int, d: int, k: int)
    requires 0 <= n < k * d && 0 < d
    ensures n / d < k
  {
    assert n == n / d * d + n % d;
    CancelLt(n / d, k, d);
  }

  /** Dividing in two stages is dividing by the product. */
  lemma DivDiv(n: int, a: int, b: int)
    requires 0 <= n && 0 < a && 0 < b
    ensures 0 < a * b && n / a / b == n / (a * b)
  {
    var t := n / a;
    var q := t / b;
    DivBounds(n, a);
    DivBounds(t, b);
    TwoStages(n, a, b, t, q);
    MulMono(1, a, b);
    DivUnique(n, a * b, q);
  }

  lemma TwoStages(n: int, a: int, b: int, t: int, q: int)
    requires 0 < a && 0 < b
    requires a * t <= n < a * t + a && b * q <= t < b * q + b
    ensures q * (a * b) <= n < q * (a * b) + a * b
  {
    MulMono(b * q, t, a);
    MulMono(t + 1, b * q + b, a);
    assert b * q * a == q * (a * b);
    assert (b * q + b) * a == b * q * a + a * b;
    assert (t + 1) * a == a * t + a;
  }

  lemma Pow2Add(a: nat, b: nat)
    ensures Pow2(a + b) == Pow2(a) * Pow2(b)
  {
    if a > 0 {
      Pow2Add(a - 1, b);
      assert Pow2(a + b) == 2 * Pow2(a + b - 1);
      assert 2 * (Pow2(a - 1) * Pow2(b)) == (2 * Pow2(a - 1)) * Pow2(b);
    }
  }

  lemma Pow2Values()
    ensures Pow2(1) == 2 && Pow2(2) == 4 && Pow2(4) == 16 && Pow2(8) == 256
    ensures Pow2(16) == 0x1_0000 && Pow2(31) == 0x8000_0000 && Pow2(32) == B32
  {
    assert Pow2(4) == 16 by { Pow2Add(2, 2); }
    assert Pow2(8) == 256 by { Pow2Add(4, 4); }
    assert Pow2(16) == 0x1_0000 by { Pow2Add(8, 8); }
    assert Pow2(32) == B32 by { Pow2Add(16, 16); }
  }

  // ----- nlz

  /** x is x0 shifted left by n. */
  ghost predicate Shifted(x: int, x0: int, n: nat) {
    x == x0 * Pow2(n)
  }

  lemma ShiftMore(x: int, x0: int, n: nat, k: nat)
    requires Shifted(x, x0, n)
    ensures Shifted(x * Pow2(k), x0, n + k)
  {
    Pow2Add(n, k);
    MulAssoc(x0, Pow2(n), Pow2(k));
  }

  /** One step of the search: when the top k bits are clear, shift them out. */
  method NlzStep(x: int, n: nat, k: nat, ghost x0: int) returns (x': int, n': nat)
    requires 0 < x < B32 && 0 < k && Shifted(x, x0, n)
    ensures 0 < x' < B32 && Shifted(x', x0, n')
    ensures n' == if x * Pow2(k) < B32 then n + k else n
    ensures x' == if x * Pow2(k) < B32 then x * Pow2(k) else x
  {
    x', n' := x, n;
    if x * Pow2(k) < B32 {
      ShiftMore(x, x0, n, k);
      MulMono(1, x, Pow2(k));
      n' := n + k;
      x' := x * Pow2(k) % B32;
    }
  }

  /** Number of leading zero bits: after shifting by it the top bit is set and
      nothing has been shifted out, which determines it (`NlzUnique`).  Each test
      of the source, such as x <= 0x0000FFFF, says that shifting by that step
      does not overflow. */
  method Nlz(x0: int) returns (n: nat)
    requires 0 < x0 < B32
    ensures n <= 31
    ensures B32 / 2 <= x0 * Pow2(n) < B32
  {
    Pow2Values();
    var x := x0;
    n := 0;
    assert Shifted(x, x0, 0);
    x, n := NlzStep(x, n, 16, x0);
    x, n := NlzStep(x, n, 8, x0);
    x, n := NlzStep(x, n, 4, x0);
    x, n := NlzStep(x, n, 2, x0);
    x, n := NlzStep(x, n, 1, x0);
  }

  lemma NlzUnique(x: int, m: nat, n: nat)
    requires 0 < x < B32
    requires B32 / 2 <= x * Pow2(m) < B32 && B32 / 2 <= x * Pow2(n) < B32
    ensures m == n
  {
    if m < n {
      NlzGap(x, m, n);
    } else if n < m {
      NlzGap(x, n, m);
    }
  }

  lemma NlzGap(x: int, m: nat, n: nat)
    requires 0 < x && m < n
    ensures 2 * (x * Pow2(m)) <= x * Pow2(n)
  {
    var y := x * Pow2(m);
    assert Shifted(y, x, m);
    ShiftMore(y, x, m, n - m);
    MulMono(0, x, Pow2(m));
    assert 2 <= Pow2(n - m);
    MulMono(2, Pow2(n - m), y);
    assert y * Pow2(n - m) == Pow2(n - m) * y;
  }

  // ----- the narrow branch

  /** Long division by a 32-bit divisor in two digits: the partial quotients add
      up, and the second DIVL cannot trap. */
  lemma NarrowBranch(n: int, n1: int, n0: int, d: int)
    requires n == B32 * n1 + n0 && IsU32(n1) && IsU32(n0) && 0 < d < B32
    ensures IsU64(B32 * (n1 % d) + n0)
    ensures (B32 * (n1 % d) + n0) / d < B32
    ensures (B32 * (n1 % d) + n0) / d + B32 * (n1 / d) == n / d
  {
    var h, r := n1 / d, n1 % d;
    var m := B32 * r + n0;
    DivLess(m, d, B32);
    DivBounds(m, d);
    var q := m / d;
    TwoDigits(n, d, n1, h, r, q, m);
    DivUnique(n, d, q + B32 * h);
  }

  lemma TwoDigits(n: int, d: int, n1: int, h: int, r: int, q: int, m: int)
    requires n1 == d * h + r && n - m == B32 * (n1 - r)
    requires d * q <= m < d * q + d
    ensures (q + B32 * h) * d <= n < (q + B32 * h) * d + d
  {
    assert (q + B32 * h) * d == d * q + B32 * (d * h);
  }

  // ----- the wide branch

  /** What the shifted divisor v looks like: v is the top 32 significant bits of
      d, so put back in place it falls short of d by less than the discarded
      power of two p. */
  ghost predicate Truncation(d: int, v: int, p: int) {
    && (p == 2 || 4 <= p)
    && B32 / 2 <= v < B32
    && v * p <= d < v * p + p
    && B32 <= d < B64
  }

  /** Shifting d left until its top bit is set loses nothing. */
  lemma ShiftFits(d: int, e: int, p: int)
    requires 0 < e && e * p == B32 && B32 <= d
    requires B32 / 2 <= d / B32 * e < B32
    ensures B64 / 2 <= d * e < B64
  {
    var d1 := d / B32;
    CancelLt(d1, p, e) by { assert p * e == e * p; }
    MulMono(d1 + 1, p, e);
    MulMono(d + 1, B32 * (d1 + 1), e);
    MulMono(B32 * d1, d, e);
    assert B32 * (d1 + 1) * e == B32 * ((d1 + 1) * e);
    assert B32 * d1 * e == B32 * (d1 * e);
    assert (d + 1) * e == d * e + e;
  }

  lemma ShiftBack(d: int, e: int, p: int, v: int)
    requires 0 < e && e * p == B32
    requires v * B32 <= d * e < v * B32 + B32
    ensures v * p <= d < v * p + p
  {
    assert v * B32 == v * p * e by { assert v * (e * p) == v * p * e; }
    assert v * B32 + B32 == (v * p + p) * e;
    CancelLe(v * p, d, e);
    CancelLt(d, v * p + p, e);
  }

  lemma PowersAround(s: nat)
    requires s <= 31
    ensures Pow2(31 - s) * 2 == Pow2(32 - s) && Pow2(s) * Pow2(32 - s) == B32
    ensures Pow2(32 - s) == 2 || 4 <= Pow2(32 - s)
  {
    Pow2Values();
    Pow2Add(s, 32 - s);
    if s < 31 { assert Pow2(32 - s) == 4 * Pow2(30 - s); } else { assert Pow2(32 - s) == 2; }
  }

  /** (d << s) >> 32 keeps the top 32 significant bits. */
  lemma ShiftedDivisor(d: int, s: nat, v: int)
    requires B32 <= d < B64 && s <= 31
    requires B32 / 2 <= d / B32 * Pow2(s) < B32
    requires v == d * Pow2(s) % B64 / B32
    ensures Truncation(d, v, Pow2(32 - s))
  {
    var e, p := Pow2(s), Pow2(32 - s);
    PowersAround(s);
    ShiftFits(d, e, p);
    var x := d * e;
    assert v * B32 <= x < v * B32 + B32;
    ShiftBack(d, e, p, v);
  }

  lemma LargerDivisor(n: int, w: int, d: int)
    requires 0 <= n && 0 < w <= d
    ensures n / d <= n / w
  {
    DivBounds(n, d);
    MulMono(w, d, n / d);
    DivAtLeast(n, w, n / d) by { assert w * (n / d) == n / d * w; }
  }

  /** A divisor short by g overestimates the quotient by one at most. */
  lemma ShortDivisor(n: int, w: int, g: int)
    requires 0 <= n && 0 < w && 0 <= g && n * g < w * (w + g)
    ensures n / w <= n / (w + g) + 1
  {
    var q := n / w;
    DivBounds(n, w);
    if q >= 1 {
      var k := q - 1;
      assert k * w == w * q - w;
      ShortDivisorGap(n, w, g, k);
      assert k * (w + g) == k * w + k * g;
      DivAtLeast(n, w + g, k);
    } else {
      DivBounds(n, w + g);
    }
  }

  lemma ShortDivisorGap(n: int, w: int, g: int, k: int)
    requires 0 < w && 0 <= g && n * g < w * (w + g) && k * w <= n - w
    ensures k * g < w
  {
    MulMono(k * w, n - w, g);
    assert (n - w) * g == n * g - w * g;
    assert w * (w + g) == w * w + w * g;
    assert k * g * w == k * w * g;
    CancelLt(k * g, w, w);
  }

  /** The inequality behind the estimate; p == 2 is the tight case. */
  lemma Shortfall(n: int, d: int, v: int, p: int, w: int)
    requires IsU64(n) && Truncation(d, v, p) && w == v * p
    ensures n * (d - w) < w * d
  {
    var g := d - w;
    MulMono2(B32 / 2, p, v, p);
    var lo := B32 / 2 * p;
    MulMono2(lo, lo, w, d);
    if p == 2 {
      assert lo * lo == B64;
      if g == 0 { assert n * g == 0; } else { assert n * g == n; }
    } else {
      MulMono2(n, g, B64 - 1, p - 1);
      Square(p, lo);
    }
  }

  lemma SquareOf(a: int, p: int)
    ensures a * p * (a * p) == a * a * (p * p)
  {
    MulAssoc(a * p, a, p);
    MulAssoc(a, p, a);
    MulAssoc(a * a, p, p);
  }

  lemma Square(p: int, lo: int)
    requires 4 <= p && lo == B32 / 2 * p
    ensures (B64 - 1) * (p - 1) < lo * lo
  {
    SquareOf(B32 / 2, p);
    MulMono(4, p, p);
    var q := p * p;
    assert lo * lo == B64 / 4 * q;
  }

  /** The wide branch before its correction step: the estimate is the true
      quotient or one more, and the correction test tells which. */
  lemma WideQuotient(n: int, d: int, v: int, s: nat)
    requires IsU64(n) && d <= n && s <= 31
    requires Truncation(d, v, Pow2(32 - s))
    ensures Corrected(n, d, n / 2 / v / Pow2(31 - s))
  {
    var p := Pow2(32 - s);
    PowersAround(s);
    EstimateIsDivision(n, v, Pow2(31 - s), p);
    var w := v * p;
    LargerDivisor(n, w, d);
    Shortfall(n, d, v, p, w);
    ShortDivisor(n, w, d - w);
    DivAtLeast(n, d, 1);
    Correction(n, d, n / w);
  }

  lemma EstimateIsDivision(n: int, v: int, h: int, p: int)
    requires 0 <= n && 0 < v && 0 < h && h * 2 == p
    ensures 0 < v * p && n / 2 / v / h == n / (v * p)
  {
    DivDiv(n, 2, v);
    DivDiv(n, 2 * v, h);
    MulAssoc(2, v, h);
    assert 2 * (v * h) == v * p;
  }

  /** q is the true quotient or one more, and the code's test tells which. */
  ghost predicate Corrected(n: int, d: int, q: int)
    requires d != 0
  {
    && n / d <= q <= n / d + 1
    && ((n - (q - 1) * d) % B64 < d <==> q == n / d + 1)
  }

  lemma Correction(n: int, d: int, q: int)
    requires IsU64(n) && 0 < d && n / d <= q <= n / d + 1 && 1 <= q
    ensures Corrected(n, d, q)
  {
    var t := n / d;
    assert n == t * d + n % d;
    if q == t {
      assert (q - 1) * d == t * d - d;
      MulMono(0, q - 1, d);
    } else {
      assert (q - 1) * d == t * d;
      MulMono(0, t, d);
    }
    var r := n - (q - 1) * d;
    assert 0 <= r < B64;
    assert r % B64 == r;
  }

  // ----- the routines

  /** The branch for a divisor of at most 32 bits. */
  method DivideNarrow(n: int, d: int) returns (q: int)
    requires IsU64(n) && 0 < d < B32
    ensures q == n / d
  {
    var n1, n0, d0 := n / B32, n % B32, d % B32;
    SmallMod(d);
    NarrowBranch(n, n1, n0, d0);
    QuotientFits(n, d0);
    var lo := Divl(B32 * (n1 % d0) + n0, d0);
    q := (lo + B32 * (n1 / d0)) % B64;
  }

  /** The branch for a wider divisor: estimate, then correct. */
  method DivideWide(n: int, d: int) returns (q: int)
    requires IsU64(n) && B32 <= d <= n
    ensures q == n / d
  {
    var d1 := d / B32;
    var s := Nlz(d1);
    var v := d * Pow2(s) % B64 / B32;
    ShiftedDivisor(d, s, v);
    FirstDivl(n, v);
    WideQuotient(n, d, v, s);
    var e := Divl(n / 2, v) / Pow2(31 - s);
    q := Correct(n, d, e);
  }

  function Correct(n: int, d: int, e: int): (q: int)
    requires 0 < d && Corrected(n, d, e)
    ensures q == n / d
  {
    if (n - (e - 1) * d) % B64 < d then e - 1 else e
  }

  /** udiv64: the floor quotient, for every 64-bit dividend and every nonzero
      divisor.  That every DIVL call meets its precondition is that none traps. */
  method Udiv64(n: int, d: int) returns (q: int)
    requires IsU64(n) && IsU64(d) && d != 0
    ensures q == n / d
  {
    if d / B32 == 0 {
      q := DivideNarrow(n, d);
    } else if n < d {
      q := 0;
      DivUnique(n, d, 0);
    } else {
      q := DivideWide(n, d);
    }
  }

  lemma FirstDivl(n: int, v: int)
    requires IsU64(n) && B32 / 2 <= v
    ensures n / 2 / v < B32
  {
    DivLess(n / 2, v, B32);
  }

  lemma QuotientFits(n: int, d: int)
    requires 0 <= n && 0 < d
    ensures 0 <= n / d <= n
    ensures 2 <= d ==> n / d <= n / 2
  {
    DivBounds(n, d);
    MulMono(1, d, n / d);
    if 2 <= d { LargerDivisor(n, 2, d); }
  }

  method Umod64(n: int, d: int) returns (r: int)
    requires IsU64(n) && IsU64(d) && d != 0
    ensures r == n % d % B32
  {
    var q := Udiv64(n, d);
    assert n - d * q == n % d;
    r := (n - d * q) % B64 % B32;
  }

  /** What umod64 returns is the remainder itself. */
  ghost predicate Umod64Right(n: int, d: int)
    requires d != 0
  {
    n % d % B32 == n % d
  }

  /** umod64 returns 32 bits; it is exact on every dividend just when the divisor
      leaves remainders that fit. */
  lemma Umod64Exact(d: int)
    requires 0 < d < B64
    ensures (forall n | IsU64(n) :: Umod64Right(n, d)) <==> d <= B32
  {
    if d <= B32 {
      forall n | IsU64(n) ensures Umod64Right(n, d) {
        SmallMod(n % d);
      }
    } else {
      OwnRemainder(d - 1, d);
      assert !Umod64Right(d - 1, d);
    }
  }

  lemma OwnRemainder(n: int, d: int)
    requires 0 <= n < d
    ensures n % d == n
  {
  }

  lemma SmallMod(x: int)
    requires 0 <= x < B32
    ensures x % B32 == x
  {
  }

  /** n >= 0 ? (uint64_t) n : -(uint64_t) n */
  function Magnitude(n: int): (u: int)
    requires IsI64(n)
    ensures u == if n < 0 then -n else n
  {
    if n >= 0 then n else (B64 - (n + B64)) % B64
  }

  /** Negation of a signed 64-bit number, which wraps at INT64_MIN. */
  function Negate(q: int): (r: int)
    requires IsI64(q)
    ensures IsI64(r) && r == if q == INT64_MIN then q else -q
  {
    if q <= 0 then AsI64(-q) else AsI64(B64 - q)
  }

  /** sdiv64: truncation toward zero except for the one quotient that does not
      fit, which wraps to INT64_MIN. */
  method Sdiv64(n: int, d: int) returns (q: int)
    requires IsI64(n) && IsI64(d) && d != 0
    ensures IsI64(q)
    ensures q == TruncDiv(n, d) <==> !(n == INT64_MIN && d == -1)
    ensures n == INT64_MIN && d == -1 ==> q == INT64_MIN
  {
    var qAbs := Udiv64(Magnitude(n), Magnitude(d));
    QuotientFits(Magnitude(n), Magnitude(d));
    q := if (n < 0) == (d < 0) then AsI64(qAbs) else Negate(AsI64(qAbs));
  }

  method Smod64(n: int, d: int) returns (r: int)
    requires IsI64(n) && IsI64(d) && d != 0
    ensures r == AsI32(n - d * TruncDiv(n, d))
  {
    var q := Sdiv64(n, d);
    r := AsI32(n - d * q);
  }
}
