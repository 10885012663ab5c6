/** Fixed-point arithmetic and the MLFQS formulas (src/threads/fixed.h and
    src/threads/thread.c).

    Values are integers; a separate lemma shows that nothing leaves 32 bits. */
module Mlfqs {
  import opened Arithmetic

  const F := 0x8000                     // 1 << FP_SHIFT_AMOUNT
  const PRI_MIN := 0
  const PRI_MAX := 63
  const TIMER_FREQ := 100

  /** FP_MULT: the shift of a signed 64-bit product rounds down. */
  function FpMult(a: int, b: int): int { a * b / F }

  /** FP_DIV: C division truncates. */
  function FpDiv(a: int, b: int): int
    requires b != 0
  {
    TruncDiv(a * F, b)
  }

  function FpDivMix(a: int, b: int): int
    requires b != 0
  {
    TruncDiv(a, b)
  }

  function FpIntPart(a: int): int { a / F }

  /** load_avg after a one-second update that counts `ready` threads. */
  function LoadNext(load: int, ready: int): int {
    FpDivMix(load * 59, 60) + FpDivMix(ready * F, 60)
  }

  /** 2 * load_avg / (2 * load_avg + 1) */
  function Coeff(load: int): int
    requires 0 <= load
  {
    FpDiv(2 * load, 2 * load + F)
  }

  function RecentNext(load: int, recentCpu: int, nice: int): int
    requires 0 <= load
  {
    FpMult(Coeff(load), recentCpu) + nice * F
  }

  /** mlfqs_priority_of for a thread other than the idle thread. */
  function PriorityOf(recentCpu: int, nice: int): (p: int)
    ensures PRI_MIN <= p <= PRI_MAX
  {
    var p := PRI_MAX - FpIntPart(FpDivMix(recentCpu, 4)) - nice * 2;
    if p > PRI_MAX then PRI_MAX else if p < PRI_MIN then PRI_MIN else p
  }

  /** More CPU use or more niceness never raises the priority. */
  lemma PriorityAntitone(rc1: int, nice1: int, rc2: int, nice2: int)
    requires rc1 <= rc2 && nice1 <= nice2
    ensures PriorityOf(rc1, nice1) >= PriorityOf(rc2, nice2)
  {
  }

  function Clamped(p: int): int {
    if p > PRI_MAX then PRI_MAX else if p < PRI_MIN then PRI_MIN else p
  }

  /** The priority is 63 less a quarter of recent_cpu less twice the nice value, the quarter
      rounded down to a whole number once its fraction bits below 1/F are cut off, kept
      within the legal range. */
  lemma PriorityExact(recentCpu: int, nice: int, quarter: int)
    requires 4 * F * quarter <= (if recentCpu < 0 then recentCpu + 3 else recentCpu) < 4 * F * (quarter + 1)
    ensures PriorityOf(recentCpu, nice) == Clamped(PRI_MAX - quarter - 2 * nice)
  {
    var q := FpDivMix(recentCpu, 4);
    assert F * quarter <= q < F * (quarter + 1);
    assert q / F == quarter;
  }

  /** load_avg becomes (59 * load_avg + ready) / 60, less than 2/F below the exact value. */
  lemma LoadExact(load: int, ready: int)
    requires 0 <= load && 0 <= ready
    ensures 0 <= 59 * load + ready * F - 60 * LoadNext(load, ready) < 120
  {
  }

  /** The coefficient is less than 1/F below 2 * load_avg / (2 * load_avg + 1). */
  lemma CoeffExact(load: int)
    requires 0 <= load
    ensures 0 <= 2 * load * F - Coeff(load) * (2 * load + F) < 2 * load + F
  {
    var l := 2 * load;
    assert Coeff(load) == l * F / (l + F);
    DivBounds(l * F, l + F);
  }

  /** recent_cpu becomes 2 * load_avg / (2 * load_avg + 1) * recent_cpu + nice, within
      1/F and recent_cpu/F of the exact value. */
  lemma RecentExact(load: int, recentCpu: int, nice: int)
    requires 0 <= load
    ensures var d := 2 * load + F;
            var off := d * (RecentNext(load, recentCpu, nice) - nice * F) - 2 * load * recentCpu;
            -d * (Magnitude(recentCpu) + F) <= off * F <= d * Magnitude(recentCpu)
  {
    var d, c := 2 * load + F, Coeff(load);
    CoeffExact(load);
    var m := FpMult(c, recentCpu);
    assert 0 <= c * recentCpu - F * m < F;
    RecentError(load, d, c, recentCpu, m, c * recentCpu - F * m, 2 * load * F - c * d);
  }

  function Magnitude(x: int): nat { if x < 0 then -x else x }

  lemma RecentError(load: int, d: int, c: int, rc: int, m: int, e1: int, e2: int)
    requires 0 < d && 0 <= e1 < F && 0 <= e2 < d
    requires e1 == c * rc - F * m && e2 == 2 * load * F - c * d
    ensures var off := d * m - 2 * load * rc;
            -d * (Magnitude(rc) + F) <= off * F <= d * Magnitude(rc)
  {
    ErrorTerms(load, d, c, rc, m, e1, e2);
    MulMono(e1, F, d);
    ErrorBound(d, rc, e2);
  }

  lemma ErrorBound(d: int, rc: int, e: int)
    requires 0 <= e < d
    ensures -d * Magnitude(rc) <= -(e * rc) <= d * Magnitude(rc)
  {
    var m := Magnitude(rc);
    MulMono(e, d, m);
    MulMono(0, e, m);
    if rc < 0 { assert e * m == -(e * rc); }
  }

  lemma ErrorTerms(load: int, d: int, c: int, rc: int, m: int, e1: int, e2: int)
    requires e1 == c * rc - F * m && e2 == 2 * load * F - c * d
    ensures (d * m - 2 * load * rc) * F == -(d * e1) - e2 * rc
  {
    calc {
      (d * m - 2 * load * rc) * F;
      d * (F * m) - (2 * load * F) * rc;
      d * (c * rc - e1) - (c * d + e2) * rc;
      d * (c * rc) - d * e1 - (c * d) * rc - e2 * rc;
      { MulAssoc(d, c, rc); }
      -(d * e1) - e2 * rc;
    }
  }

  // ----- bounds

  ghost predicate LoadOk(load: int, n: nat) {
    0 <= load <= n * F
  }

  /** recent_cpu k ticks after a one-second update. */
  ghost predicate RecentOk(rc: int, n: nat, k: nat) {
    -(40 * n + 20) * F <= rc <= (240 * n + 20 + k) * F
  }

  ghost predicate NiceOk(nice: int) {
    -20 <= nice <= 20
  }

  lemma LoadBound(load: int, ready: int, n: nat)
    requires LoadOk(load, n) && 0 <= ready <= n
    ensures LoadOk(LoadNext(load, ready), n)
  {
  }

  /** The decay coefficient is below 2n / (2n + 1). */
  lemma CoeffBound(load: int, n: nat)
    requires LoadOk(load, n)
    ensures 0 <= Coeff(load) <= F
    ensures Coeff(load) * (2 * n + 1) <= 2 * n * F
  {
    var l, c := 2 * load, Coeff(load);
    assert c == l * F / (l + F);
    DivBounds(l * F, l + F);
    assert (l + F) * c <= l * F;
    if c > F { MulMono(F, c, l + F); }
    CoeffStep(l, c, n);
  }

  lemma CoeffStep(l: int, c: int, n: nat)
    requires 0 <= l <= 2 * n * F && 0 <= c <= F && (l + F) * c <= l * F
    ensures c * (2 * n + 1) <= 2 * n * F
  {
    MulMono(l, 2 * n * F, F - c);
    assert l * (F - c) == l * F - l * c;
    assert (l + F) * c == l * c + F * c;
    assert 2 * n * F * (F - c) == F * (2 * n * (F - c));
    assert 2 * n * (F - c) == 2 * n * F - 2 * n * c;
  }

  /** The one-second update keeps recent_cpu in its band: it starts at most
      TIMER_FREQ ticks above the band and ends inside it. */
  lemma RecentBound(load: int, rc: int, nice: int, n: nat)
    requires LoadOk(load, n) && NiceOk(nice) && RecentOk(rc, n, TIMER_FREQ)
    ensures RecentOk(RecentNext(load, rc, nice), n, 0)
  {
    var c := Coeff(load);
    CoeffBound(load, n);
    DecayBound(c, rc, n);
  }

  lemma DecayBound(c: int, rc: int, n: nat)
    requires 0 <= c <= F && c * (2 * n + 1) <= 2 * n * F && RecentOk(rc, n, TIMER_FREQ)
    ensures -40 * n * F <= FpMult(c, rc) <= 240 * n * F
  {
    MulMono(rc, 120 * (2 * n + 1) * F, c);
    MulMono(-20 * (2 * n + 1) * F, rc, c);
    assert 120 * (2 * n + 1) * F * c == 120 * F * (c * (2 * n + 1));
    assert -20 * (2 * n + 1) * F * c == -20 * F * (c * (2 * n + 1));
    assert rc * c == c * rc;
    assert -40 * n * F * F <= c * rc <= 240 * n * F * F;
  }

  // ----- 32-bit range

  ghost predicate Fits32(x: int) {
    -0x8000_0000 <= x < 0x8000_0000
  }

  ghost predicate Fits64(x: int) {
    -0x8000_0000_0000_0000 <= x < 0x8000_0000_0000_0000
  }

  /** Every intermediate of the one-second update. */
  ghost predicate UpdateFits(load: int, ready: int, rc: int, nice: int)
    requires 0 <= LoadNext(load, ready)
  {
    var l := LoadNext(load, ready);
    var c := Coeff(l);
    && Fits32(load * 59) && Fits32(ready * F) && Fits32(l)
    && Fits32(l * 100) && Fits32(l * 100 + F / 2)       // the logged average
    && Fits32(l * 2) && Fits32(l * 2 + F) && Fits64(l * 2 * F)
    && Fits32(c) && Fits64(c * rc) && Fits32(FpMult(c, rc)) && Fits32(nice * F)
    && Fits32(RecentNext(l, rc, nice)) && PriorityFits(RecentNext(l, rc, nice), nice)
  }

  /** Every intermediate of a priority computation. */
  ghost predicate PriorityFits(rc: int, nice: int) {
    && Fits32(FpDivMix(rc, 4)) && Fits32(nice * 2)
    && Fits32(PRI_MAX - FpIntPart(FpDivMix(rc, 4))) && Fits32(PRI_MAX - FpIntPart(FpDivMix(rc, 4)) - nice * 2)
  }

  /** Every intermediate of a tick, with the priority computation that may follow. */
  ghost predicate TickFits(rc: int, nice: int) {
    Fits32(rc + F) && PriorityFits(rc + F, nice)
  }

  /** Up to 272 ready threads nothing overflows. */
  lemma NoOverflow(load: int, ready: int, rc: int, nice: int, n: nat)
    requires n <= 272 && LoadOk(load, n) && 0 <= ready <= n && NiceOk(nice)
    requires RecentOk(rc, n, TIMER_FREQ)
    ensures 0 <= LoadNext(load, ready) && UpdateFits(load, ready, rc, nice)
  {
    LoadBound(load, ready, n);
    var l := LoadNext(load, ready);
    CoeffBound(l, n);
    DecayBound(Coeff(l), rc, n);
    RecentBound(l, rc, nice, n);
    PriorityInRange(RecentNext(l, rc, nice), nice, n, 0);
    var c := Coeff(l);
    MulMono(rc, 0x8000_0000, c);
    MulMono(-0x8000_0000, rc, c);
    assert c * rc == rc * c;
    MulMono(c, F, 0x8000_0000);
  }

  lemma PriorityInRange(rc: int, nice: int, n: nat, k: nat)
    requires n <= 272 && NiceOk(nice) && RecentOk(rc, n, k) && k <= TIMER_FREQ
    ensures Fits32(rc) && PriorityFits(rc, nice)
  {
  }

  lemma NoOverflowTick(rc: int, nice: int, n: nat, k: nat)
    requires n <= 272 && NiceOk(nice) && RecentOk(rc, n, k) && k < TIMER_FREQ
    ensures TickFits(rc, nice)
  {
    PriorityInRange(rc + F, nice, n, k + 1);
  }

  /** 272 is the last count for which the band of `RecentOk` lies in 32 bits; this is
      about the bound, not about a run that overflows. */
  lemma OverflowBeyond()
    ensures RecentOk(0x8000_0000, 273, TIMER_FREQ)
    ensures forall n: nat :: n <= 272 ==> !RecentOk(0x8000_0000, n, TIMER_FREQ)
  {
  }
}
