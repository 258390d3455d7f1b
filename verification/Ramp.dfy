/** Acceleration ramps for stepper motors, fixed-point configuration (bertos/algo/ramp.c, ramp.h). */
module Ramp {
  import opened Arithmetic
  import opened CTypes

  /** RAMP_CLOCK_SHIFT_PRECISION is 2: times lose their two low bits. */
  function Shifted(clocks: uint32): (r: uint32)
    ensures r <= clocks
  {
    clocks / 4
  }

  // ----- Products of fixed-point numbers -----

  /** FIX_MULT32, a product in 64 bits. */
  function FixMult32(a: uint32, b: uint32): (r: nat)
  {
    Product(a, b);
    a * b / 0x1_0000
  }

  lemma Product(a: nat, b: nat)
    ensures a * b >= 0
  {
  }

  /** One addition of `fix_mult32`, in 32 bits. */
  function Accumulate(accum: uint32, m1: uint32, digit: nat): uint32 {
    (accum + m1 * digit) % 0x1_0000_0000
  }

  lemma DigitBound(m1: nat, d: nat)
    requires m1 < 0x100_0000 && d < 0x100
    ensures 0 <= m1 * d <= 0xFF * m1
  {
  }

  /** No addition wraps around, and cutting eight bits twice is cutting sixteen bits once. */
  lemma DigitProducts(m1: nat, d0: nat, d1: nat, d2: nat)
    requires m1 < 0x100_0000 && d0 < 0x100 && d1 < 0x100 && d2 < 0x100
    ensures var a0 := m1 * d0;
            var a1 := a0 / 0x100 + m1 * d1;
            var a2 := a1 / 0x100 + m1 * d2;
            && 0 <= a0 < 0x1_0000_0000 && 0 <= a1 < 0x1_0000_0000 && 0 <= a2 < 0x1_0000_0000
            && a2 == m1 * (d0 + 0x100 * d1 + 0x1_0000 * d2) / 0x1_0000
  {
    DigitBound(m1, d0);
    DigitBound(m1, d1);
    DigitBound(m1, d2);
    var p0, p1, p2 := m1 * d0, m1 * d1, m1 * d2;
    assert m1 * (d0 + 0x100 * d1 + 0x1_0000 * d2) == p0 + 0x100 * p1 + 0x1_0000 * p2;
  }

  /** `fix_mult32`: the same product with 32-bit arithmetic, eight bits of the second factor at a time. */
  method FixMult32ByBytes(m1: uint32, m2: uint32) returns (accum: uint32)
    requires m1 < 0x100_0000 && m2 < 0x100_0000
    ensures accum == FixMult32(m1, m2)
  {
    hide Accumulate, FixMult32;
    var d0, d1, d2 := m2 % 0x100, m2 / 0x100 % 0x100, m2 / 0x1_0000 % 0x100;
    accum := Accumulate(0, m1, d0);
    accum := accum / 0x100;
    accum := Accumulate(accum, m1, d1);
    accum := accum / 0x100;
    accum := Accumulate(accum, m1, d2);
    AccumulateDigits(m1, d0, d1, d2);
    Digits(m2);
  }

  lemma Digits(m2: nat)
    requires m2 < 0x100_0000
    ensures m2 == m2 % 0x100 + 0x100 * (m2 / 0x100 % 0x100) + 0x1_0000 * (m2 / 0x1_0000 % 0x100)
  {
  }

  lemma AccumulateDigits(m1: nat, d0: nat, d1: nat, d2: nat)
    requires m1 < 0x100_0000 && d0 < 0x100 && d1 < 0x100 && d2 < 0x100
    ensures var m2 := d0 + 0x100 * d1 + 0x1_0000 * d2;
            Accumulate(Accumulate(Accumulate(0, m1, d0) / 0x100, m1, d1) / 0x100, m1, d2) == FixMult32(m1, m2)
  {
    DigitProducts(m1, d0, d1, d2);
    var a0 := m1 * d0;
    var a1 := a0 / 0x100 + m1 * d1;
    assert Accumulate(0, m1, d0) == a0;
    assert Accumulate(a0 / 0x100, m1, d1) == a1;
  }

  /** `fix_mult16`: the product of two 16-bit numbers fits 32 bits. */
  function FixMult16(a: uint16, b: uint32): uint16 {
    Product(a, b);
    (b * a) % 0x1_0000_0000 / 0x1_0000
  }

  // ----- The ramp -----

  /** max_div_min, cut to 16 bits when it is stored. */
  function MaxDivMin(min: uint16, max: uint16): uint16
    requires max > 0
  {
    min * 0x1_0000 / max % 0x1_0000
  }

  /** inv_total_time. */
  function InvTotalTime(clocksRamp: uint32): uint32
    requires Shifted(clocksRamp) > 0
  {
    0xFFFF_FFFF / Shifted(clocksRamp)
  }

  /** The time since the start as a 0.16 fixed-point part of the whole ramp, cut to 16 bits. */
  function Time(inv: uint32, curClock: uint32): uint16 {
    FixMult32(Shifted(curClock), inv) % 0x1_0000
  }

  /** The complement of t to one, as the 16-bit argument of `fix_mult16`. */
  function Rest(t: uint16): uint16 {
    ((0xFFFF - t) + 1) % 0x1_0000
  }

  function Denominator(maxDivMin: uint16, t: uint16): uint16 {
    (FixMult16(Rest(t), maxDivMin) + t) % 0x1_0000
  }

  /** What `ramp_evaluate` does: its division has no result when the denominator is zero. */
  datatype Evaluation = DivisionByZero | Wavelength(clocks: uint16)

  function Evaluate(min: uint16, maxDivMin: uint16, inv: uint32, curClock: uint32): Evaluation {
    var denom := Denominator(maxDivMin, Time(inv, curClock));
    if denom == 0 then DivisionByZero else Wavelength(min * 0x1_0000 / denom % 0x1_0000)
  }

  /** A ramp from `max` down to `min` clocks per step, whose length passes the assertions of `ramp_compute`. */
  predicate Usable(min: uint16, max: uint16, clocksRamp: uint32) {
    1 <= min < max && 0x400 <= clocksRamp < 0x400_0000
  }

  /** The assertion about inv_total_time accepts the ramps of at least 1024 clocks. */
  lemma InverseFits(clocksRamp: uint32)
    requires Shifted(clocksRamp) > 0
    ensures InvTotalTime(clocksRamp) < 0x100_0000 <==> clocksRamp >= 0x400
  {
    var s := Shifted(clocksRamp);
    if s >= 0x100 {
      FloorAntitone(0xFFFF_FFFF, 0x100, s);
    } else {
      FloorAntitone(0xFFFF_FFFF, s, 0xFF);
    }
  }

  // ----- The time -----

  lemma InvPositive(clocksRamp: uint32)
    requires Shifted(clocksRamp) > 0
    ensures InvTotalTime(clocksRamp) >= 1
  {
    FloorAtLeast(0xFFFF_FFFF, Shifted(clocksRamp), 1);
  }

  /** The first clock at which the product of c and inv_total_time reaches n. */
  function Reaches(clocksRamp: uint32, n: nat): (r: nat)
    requires Shifted(clocksRamp) > 0
  {
    InvPositive(clocksRamp);
    var inv := InvTotalTime(clocksRamp);
    4 * ((n + inv - 1) / inv)
  }

  lemma BelowCeiling(c: nat, inv: nat, n: nat)
    requires inv > 0
    ensures c * inv < n <==> c < (n + inv - 1) / inv
  {
    if c * inv < n {
      FloorAtLeast(n + inv - 1, inv, c + 1);
    } else {
      TimesMonotone(0, c, inv);
      FloorAtMost(n + inv - 1, inv, c);
    }
  }

  lemma BelowReaches(clocksRamp: uint32, n: nat, clock: uint32)
    requires Shifted(clocksRamp) > 0
    ensures Shifted(clock) * InvTotalTime(clocksRamp) < n <==> clock < Reaches(clocksRamp, n)
  {
    hide InvTotalTime;
    InvPositive(clocksRamp);
    BelowCeiling(Shifted(clock), InvTotalTime(clocksRamp), n);
  }

  /** The first clock at which a ramp can be evaluated, and the first one at which its time wraps around. */
  function FirstClock(clocksRamp: uint32): nat
    requires Shifted(clocksRamp) > 0
  {
    Reaches(clocksRamp, 0x1_0000)
  }

  function WrapClock(clocksRamp: uint32): nat
    requires Shifted(clocksRamp) > 0
  {
    Reaches(clocksRamp, 0x1_0000_0000)
  }

  /** The time loses no bits in its cast exactly before the clock at which it wraps around. */
  lemma TimeUncut(clocksRamp: uint32, clock: uint32)
    requires Shifted(clocksRamp) > 0
    ensures Time(InvTotalTime(clocksRamp), clock) == FixMult32(Shifted(clock), InvTotalTime(clocksRamp))
            <==> clock < WrapClock(clocksRamp)
  {
    hide Reaches;
    BelowReaches(clocksRamp, 0x1_0000_0000, clock);
    Product(Shifted(clock), InvTotalTime(clocksRamp));
    CutOrNot(Shifted(clock) * InvTotalTime(clocksRamp));
  }

  lemma CutOrNot(p: nat)
    ensures p / 0x1_0000 % 0x1_0000 == p / 0x1_0000 <==> p < 0x1_0000_0000
  {
  }

  /** That is never before the end of the ramp. */
  lemma EndsBeforeWrap(clocksRamp: uint32, clock: uint32)
    requires Shifted(clocksRamp) > 0 && clock <= clocksRamp
    ensures clock < WrapClock(clocksRamp)
  {
    hide Reaches;
    var c, s, inv := Shifted(clock), Shifted(clocksRamp), InvTotalTime(clocksRamp);
    TimesMonotone(c, s, inv);
    assert s * inv <= 0xFFFF_FFFF;
    BelowReaches(clocksRamp, 0x1_0000_0000, clock);
  }

  lemma TimeMonotone(clocksRamp: uint32, early: uint32, late: uint32)
    requires Shifted(clocksRamp) > 0 && early <= late < WrapClock(clocksRamp)
    ensures Time(InvTotalTime(clocksRamp), early) <= Time(InvTotalTime(clocksRamp), late)
  {
    hide WrapClock;
    TimeUncut(clocksRamp, early);
    TimeUncut(clocksRamp, late);
    TimesMonotone(Shifted(early), Shifted(late), InvTotalTime(clocksRamp));
  }

  lemma InverseRange(clocksRamp: uint32)
    requires 0x400 <= clocksRamp < 0x400_0000
    ensures 0x100 <= InvTotalTime(clocksRamp) < 0x100_0000
  {
    FloorAntitone(0xFFFF_FFFF, Shifted(clocksRamp), 0xFF_FFFF);
    FloorAntitone(0xFFFF_FFFF, 0x100, Shifted(clocksRamp));
  }

  /** At that clock the time of every legal ramp falls back from the last 1/256 of the ramp to the first. */
  lemma TimeRestarts(clocksRamp: uint32)
    requires 0x400 <= clocksRamp < 0x400_0000
    ensures 0 < WrapClock(clocksRamp) <= 0x400_0000
    ensures Time(InvTotalTime(clocksRamp), WrapClock(clocksRamp) - 1) >= 0xFF00
    ensures Time(InvTotalTime(clocksRamp), WrapClock(clocksRamp)) < 0x100
  {
    hide InvTotalTime;
    var inv: int := InvTotalTime(clocksRamp);
    InverseRange(clocksRamp);
    var k := (0x1_0000_0000 + inv - 1) / inv;
    assert WrapClock(clocksRamp) == 4 * k;
    CeilingBounds(inv, k);
    assert Shifted(4 * k) == k && Shifted(4 * k - 1) == k - 1;
    WrapHalves(k * inv, (k - 1) * inv, inv);
  }

  lemma CeilingBounds(inv: nat, k: nat)
    requires 0x100 <= inv < 0x100_0000 && k == (0x1_0000_0000 + inv - 1) / inv
    ensures 0 < k <= 0x100_0000
    ensures 0x1_0000_0000 <= k * inv < 0x1_0000_0000 + inv
    ensures (k - 1) * inv == k * inv - inv
  {
    FloorBounds(0x1_0000_0000 + inv - 1, inv);
    Distribute(k, -1, inv);
    TimesMonotone(0x100, inv, 0x100_0000);
    Distribute(0x100_0000, 1, inv);
    FloorAtMost(0x1_0000_0000 + inv - 1, inv, 0x100_0000);
  }

  lemma WrapHalves(p: nat, before: nat, inv: nat)
    requires inv < 0x100_0000 && 0x1_0000_0000 <= p < 0x1_0000_0000 + inv && before == p - inv
    ensures before / 0x1_0000 % 0x1_0000 >= 0xFF00 && p / 0x1_0000 % 0x1_0000 < 0x100
  {
  }

  /** At the end of a ramp of legal length at most 1/256 is missing from the whole. */
  lemma TimeAtEnd(clocksRamp: uint32)
    requires 0x400 <= clocksRamp < 0x400_0000
    ensures Time(InvTotalTime(clocksRamp), clocksRamp) >= 0xFF00
  {
    hide WrapClock;
    EndsBeforeWrap(clocksRamp, clocksRamp);
    TimeUncut(clocksRamp, clocksRamp);
    var s, inv := Shifted(clocksRamp), InvTotalTime(clocksRamp);
    assert s * inv > 0xFFFF_FFFF - s;
  }

  // ----- The denominator -----

  lemma ScaledDown(m: nat, rest: nat)
    requires m < 0x1_0000 && 1 <= rest < 0x1_0000
    ensures 0 <= m * rest < 0x1_0000_0000
    ensures 0 <= m * rest / 0x1_0000 < rest
  {
    TimesMonotone(0, m, rest);
    TimesMonotone(m, 0xFFFF, rest);
    HighHalf(m * rest, rest);
  }

  lemma HighHalf(p: nat, rest: nat)
    requires 1 <= rest < 0x1_0000 && p <= 0xFFFF * rest
    ensures p < 0x1_0000_0000 && 0 <= p / 0x1_0000 < rest
  {
  }

  lemma Balance(m: nat, t: nat)
    requires m < 0x1_0000 && t < 0x1_0000
    ensures m * (0x1_0000 - t) + 0x1_0000 * t == 0x1_0000 * m + t * (0x1_0000 - m)
  {
  }

  /** With a time of at least one unit, no cut changes the denominator: it lies between the ratio of the
      two wavelengths and one, at the time's place. */
  lemma DenominatorIs(m: uint16, t: uint16)
    requires t >= 1
    ensures Denominator(m, t) == m + t * (0x1_0000 - m) / 0x1_0000
    ensures t <= Denominator(m, t)
  {
    hide FixMult16;
    var rest := 0x1_0000 - t;
    Balance(m, t);
    ScaledDown(m, rest);
    RestProduct(m, t);
  }

  lemma RestProduct(m: uint16, t: uint16)
    requires t >= 1
    ensures FixMult16(Rest(t), m) == m * (0x1_0000 - t) / 0x1_0000
  {
    ScaledDown(m, 0x1_0000 - t);
    assert Rest(t) == 0x1_0000 - t;
  }

  /** With a time of zero its complement is cut to zero, and so is the denominator. */
  lemma DenominatorZero(m: uint16, t: uint16)
    ensures Denominator(m, t) == 0 <==> t == 0
  {
    if t >= 1 {
      DenominatorIs(m, t);
    } else {
      assert Rest(t) == 0 && m * Rest(t) == 0;
    }
  }

  lemma DenominatorMonotone(m: uint16, t1: uint16, t2: uint16)
    requires 1 <= t1 <= t2
    ensures Denominator(m, t1) <= Denominator(m, t2)
  {
    hide Denominator;
    DenominatorIs(m, t1);
    DenominatorIs(m, t2);
    TimesMonotone(t1, t2, 0x1_0000 - m);
  }

  /** The denominator never falls below the ratio of the two wavelengths. */
  lemma DenominatorAbove(m: uint16, t: uint16)
    requires t >= 1
    ensures Denominator(m, t) >= m
    ensures Denominator(m, t) == m <==> t * (0x1_0000 - m) < 0x1_0000
  {
    hide Denominator;
    DenominatorIs(m, t);
    TimesMonotone(0, 0x1_0000 - m, t);
  }

  lemma RatioFits(min: uint16, max: uint16)
    requires 1 <= min < max
    ensures MaxDivMin(min, max) == min * 0x1_0000 / max >= min
    ensures MaxDivMin(min, max) == min <==> min * 0x1_0000 < (min + 1) * max
  {
    TimesMonotone(max, 0xFFFF, min);
    FloorAtLeast(min * 0x1_0000, max, min);
    QuotientBelow(min * 0x1_0000, max);
    if min * 0x1_0000 < (min + 1) * max {
      FloorAtMost(min * 0x1_0000, max, min);
    }
  }

  lemma QuotientBelow(n: nat, d: nat)
    requires d > 0
    requires n < 0x1_0000 * d
    ensures n / d < 0x1_0000
    ensures n < (n / d + 1) * d
  {
    FloorAtMost(n, d, 0xFFFF);
  }

  // ----- The wavelength -----

  /** `ramp_evaluate` divides by zero exactly before this clock, which is not just at a clock of zero. */
  lemma DividesByZero(min: uint16, m: uint16, clocksRamp: uint32, curClock: uint32)
    requires Shifted(clocksRamp) > 0 && curClock < WrapClock(clocksRamp)
    ensures Evaluate(min, m, InvTotalTime(clocksRamp), curClock).DivisionByZero? <==> curClock < FirstClock(clocksRamp)
  {
    hide Time, Denominator, Reaches, InvTotalTime;
    var inv := InvTotalTime(clocksRamp);
    TimeUncut(clocksRamp, curClock);
    DenominatorZero(m, Time(inv, curClock));
    BelowReaches(clocksRamp, 0x1_0000, curClock);
    Product(Shifted(curClock), inv);
  }

  /** The shortest legal ramp fails up to clock 3, the longest one up to clock 1023. */
  lemma FirstClocks()
    ensures FirstClock(0x400) == 4 && FirstClock(0x3FF_FFFF) == 0x400
  {
    hide InvTotalTime;
    ShortestRamp();
    LongestRamp();
  }

  lemma ShortestRamp()
    ensures InvTotalTime(0x400) == 0xFF_FFFF
  {
  }

  lemma LongestRamp()
    ensures InvTotalTime(0x3FF_FFFF) == 0x100
  {
  }

  /** What a caller can check before the call: the wavelength will fit its 16 bits. */
  predicate Fits(min: uint16, max: uint16, t: uint16)
    requires max > 0
  {
    MaxDivMin(min, max) > min || t * (0x1_0000 - min) >= 0x1_0000
  }

  /** The wavelength keeps all its bits exactly when `Fits` says so; otherwise it is cut to zero. */
  lemma KeepsAllBits(min: uint16, max: uint16, inv: uint32, curClock: uint32)
    requires 1 <= min < max && Time(inv, curClock) >= 1
    ensures var t := Time(inv, curClock);
            var denom := Denominator(MaxDivMin(min, max), t);
            var e := Evaluate(min, MaxDivMin(min, max), inv, curClock);
            && denom > 0 && e.Wavelength?
            && (Fits(min, max, t) <==> min * 0x1_0000 / denom < 0x1_0000)
            && (e.clocks == if Fits(min, max, t) then min * 0x1_0000 / denom else 0)
  {
    hide Denominator, Time, MaxDivMin;
    var m, t := MaxDivMin(min, max), Time(inv, curClock);
    KeepsOrCuts(min, max, t);
  }

  lemma KeepsOrCuts(min: uint16, max: uint16, t: uint16)
    requires 1 <= min < max && t >= 1
    ensures var denom := Denominator(MaxDivMin(min, max), t);
            && denom > 0
            && (Fits(min, max, t) <==> min * 0x1_0000 / denom < 0x1_0000)
            && min * 0x1_0000 / denom % 0x1_0000 == if Fits(min, max, t) then min * 0x1_0000 / denom else 0
  {
    hide Denominator, MaxDivMin;
    var m := MaxDivMin(min, max);
    RatioFits(min, max);
    DenominatorAbove(m, t);
    DenominatorOneMore(min, Denominator(m, t));
  }

  lemma DenominatorOneMore(min: uint16, denom: uint16)
    requires denom >= min >= 1
    ensures min * 0x1_0000 / denom < 0x1_0000 <==> denom > min
    ensures denom == min ==> min * 0x1_0000 / denom == 0x1_0000
  {
    if denom > min {
      TimesMonotone(min + 1, denom, 0x1_0000);
      FloorAtMost(min * 0x1_0000, denom, 0xFFFF);
    } else {
      FloorAtLeast(min * 0x1_0000, denom, 0x1_0000);
      FloorAtMost(min * 0x1_0000, denom, 0x1_0000);
    }
  }

  /** `ramp_evaluate` succeeds with all its bits. */
  predicate Exact(min: uint16, max: uint16, inv: uint32, curClock: uint32)
    requires max > 0
  {
    Time(inv, curClock) >= 1 && Fits(min, max, Time(inv, curClock))
  }

  function WavelengthAt(min: uint16, max: uint16, inv: uint32, curClock: uint32): (w: uint16)
    requires 1 <= min < max && Exact(min, max, inv, curClock)
    ensures Evaluate(min, MaxDivMin(min, max), inv, curClock) == Wavelength(w)
    ensures var denom := Denominator(MaxDivMin(min, max), Time(inv, curClock));
            denom > 0 && w == min * 0x1_0000 / denom
  {
    KeepsAllBits(min, max, inv, curClock);
    Evaluate(min, MaxDivMin(min, max), inv, curClock).clocks
  }

  /** Every wavelength lies between the shortest one and the longest one, up to the cut of max_div_min. */
  lemma Bounds(min: uint16, max: uint16, inv: uint32, curClock: uint32)
    requires 1 <= min < max && Exact(min, max, inv, curClock)
    ensures MaxDivMin(min, max) > 0
    ensures min <= WavelengthAt(min, max, inv, curClock) <= min * 0x1_0000 / MaxDivMin(min, max)
    ensures WavelengthAt(min, max, inv, curClock) <= max + (max - 1) / MaxDivMin(min, max)
  {
    hide Denominator, Time, WavelengthAt, MaxDivMin, Fits;
    var w := WavelengthAt(min, max, inv, curClock);
    var m := MaxDivMin(min, max);
    var denom := Denominator(m, Time(inv, curClock));
    RatioFits(min, max);
    DenominatorAbove(m, Time(inv, curClock));
    TimesMonotone(denom, 0x1_0000, min);
    FloorAtLeast(min * 0x1_0000, denom, min);
    FloorAntitone(min * 0x1_0000, m, denom);
    LongestWavelength(min, max, m);
  }

  lemma LongestWavelength(min: uint16, max: uint16, m: nat)
    requires m > 0 && max > 0 && m == min * 0x1_0000 / max
    ensures min * 0x1_0000 / m <= max + (max - 1) / m
  {
    var n, q := min * 0x1_0000, (max - 1) / m;
    FloorBounds(n, max);
    FloorBounds(max - 1, m);
    assert n < m * max + max;
    Distribute(max, q + 1, m);
    FloorAtMost(n, m, max + q);
  }

  /** A ramp never slows down before its time wraps around. */
  lemma NeverSlowsDown(min: uint16, max: uint16, clocksRamp: uint32, early: uint32, late: uint32)
    requires Usable(min, max, clocksRamp) && early <= late
    ensures late < WrapClock(clocksRamp) && Exact(min, max, InvTotalTime(clocksRamp), early) ==>
              && Exact(min, max, InvTotalTime(clocksRamp), late)
              && WavelengthAt(min, max, InvTotalTime(clocksRamp), late)
                 <= WavelengthAt(min, max, InvTotalTime(clocksRamp), early)
  {
    hide Denominator, Time, WavelengthAt, MaxDivMin, WrapClock, InvTotalTime;
    var inv := InvTotalTime(clocksRamp);
    var m, t1, t2 := MaxDivMin(min, max), Time(inv, early), Time(inv, late);
    if late < WrapClock(clocksRamp) && Exact(min, max, inv, early) {
      TimeMonotone(clocksRamp, early, late);
      TimesMonotone(t1, t2, 0x1_0000 - min);
      DenominatorMonotone(m, t1, t2);
      DenominatorAbove(m, t1);
      RatioFits(min, max);
      FloorAntitone(min * 0x1_0000, Denominator(m, t1), Denominator(m, t2));
    }
  }

  /** A motor driven by a ramp: it waits the longest wavelength first, and then after every step the one that
      the clock of that step gives, as long as the ramp lasts. */
  predicate Drives(min: uint16, max: uint16, clocksRamp: uint32, clocks: seq<uint32>, waves: seq<uint16>)
    requires Usable(min, max, clocksRamp)
  {
    && |clocks| == |waves| > 0 && clocks[0] == 0 && waves[0] == max
    && (forall i :: 0 <= i < |clocks| ==> clocks[i] <= clocksRamp)
    && (forall i :: 0 < i < |clocks| ==>
          && clocks[i] == clocks[i - 1] + waves[i - 1]
          && Evaluate(min, MaxDivMin(min, max), InvTotalTime(clocksRamp), clocks[i]) == Wavelength(waves[i]))
  }

  lemma {:induction false} ClocksAscend(min: uint16, max: uint16, clocksRamp: uint32,
                                        clocks: seq<uint32>, waves: seq<uint16>, i: nat, j: nat)
    requires Usable(min, max, clocksRamp) && Drives(min, max, clocksRamp, clocks, waves)
    requires i <= j < |clocks|
    ensures clocks[i] <= clocks[j]
    decreases j
  {
    if i < j {
      ClocksAscend(min, max, clocksRamp, clocks, waves, i, j - 1);
    }
  }

  /** What a caller can check before the call: the wavelength will not exceed the longest one. */
  predicate NotAboveLongest(min: uint16, max: uint16, t: uint16)
    requires max > 0
  {
    var m := MaxDivMin(min, max);
    t * (0x1_0000 - m) >= 0x1_0000 || min * 0x1_0000 % max < m
  }

  /** The cut of max_div_min makes some ramps start above their longest wavelength: exactly these. */
  lemma StaysBelowLongest(min: uint16, max: uint16, inv: uint32, curClock: uint32)
    requires 1 <= min < max && Exact(min, max, inv, curClock)
    ensures WavelengthAt(min, max, inv, curClock) <= max <==> NotAboveLongest(min, max, Time(inv, curClock))
  {
    hide Denominator, Time, WavelengthAt, MaxDivMin, Fits;
    var m, t := MaxDivMin(min, max), Time(inv, curClock);
    RatioFits(min, max);
    DenominatorAbove(m, t);
    QuotientAboveLongest(min * 0x1_0000, max, m, Denominator(m, t));
  }

  lemma QuotientAboveLongest(n: nat, max: nat, m: nat, denom: nat)
    requires max > 0 && 0 < m <= denom && m == n / max
    ensures n / denom <= max <==> denom > m || n % max < m
  {
    FloorBounds(n, max);
    Commute(max, m);
    if denom > m {
      QuotientAboveRatio(n, max, m, denom);
    } else {
      QuotientOfRatio(m * max, n % max, max, m);
    }
  }

  lemma Commute(a: nat, b: nat)
    ensures a * b == b * a
  {
  }

  lemma QuotientAboveRatio(n: nat, max: nat, m: nat, denom: nat)
    requires 0 < m < denom && n < (m + 1) * max
    ensures n / denom <= max
  {
    TimesMonotone(m + 1, denom, max);
    Commute(max, denom);
    Distribute(max, 1, denom);
    FloorAtMost(n, denom, max);
  }

  lemma QuotientOfRatio(p: nat, r: nat, max: nat, m: nat)
    requires m > 0 && p == max * m
    ensures (p + r) / m <= max <==> r < m
  {
    Distribute(max, 1, m);
    if r < m {
      FloorAtMost(p + r, m, max);
    } else {
      FloorAtLeast(p + r, m, max + 1);
    }
  }

  /** From its first evaluation on, a drive whose first evaluation keeps its bits never slows down. */
  lemma LaterStepsDescend(min: uint16, max: uint16, clocksRamp: uint32,
                          clocks: seq<uint32>, waves: seq<uint16>, i: nat, j: nat)
    requires Usable(min, max, clocksRamp) && Drives(min, max, clocksRamp, clocks, waves)
    requires 1 <= i <= j < |waves| && Exact(min, max, InvTotalTime(clocksRamp), clocks[1])
    ensures min <= waves[j] <= waves[i]
  {
    hide Exact, Evaluate, MaxDivMin, InvTotalTime, WavelengthAt, WrapClock;
    var inv := InvTotalTime(clocksRamp);
    ClocksAscend(min, max, clocksRamp, clocks, waves, 1, i);
    ClocksAscend(min, max, clocksRamp, clocks, waves, i, j);
    EndsBeforeWrap(clocksRamp, clocks[j]);
    NeverSlowsDown(min, max, clocksRamp, clocks[1], clocks[i]);
    NeverSlowsDown(min, max, clocksRamp, clocks[i], clocks[j]);
    Bounds(min, max, inv, clocks[j]);
    assert Wavelength(waves[i]) == Wavelength(WavelengthAt(min, max, inv, clocks[i]));
    assert Wavelength(waves[j]) == Wavelength(WavelengthAt(min, max, inv, clocks[j]));
  }

  /** A wavelength that is cut to zero stops the clock, and with it the drive. */
  lemma {:induction false} DriveStops(min: uint16, max: uint16, clocksRamp: uint32,
                                      clocks: seq<uint32>, waves: seq<uint16>, k: nat)
    requires Usable(min, max, clocksRamp) && Drives(min, max, clocksRamp, clocks, waves)
    requires 1 <= k < |waves| && waves[1] == 0
    ensures waves[k] == 0 && clocks[k] == clocks[1]
    decreases k
  {
    hide Evaluate;
    if k > 1 {
      DriveStops(min, max, clocksRamp, clocks, waves, k - 1);
    }
  }

  predicate Descends(waves: seq<uint16>) {
    forall i, j :: 0 <= i <= j < |waves| ==> waves[j] <= waves[i]
  }

  /** The first evaluation of a drive is at the clock of the longest wavelength. */
  lemma FirstEvaluation(min: uint16, max: uint16, clocksRamp: uint32, clocks: seq<uint32>, waves: seq<uint16>)
    requires Usable(min, max, clocksRamp) && Drives(min, max, clocksRamp, clocks, waves) && |waves| >= 2
    ensures var inv := InvTotalTime(clocksRamp);
            && clocks[1] == max && Time(inv, max) >= 1
            && (if Fits(min, max, Time(inv, max)) then
                  Exact(min, max, inv, max) && waves[1] == WavelengthAt(min, max, inv, max)
                else waves[1] == 0)
  {
    hide Denominator, Time, MaxDivMin, InvTotalTime, Fits, WavelengthAt;
    var inv, m := InvTotalTime(clocksRamp), MaxDivMin(min, max);
    DenominatorZero(m, Time(inv, max));
    KeepsAllBits(min, max, inv, max);
  }

  /** A whole drive, from the longest wavelength on, never slows down exactly if its first evaluation does not
      exceed the longest wavelength. That evaluation, at the clock `max`, also decides whether the drive keeps
      going: if it keeps its bits, no wavelength falls below the shortest one, and otherwise all are zero. */
  lemma DriveNeverSlowsDown(min: uint16, max: uint16, clocksRamp: uint32, clocks: seq<uint32>, waves: seq<uint16>)
    requires Usable(min, max, clocksRamp) && |clocks| == |waves| >= 2
    ensures Drives(min, max, clocksRamp, clocks, waves) ==>
              var t := Time(InvTotalTime(clocksRamp), max);
              && t >= 1
              && (Descends(waves) <==> !Fits(min, max, t) || NotAboveLongest(min, max, t))
              && (Fits(min, max, t) ==> forall k :: 0 <= k < |waves| ==> min <= waves[k])
              && (!Fits(min, max, t) ==> forall k :: 1 <= k < |waves| ==> waves[k] == 0)
  {
    hide Drives, Time, Exact, NotAboveLongest, WavelengthAt, InvTotalTime, Fits;
    if Drives(min, max, clocksRamp, clocks, waves) {
      var inv := InvTotalTime(clocksRamp);
      var t := Time(inv, max);
      FirstWave(min, max, clocksRamp, clocks, waves);
      FirstEvaluation(min, max, clocksRamp, clocks, waves);
      if Fits(min, max, t) {
        StaysBelowLongest(min, max, inv, max);
        forall i, j | 1 <= i <= j < |waves| ensures min <= waves[j] <= waves[i] {
          LaterStepsDescend(min, max, clocksRamp, clocks, waves, i, j);
        }
        assert waves[1] >= waves[|waves| - 1];
      } else {
        forall k | 1 <= k < |waves| ensures waves[k] == 0 {
          DriveStops(min, max, clocksRamp, clocks, waves, k);
        }
      }
    }
  }

  lemma FirstWave(min: uint16, max: uint16, clocksRamp: uint32, clocks: seq<uint32>, waves: seq<uint16>)
    requires Usable(min, max, clocksRamp) && Drives(min, max, clocksRamp, clocks, waves)
    ensures waves[0] == max > min
  {
  }

  lemma SlowStart()
    ensures Evaluate(10, MaxDivMin(10, 2000), 0x100, 2000) == Wavelength(2004)
  {
    hide Denominator;
    assert MaxDivMin(10, 2000) == 327;
    assert Time(0x100, 2000) == 1;
    DenominatorIs(327, 1);
  }

  /** A legal ramp on which the motor slows down at its very first evaluation. */
  lemma DriveSlowsDown()
    ensures Usable(10, 2000, 0x3FF_FFFF) && Drives(10, 2000, 0x3FF_FFFF, [0, 2000], [2000, 2004])
    ensures !Descends([2000, 2004])
  {
    hide Evaluate, MaxDivMin, InvTotalTime;
    LongestRamp();
    SlowStart();
    assert [2000, 2004][1] > [2000, 2004][0];
  }

  /** A legal ramp whose wavelength is cut to zero. */
  lemma WavelengthCutToZero()
    ensures Time(InvTotalTime(0x3FF_FFFF), 0x400) == 1 && !Fits(1, 0xFFFF, 1)
    ensures Evaluate(1, MaxDivMin(1, 0xFFFF), InvTotalTime(0x3FF_FFFF), 0x400) == Wavelength(0)
  {
    hide Denominator, InvTotalTime;
    LongestRamp();
    assert MaxDivMin(1, 0xFFFF) == 1;
    DenominatorIs(1, 1);
  }

  /** Every usable ramp ends within 1/255 of its shortest wavelength. */
  lemma EndsAtShortest(min: uint16, max: uint16, clocksRamp: uint32)
    requires Usable(min, max, clocksRamp)
    ensures Exact(min, max, InvTotalTime(clocksRamp), clocksRamp)
    ensures min <= WavelengthAt(min, max, InvTotalTime(clocksRamp), clocksRamp) <= min + min / 255
  {
    hide Denominator, Time, WavelengthAt, MaxDivMin;
    var inv := InvTotalTime(clocksRamp);
    var m, t := MaxDivMin(min, max), Time(inv, clocksRamp);
    TimeAtEnd(clocksRamp);
    TimesMonotone(2, 0x1_0000 - min, t);
    Bounds(min, max, inv, clocksRamp);
    DenominatorIs(m, t);
    FloorAntitone(min * 0x1_0000, 0xFF00, Denominator(m, t));
  }

  /** The wavelength of the exact curve, a * b / (a + t * (b - a)), at the part c / s of the ramp. */
  function Curve(min: nat, max: nat, s: nat, c: nat): nat
    requires 1 <= min < max && s > 0
  {
    TimesMonotone(1, min, s);
    TimesMonotone(0, c, max - min);
    min * max * s / (min * s + c * (max - min))
  }

  /** All the cuts together never make the motor step sooner than the exact curve would. They make it step later
      by a factor of at most 1 + 259 * w / (65536 * min), where w is the wavelength and min the shortest one. */
  lemma CloseToCurve(min: uint16, max: uint16, clocksRamp: uint32, curClock: uint32)
    requires Usable(min, max, clocksRamp)
    ensures curClock < WrapClock(clocksRamp) && Exact(min, max, InvTotalTime(clocksRamp), curClock) ==>
              var w := WavelengthAt(min, max, InvTotalTime(clocksRamp), curClock);
              var s, c := Shifted(clocksRamp), Shifted(curClock);
              && w >= Curve(min, max, s, c)
              && w * (0x1_0000 * (min * s + c * (max - min))) <= (0x1_0000 * min + 259 * w) * (max * s)
  {
    hide Denominator, Time, WavelengthAt, MaxDivMin, Curve, InvTotalTime, Exact, WrapClock;
    var inv := InvTotalTime(clocksRamp);
    if curClock < WrapClock(clocksRamp) && Exact(min, max, inv, curClock) {
      var m, t := MaxDivMin(min, max), Time(inv, curClock);
      RatioFits(min, max);
      TimeUncut(clocksRamp, curClock);
      ExactTime(min, max, inv, curClock);
      DenominatorIs(m, t);
      TimeNearExact(clocksRamp, curClock, t);
      QuotientNearCurve(min, max, Shifted(clocksRamp), Shifted(curClock), m, t, Denominator(m, t));
    }
  }

  lemma QuotientNearCurve(min: nat, max: nat, s: nat, c: nat, m: nat, t: nat, denom: nat)
    requires 1 <= min < max && s > 0 && m == min * 0x1_0000 / max < 0x1_0000
    requires 1 <= t <= 0x1_0000 && t * s <= 0x1_0000 * c <= (t + 257) * s
    requires 0 < denom == m + t * (0x1_0000 - m) / 0x1_0000
    ensures var w := min * 0x1_0000 / denom;
            && w >= Curve(min, max, s, c)
            && w * (0x1_0000 * (min * s + c * (max - min))) <= (0x1_0000 * min + 259 * w) * (max * s)
  {
    hide Curve;
    FloorBounds(min * 0x1_0000, max);
    DenominatorBelowExact(min, max, s, c, m, t, denom);
    CurveBelow(min, max, s, c, denom);
    DenominatorAboveExact(min, max, s, c, m, t, denom);
    FloorBounds(min * 0x1_0000, denom);
    TimesMonotone(0, c, max - min);
    WavelengthBelow(min * 0x1_0000 / denom, denom, 0x1_0000 * min, 0x1_0000 * (min * s + c * (max - min)), max * s);
  }

  lemma ExactTime(min: uint16, max: uint16, inv: uint32, curClock: uint32)
    requires max > 0 && Exact(min, max, inv, curClock)
    ensures Time(inv, curClock) >= 1
  {
  }

  /** The time is at most the exact one, and less than 258 units below it. */
  lemma TimeNearExact(clocksRamp: uint32, clock: uint32, t: nat)
    requires 0x400 <= clocksRamp < 0x400_0000 && clock < WrapClock(clocksRamp)
    requires t == FixMult32(Shifted(clock), InvTotalTime(clocksRamp))
    ensures var s, c := Shifted(clocksRamp), Shifted(clock);
            t * s <= 0x1_0000 * c && (t + 257) * s >= 0x1_0000 * c
  {
    hide WrapClock;
    TimeRestarts(clocksRamp);
    var s, c, inv := Shifted(clocksRamp), Shifted(clock), InvTotalTime(clocksRamp);
    TimeBelowExact(c, s, inv, t);
    TimeAboveExact(c, s, inv, t);
  }

  lemma TimeAboveExact(c: nat, s: nat, inv: nat, t: nat)
    requires s > 0 && inv == 0xFFFF_FFFF / s && t == c * inv / 0x1_0000 && c <= 0x100_0000
    ensures (t + 257) * s >= 0x1_0000 * c
  {
    var p := c * inv;
    FloorBounds(0xFFFF_FFFF, s);
    TimesMonotone(0x1_0000_0000 - s, inv * s, c);
    assert p * s == (inv * s) * c;
    assert (0x1_0000_0000 - s) * c == 0x1_0000_0000 * c - c * s;
    TimesMonotone(c, 0x100_0000, s);
    assert p <= t * 0x1_0000 + 0xFFFF;
    TimesMonotone(p, t * 0x1_0000 + 0xFFFF, s);
    assert (t * 0x1_0000 + 0xFFFF) * s == 0x1_0000 * (t * s) + 0xFFFF * s;
    Distribute(t, 257, s);
  }

  /** denom / 65536 is less than 260 / 65536 below a / b * (1 - t) + t with the exact time c / s. */
  lemma DenominatorAboveExact(min: nat, max: nat, s: nat, c: nat, m: nat, t: nat, denom: nat)
    requires min < max && min * 0x1_0000 < m * max + max && m < 0x1_0000 && t <= 0x1_0000
    requires (t + 257) * s >= 0x1_0000 * c
    requires denom == m + t * (0x1_0000 - m) / 0x1_0000
    ensures (denom + 259) * (max * s) >= 0x1_0000 * (min * s + c * (max - min))
  {
    TwoMoreTimesMax(min, max, m, t, denom);
    var x, d := (denom + 2) * max, max - min;
    TimesMonotone(0x1_0000 * min + t * d, x, s);
    LatePart(t, s, c, d);
    Rearrange(min, s, c, t, d);
    TimesMonotone(d, max, s);
    Reassociate(denom + 2, max, s);
    Distribute(denom + 2, 257, max * s);
  }

  lemma LatePart(t: nat, s: nat, c: nat, d: nat)
    requires (t + 257) * s >= 0x1_0000 * c
    ensures (t * s) * d + 257 * (d * s) >= (0x1_0000 * c) * d
  {
    TimesMonotone(0x1_0000 * c, (t + 257) * s, d);
    Distribute(t, 257, s);
    Distribute(t * s, 257 * s, d);
    Reassociate(257, s, d);
  }

  lemma TwoMoreTimesMax(min: nat, max: nat, m: nat, t: nat, denom: nat)
    requires min < max && min * 0x1_0000 < m * max + max && m < 0x1_0000 && t <= 0x1_0000
    requires denom == m + t * (0x1_0000 - m) / 0x1_0000
    ensures (denom + 2) * max >= 0x1_0000 * min + t * (max - min)
  {
    var rest, k := 0x1_0000 - t, t * (0x1_0000 - m);
    assert 0x1_0000 * m + k == m * rest + 0x1_0000 * t;
    TimesMonotone(m * rest + 0x1_0000 * t, 0x1_0000 * denom + 0xFFFF, max);
    TimesMonotone(min * 0x1_0000 - max, m * max, rest);
    TimesMonotone(rest, 0x1_0000, max);
    ScaledSums(min, max, m, t, denom, rest);
  }

  lemma ScaledSums(min: nat, max: nat, m: nat, t: nat, denom: nat, rest: nat)
    requires rest == 0x1_0000 - t
    ensures (m * rest + 0x1_0000 * t) * max == (m * max) * rest + 0x1_0000 * (t * max)
    ensures (min * 0x1_0000 - max) * rest == 0x1_0000 * (0x1_0000 * min - t * min) - rest * max
    ensures (0x1_0000 * denom + 0xFFFF) * max == 0x1_0000 * (denom * max) + 0xFFFF * max
    ensures (denom + 2) * max == denom * max + 2 * max
    ensures t * (max - min) == t * max - t * min
  {
  }

  lemma WavelengthBelow(w: nat, denom: nat, n: nat, bottom: nat, ms: nat)
    requires w * denom <= n && (denom + 259) * ms >= bottom
    ensures w * bottom <= (n + 259 * w) * ms
  {
    TimesMonotone(bottom, (denom + 259) * ms, w);
    assert ((denom + 259) * ms) * w == (w * denom + 259 * w) * ms;
    TimesMonotone(w * denom + 259 * w, n + 259 * w, ms);
  }

  lemma TimeBelowExact(c: nat, s: nat, inv: nat, t: nat)
    requires s > 0 && inv == 0xFFFF_FFFF / s && t == c * inv / 0x1_0000
    ensures t * s <= 0x1_0000 * c
  {
    var p := c * inv;
    assert t * 0x1_0000 <= p;
    TimesMonotone(t * 0x1_0000, p, s);
    assert inv * s <= 0x1_0000_0000;
    TimesMonotone(inv * s, 0x1_0000_0000, c);
    assert p * s == (inv * s) * c;
    assert (t * 0x1_0000) * s == 0x1_0000 * (t * s);
  }

  /** denom / 65536 is at most a / b * (1 - t) + t with the exact time c / s. */
  lemma DenominatorBelowExact(min: nat, max: nat, s: nat, c: nat, m: nat, t: nat, denom: nat)
    requires min < max && m * max <= min * 0x1_0000 && t <= 0x1_0000 && t * s <= 0x1_0000 * c
    requires denom <= m + t * (0x1_0000 - m) / 0x1_0000
    ensures denom * max * s <= 0x1_0000 * (min * s + c * (max - min))
  {
    DenominatorTimesMax(min, max, m, t, denom);
    var x, d := denom * max, max - min;
    assert x <= 0x1_0000 * min + t * d;
    TimesMonotone(x, 0x1_0000 * min + t * d, s);
    TimesMonotone(t * s, 0x1_0000 * c, d);
    Rearrange(min, s, c, t, d);
  }

  lemma Rearrange(min: nat, s: nat, c: nat, t: nat, d: nat)
    ensures (0x1_0000 * min + t * d) * s == 0x1_0000 * (min * s) + (t * s) * d
    ensures 0x1_0000 * (min * s + c * d) == 0x1_0000 * (min * s) + (0x1_0000 * c) * d
  {
  }

  lemma DenominatorTimesMax(min: nat, max: nat, m: nat, t: nat, denom: nat)
    requires min < max && m * max <= min * 0x1_0000 && t <= 0x1_0000
    requires denom <= m + t * (0x1_0000 - m) / 0x1_0000
    ensures denom * max <= 0x1_0000 * min + t * (max - min)
  {
    var rest := 0x1_0000 - t;
    var k := t * (0x1_0000 - m);
    assert 0x1_0000 * m + k == m * rest + 0x1_0000 * t;
    assert 0x1_0000 * denom <= m * rest + 0x1_0000 * t;
    TimesMonotone(0x1_0000 * denom, m * rest + 0x1_0000 * t, max);
    TimesMonotone(m * max, min * 0x1_0000, rest);
    assert (m * rest + 0x1_0000 * t) * max == (m * max) * rest + 0x1_0000 * (t * max);
    assert (min * 0x1_0000) * rest == 0x1_0000 * (0x1_0000 * min - t * min);
    assert (0x1_0000 * denom) * max == 0x1_0000 * (denom * max);
    assert t * (max - min) == t * max - t * min;
  }

  lemma CurveBelow(min: nat, max: nat, s: nat, c: nat, denom: nat)
    requires 1 <= min < max && s > 0 && denom > 0
    requires denom * max * s <= 0x1_0000 * (min * s + c * (max - min))
    ensures Curve(min, max, s, c) <= min * 0x1_0000 / denom
  {
    TimesMonotone(1, min, s);
    TimesMonotone(0, c, max - min);
    var q, bottom, ms := Curve(min, max, s, c), min * s + c * (max - min), max * s;
    assert q == min * max * s / bottom;
    TimesMonotone(1, max, s);
    Reassociate(denom, max, s);
    Reassociate(min, max, s);
    FloorBounds(min * ms, bottom);
    CrossMultiply(q, bottom, min, ms, denom);
    FloorAtLeast(min * 0x1_0000, denom, q);
  }

  lemma CrossMultiply(q: nat, bottom: nat, min: nat, ms: nat, denom: nat)
    requires ms > 0
    requires q * bottom <= min * ms && denom * ms <= 0x1_0000 * bottom
    ensures q * denom <= min * 0x1_0000
  {
    TimesMonotone(denom * ms, 0x1_0000 * bottom, q);
    assert (0x1_0000 * bottom) * q == 0x1_0000 * (q * bottom);
    assert (denom * ms) * q == (q * denom) * ms && 0x1_0000 * (min * ms) == (min * 0x1_0000) * ms;
    Cancel(q * denom, min * 0x1_0000, ms);
  }

  // ----- Where the assertions accept too much -----

  /** max_div_min keeps its bits exactly if the wavelengths differ; `ramp_compute` also accepts equal ones. */
  lemma RatioUncut(min: uint16, max: uint16)
    requires 1 <= min <= max
    ensures MaxDivMin(min, max) == min * 0x1_0000 / max <==> min < max
    ensures min == max ==> MaxDivMin(min, max) == 0
  {
    if min < max {
      RatioFits(min, max);
    } else {
      FloorAtLeast(min * 0x1_0000, min, 0x1_0000);
      FloorAtMost(min * 0x1_0000, min, 0x1_0000);
    }
  }

  /** With two equal wavelengths w the result is w / t instead of the constant w: it keeps its bits exactly for a
      time above w, and then is w exactly if t has nearly reached one. */
  lemma EqualWavelengths(w: uint16, inv: uint32, curClock: uint32)
    requires w >= 1 && Time(inv, curClock) >= 1
    ensures var t := Time(inv, curClock);
            && Evaluate(w, MaxDivMin(w, w), inv, curClock) == Wavelength(w * 0x1_0000 / t % 0x1_0000)
            && (w * 0x1_0000 / t < 0x1_0000 <==> w < t)
            && (w * 0x1_0000 / t == w <==> w * (0x1_0000 - t) < t)
  {
    hide Denominator, Time, MaxDivMin;
    var t := Time(inv, curClock);
    RatioUncut(w, w);
    DenominatorIs(0, t);
    EqualQuotient(w, t);
  }

  lemma EqualQuotient(w: uint16, t: uint16)
    requires w >= 1 && t >= 1
    ensures w * 0x1_0000 / t < 0x1_0000 <==> w < t
    ensures w * 0x1_0000 / t == w <==> w * (0x1_0000 - t) < t
  {
    var n := w * 0x1_0000;
    assert w * (0x1_0000 - t) == n - w * t;
    Distribute(w, 1, t);
    TimesMonotone(t, 0x1_0000, w);
    FloorAtLeast(n, t, w);
    if w * (0x1_0000 - t) < t {
      FloorAtMost(n, t, w);
    } else {
      FloorAtLeast(n, t, w + 1);
    }
    if w < t {
      FloorAtMost(n, t, 0xFFFF);
    } else {
      TimesMonotone(t, w, 0x1_0000);
      FloorAtLeast(n, t, 0x1_0000);
    }
  }

  /** The speed of such a ramp is not constant. */
  lemma EqualWavelengthsDiffer()
    ensures Evaluate(100, MaxDivMin(100, 100), InvTotalTime(0x400), 4) == Wavelength(25700)
    ensures Evaluate(100, MaxDivMin(100, 100), InvTotalTime(0x400), 0x400) == Wavelength(100)
  {
    hide Time, InvTotalTime, MaxDivMin, Denominator, Evaluate;
    ShortestRamp();
    PastTheEndTimes();
    EqualWavelengths(100, 0xFF_FFFF, 4);
    EqualWavelengths(100, 0xFF_FFFF, 0x400);
  }

  lemma PastTheEndTimes()
    ensures Time(0xFF_FFFF, 4) == 0xFF && Time(0xFF_FFFF, 0x400) == 0xFFFF && Time(0xFF_FFFF, 0x404) == 0xFF
  {
  }

  lemma PastTheEndDenominators()
    ensures MaxDivMin(100, 1000) == 6553
    ensures Denominator(6553, 0xFFFF) == 0xFFFF && Denominator(6553, 0xFF) == 6782
  {
    hide Denominator;
    DenominatorIs(6553, 0xFFFF);
    DenominatorIs(6553, 0xFF);
  }

  /** The shortest ramp wraps around right after its end, and the motor is then told to slow down again. */
  lemma PastTheEnd()
    ensures WrapClock(0x400) == 0x404
    ensures Evaluate(100, MaxDivMin(100, 1000), InvTotalTime(0x400), 0x400) == Wavelength(100)
    ensures Evaluate(100, MaxDivMin(100, 1000), InvTotalTime(0x400), 0x404) == Wavelength(966)
  {
    hide Time, InvTotalTime, Denominator, MaxDivMin;
    ShortestRamp();
    PastTheEndTimes();
    PastTheEndDenominators();
  }

  // ----- The program -----

  class Ramp {
    var clocksRamp: uint32
    var clocksMinWL: uint16
    var clocksMaxWL: uint16
    var maxDivMin: uint16
    var invTotalTime: uint32

    ghost predicate Computed()
      reads this
    {
      && clocksMaxWL > 0 && Shifted(clocksRamp) > 0
      && maxDivMin == MaxDivMin(clocksMinWL, clocksMaxWL)
      && invTotalTime == InvTotalTime(clocksRamp)
    }

    constructor () {
    }

    /** `ramp_compute`; its assertions, and its divisions, are preconditions. */
    method Compute(clocksRamp: uint32, clocksMinWL: uint16, clocksMaxWL: uint16)
      requires clocksMaxWL >= clocksMinWL && clocksMaxWL > 0
      requires clocksRamp < 0x400_0000
      requires Shifted(clocksRamp) > 0 && InvTotalTime(clocksRamp) < 0x100_0000
      modifies this
      ensures this.clocksRamp == clocksRamp
      ensures this.clocksMinWL == clocksMinWL && this.clocksMaxWL == clocksMaxWL
      ensures Computed()
      ensures 1 <= clocksMinWL < clocksMaxWL ==> Usable(clocksMinWL, clocksMaxWL, clocksRamp)
    {
      InverseFits(clocksRamp);
      this.clocksRamp := clocksRamp;
      this.clocksMinWL := clocksMinWL;
      this.clocksMaxWL := clocksMaxWL;
      maxDivMin := clocksMinWL * 0x1_0000 / clocksMaxWL % 0x1_0000;
      invTotalTime := 0xFFFF_FFFF / (this.clocksRamp / 4);
    }

    /** `ramp_evaluate`. */
    method EvaluateAt(curClock: uint32) returns (e: Evaluation)
      requires Computed()
      ensures curClock < WrapClock(clocksRamp) ==> (e.DivisionByZero? <==> curClock < FirstClock(clocksRamp))
      ensures e == Evaluate(clocksMinWL, maxDivMin, invTotalTime, curClock)
    {
      hide FirstClock, WrapClock, FixMult16, FixMult32, MaxDivMin, InvTotalTime;
      if curClock < WrapClock(clocksRamp) {
        DividesByZero(clocksMinWL, maxDivMin, clocksRamp, curClock);
      }
      var t := FixMult32(Shifted(curClock), invTotalTime) % 0x1_0000;
      var denom := (FixMult16((0xFFFF - t + 1) % 0x1_0000, maxDivMin) + t) % 0x1_0000;
      if denom == 0 {
        return DivisionByZero;
      }
      e := Wavelength(clocksMinWL * 0x1_0000 / denom % 0x1_0000);
    }
  }
}
