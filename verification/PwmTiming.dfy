/** Clock divider, period and levels of a PWM output (components/pwm/pwm_timing.c). */
module PwmTiming {
  import opened Arithmetic
  import opened Bytes

  const MIN_DIV16: nat := 16
  const MAX_DIV16: nat := 4095
  const MAX_COUNTS: nat := 65535
  const DUTY_MAX: nat := 65535
  const LONG_LIMIT: nat := 0x1_0000_0000_0000_0000

  datatype Timing = Timing(dividerInt: nat, dividerFrac: nat, wrap: nat)
  datatype TimingResult = TimingOk(timing: Timing) | InvalidArg | TooFast | TooSlow

  function Div16(t: Timing): nat
  {
    t.dividerInt * 16 + t.dividerFrac
  }

  function Counts(t: Timing): nat
  {
    t.wrap + 1
  }

  /** What the registers can hold. */
  predicate Loadable(t: Timing)
  {
    1 <= t.dividerInt <= 255 && t.dividerFrac < 16 && t.wrap < 65535
  }

  function DivRound(a: nat, b: nat): nat
    requires b > 0
  {
    Quotient(a + b / 2, b)
  }

  /** `scaled` is `exact` to within half a `unit` either way. */
  predicate WithinHalf(scaled: int, exact: int, unit: int)
  {
    -unit <= 2 * (scaled - exact) <= unit
  }

  lemma NearestQuotient(a: nat, b: nat)
    requires b > 0
    ensures WithinHalf(b * DivRound(a, b), a, b)
  {
    DivParts(a + b / 2, b);
  }

  lemma DivRoundBounds(a: nat, b: nat, low: nat, high: nat)
    requires b > 0 && b * low <= a <= b * high
    ensures low <= DivRound(a, b) <= high
  {
    DivBelow(a + b / 2, b, low);
    DivBelow(a + b / 2, b, high + 1);
    assert b * (high + 1) == b * high + b;
  }

  // ---- the frequency -----------------------------------------------------------------------

  /** The period asked for, in sixteenths of a clock tick. */
  function Total(clock: nat, target: nat): nat
    requires target > 0
  {
    DivRound(clock * 16, target)
  }

  /** To the nearest sixteenth. */
  lemma PeriodAsked(clock: nat, target: nat)
    requires target > 0
    ensures WithinHalf(target * Total(clock, target), 16 * clock, target)
  {
    NearestQuotient(clock * 16, target);
  }

  function CeilDiv(total: nat): nat
  {
    (total + MAX_COUNTS - 1) / MAX_COUNTS
  }

  function ForFrequency(clock: nat, target: nat): TimingResult
  {
    if clock == 0 || target == 0 then InvalidArg
    else
      var total := Total(clock, target);
      if total < MIN_DIV16 then TooFast
      else
        var least := CeilDiv(total);
        var div16 := if least < MIN_DIV16 then MIN_DIV16 else least;
        if div16 > MAX_DIV16 then TooSlow
        else
          var nearest := DivRound(total, div16);
          var counts := if nearest < 1 then 1 else if nearest > MAX_COUNTS then MAX_COUNTS else nearest;
          TimingOk(Timing(div16 / 16, div16 % 16, counts - 1))
  }

  /** A period of at most 65535 counts reaches `total` at this divider. */
  predicate Reaches(div16: nat, total: nat)
  {
    16 <= div16 && total <= div16 * 65535
  }

  lemma LeastDivider(total: nat)
    ensures var d := if CeilDiv(total) < 16 then 16 else CeilDiv(total);
            Reaches(d, total) && forall e :: Reaches(e, total) ==> d <= e
  {
  }

  /** The shortest and the longest period the registers can hold. */
  const SHORTEST := Timing(1, 0, 0)
  const LONGEST := Timing(255, 15, 65534)

  lemma PeriodsBetween(t: Timing)
    requires Loadable(t)
    ensures Loadable(SHORTEST) && Loadable(LONGEST)
    ensures Div16(SHORTEST) * Counts(SHORTEST) == 16 <= Div16(t) * Counts(t)
    ensures Div16(t) * Counts(t) <= 4095 * 65535 == Div16(LONGEST) * Counts(LONGEST)
  {
    MulMonotone(Div16(t), 1, Counts(t));
    MulMonotone(Div16(t), Counts(t), MAX_COUNTS);
  }

  lemma RefusalGuards(clock: nat, target: nat)
    requires clock > 0 && target > 0
    ensures ForFrequency(clock, target) == TooFast <==> Total(clock, target) < 16
    ensures ForFrequency(clock, target) == TooSlow <==>
              Total(clock, target) >= 16 && Total(clock, target) > 4095 * 65535
  {
    hide DivRound;
    LeastDivider(Total(clock, target));
  }

  /** Too fast means that every period the registers can hold is longer than the one asked for; too slow, shorter. */
  lemma RefusalsExact(clock: nat, target: nat)
    requires clock > 0 && target > 0
    ensures ForFrequency(clock, target) == TooFast <==>
              forall t :: Loadable(t) ==> Div16(t) * Counts(t) > Total(clock, target)
    ensures ForFrequency(clock, target) == TooSlow <==>
              forall t :: Loadable(t) ==> Div16(t) * Counts(t) < Total(clock, target)
  {
    hide ForFrequency, Total, Loadable, Div16, Counts;
    RefusalGuards(clock, target);
    Extremes();
    forall t | Loadable(t)
      ensures 16 <= Div16(t) * Counts(t) <= 4095 * 65535
    {
      PeriodsBetween(t);
    }
  }

  lemma Extremes()
    ensures Loadable(SHORTEST) && Loadable(LONGEST)
    ensures Div16(SHORTEST) * Counts(SHORTEST) == 16 && Div16(LONGEST) * Counts(LONGEST) == 4095 * 65535
  {
  }

  /**
   * The divider is the least that reaches the period asked for, the count is the nearest one to it
   * that any count could be, and both fit their registers.
   */
  lemma FrequencyExact(clock: nat, target: nat)
    requires ForFrequency(clock, target).TimingOk?
    ensures clock > 0 && target > 0
    ensures var t, total := ForFrequency(clock, target).timing, Total(clock, target);
            && Loadable(t)
            && Reaches(Div16(t), total) && (forall d :: Reaches(d, total) ==> Div16(t) <= d)
            && WithinHalf(Div16(t) * Counts(t), total, Div16(t))
  {
    hide DivRound, Total, CeilDiv, Reaches, WithinHalf;
    var total := Total(clock, target);
    var d := if CeilDiv(total) < MIN_DIV16 then MIN_DIV16 else CeilDiv(total);
    LeastDivider(total);
    EnoughCounts(total, d);
    DivRoundBounds(total, d, 1, MAX_COUNTS);
    NearestQuotient(total, d);
    DividerParts(d);
  }

  lemma EnoughCounts(total: nat, d: nat)
    requires total >= 16 && d == if CeilDiv(total) < 16 then 16 else CeilDiv(total)
    ensures d * 1 <= total <= d * 65535
  {
  }

  lemma DividerParts(d: nat)
    requires 16 <= d <= 4095
    ensures 1 <= d / 16 <= 255 && d / 16 * 16 + d % 16 == d
  {
  }

  // ---- levels -----------------------------------------------------------------------------------

  /** In 32 bits, which the product of two 16-bit numbers and half of one more still fits. */
  function LevelForDuty(t: Timing, duty: nat): nat
  {
    if duty == 0 then 0 else U32(U32(duty * Counts(t)) + DUTY_MAX / 2) / DUTY_MAX
  }

  lemma NoOverflow(t: Timing, duty: nat)
    requires Loadable(t) && duty <= 65535
    ensures duty * Counts(t) + 65535 / 2 < WORD_LIMIT
    ensures LevelForDuty(t, duty) == (duty * Counts(t) + 65535 / 2) / 65535
  {
    hide U32;
    ProductFits(duty, Counts(t));
    NoWrap(duty * Counts(t));
  }

  lemma ProductFits(duty: nat, counts: nat)
    requires duty <= 65535 && counts <= 65535
    ensures duty * counts <= 65535 * 65535
  {
    MulMonotone(counts, duty, DUTY_MAX);
    MulMonotone(DUTY_MAX, counts, MAX_COUNTS);
  }

  lemma NoWrap(product: nat)
    requires product <= 65535 * 65535
    ensures product + 65535 / 2 < WORD_LIMIT && U32(product) == product
    ensures U32(product + 65535 / 2) == product + 65535 / 2
  {
  }

  /** More duty is never less level; none is none, and all of it is past the wrap, which is always on. */
  lemma DutyMonotone(t: Timing, a: nat, b: nat)
    requires Loadable(t) && a <= b <= 65535
    ensures LevelForDuty(t, a) <= LevelForDuty(t, b) <= t.wrap + 1
    ensures LevelForDuty(t, 0) == 0 && LevelForDuty(t, 65535) == t.wrap + 1
  {
    hide U32;
    NoOverflow(t, a);
    NoOverflow(t, b);
    NoOverflow(t, DUTY_MAX);
    MulMonotone(Counts(t), a, b);
    MulMonotone(Counts(t), b, DUTY_MAX);
    DivMonotone(a * Counts(t) + DUTY_MAX / 2, b * Counts(t) + DUTY_MAX / 2, DUTY_MAX);
    DivMonotone(b * Counts(t) + DUTY_MAX / 2, DUTY_MAX * Counts(t) + DUTY_MAX / 2, DUTY_MAX);
    FullDuty(Counts(t));
  }

  lemma FullDuty(counts: nat)
    ensures (65535 * counts + 65535 / 2) / 65535 == counts
  {
  }

  /** The level is the duty's share of the period to within half a count. */
  lemma DutyNearest(t: Timing, duty: nat)
    requires Loadable(t) && duty <= 65535
    ensures WithinHalf(65535 * LevelForDuty(t, duty), duty * Counts(t), 65535)
  {
    hide U32;
    NoOverflow(t, duty);
  }

  function Scale(t: Timing): nat
  {
    Div16(t) * 1_000_000
  }

  /** The pulse asked for, in counts times `Scale`. */
  function Asked(clock: nat, pulse: nat): nat
  {
    pulse * clock * 16
  }

  /** Unsigned 64-bit arithmetic wraps. */
  function U64(x: nat): nat
  {
    x % LONG_LIMIT
  }

  function LevelForPulse(clock: nat, t: Timing, pulse: nat): nat
  {
    if clock == 0 || pulse == 0 || Div16(t) == 0 then 0
    else
      var counts := Quotient(U64(U64(Asked(clock, pulse)) + Scale(t) / 2), Scale(t));
      if counts >= Counts(t) then Counts(t) else counts
  }

  /** Microseconds at so many cycles a second, in sixteenths of a cycle, and a count's worth of those, a million times over. */
  lemma PulseTerms(clock: nat, t: Timing, pulse: nat)
    ensures Asked(clock, pulse) == 16 * (pulse * clock) && Scale(t) == 1000000 * (16 * t.dividerInt + t.dividerFrac)
  {
  }

  /** What the level should be: the nearest count, or the whole period if the pulse is longer. */
  function IdealLevel(clock: nat, t: Timing, pulse: nat): nat
    requires Div16(t) > 0
  {
    var nearest := DivRound(Asked(clock, pulse), Scale(t));
    if nearest >= Counts(t) then Counts(t) else nearest
  }

  predicate FitsLong(clock: nat, t: Timing, pulse: nat)
  {
    Asked(clock, pulse) + Scale(t) / 2 < LONG_LIMIT
  }

  /** Half a count either way, up to the clamp, for as long as the sum stays within 64 bits. */
  lemma PulseNearest(clock: nat, t: Timing, pulse: nat)
    requires Loadable(t) && clock > 0 && FitsLong(clock, t, pulse)
    ensures LevelForPulse(clock, t, pulse) == IdealLevel(clock, t, pulse)
    ensures LevelForPulse(clock, t, pulse) < Counts(t) ==>
              WithinHalf(Scale(t) * LevelForPulse(clock, t, pulse), Asked(clock, pulse), Scale(t))
  {
    hide Asked, U64, Quotient, WithinHalf, Scale;
    var a, s := Asked(clock, pulse), Scale(t);
    ScalePositive(t);
    Unwrapped(a);
    Unwrapped(a + s / 2);
    NearestQuotient(a, s);
    if pulse == 0 {
      NothingAsked(clock, s);
    }
  }

  lemma ScalePositive(t: Timing)
    requires Loadable(t)
    ensures Scale(t) > 0 && Div16(t) > 0
  {
  }

  lemma Unwrapped(x: nat)
    requires x < LONG_LIMIT
    ensures U64(x) == x
  {
  }

  lemma NothingAsked(clock: nat, scale: nat)
    requires scale > 0
    ensures Asked(clock, 0) == 0 && DivRound(0, scale) == 0
  {
    DivBelow(scale / 2, scale, 1);
  }

  /** Every clock below 2^28 Hz leaves the sum within 64 bits, however long the pulse. */
  lemma SlowClocksFit(clock: nat, t: Timing, pulse: nat)
    requires Loadable(t) && clock < 0x1000_0000 && pulse < WORD_LIMIT
    ensures FitsLong(clock, t, pulse)
  {
    MulMonotone(clock, pulse, WORD_LIMIT - 1);
    MulMonotone(WORD_LIMIT - 1, clock, 0x0FFF_FFFF);
  }

  /** Past 64 bits the pulse is longer than any period, so only the clamp can save the level. */
  lemma WrappedIsLong(clock: nat, t: Timing, pulse: nat)
    requires Loadable(t) && !FitsLong(clock, t, pulse)
    ensures IdealLevel(clock, t, pulse) == Counts(t)
  {
    hide Asked;
    var a, s := Asked(clock, pulse), Scale(t);
    assert s <= 4_095_000_000;
    MulMonotone(s, Counts(t), MAX_COUNTS);
    DivBelow(a + s / 2, s, Counts(t));
  }

  /**
   * The level is the ideal one exactly when the sum fits 64 bits or what is left of it after
   * wrapping still reaches the clamp.
   */
  lemma PulseExactIff(clock: nat, t: Timing, pulse: nat)
    requires Loadable(t) && clock > 0 && pulse > 0
    ensures LevelForPulse(clock, t, pulse) == IdealLevel(clock, t, pulse) <==>
              FitsLong(clock, t, pulse) || U64(U64(Asked(clock, pulse)) + Scale(t) / 2) >= Scale(t) * Counts(t)
  {
    hide Asked, DivRound, U64;
    if FitsLong(clock, t, pulse) {
      PulseNearest(clock, t, pulse);
    } else {
      WrappedIsLong(clock, t, pulse);
      WrapsToNat(clock, t, pulse);
      DivBelow(U64(U64(Asked(clock, pulse)) + Scale(t) / 2), Scale(t), Counts(t));
    }
  }

  lemma WrapsToNat(clock: nat, t: Timing, pulse: nat)
    ensures U64(U64(Asked(clock, pulse)) + Scale(t) / 2) >= 0
  {
  }

  /** Nine minutes at two gigahertz come out as no pulse at all. */
  lemma LongPulseVanishes(t: Timing)
    requires Loadable(t)
    ensures LevelForPulse(0x8000_0000, t, 0x2000_0000) == 0
    ensures IdealLevel(0x8000_0000, t, 0x2000_0000) == Counts(t)
  {
    assert Asked(0x8000_0000, 0x2000_0000) == LONG_LIMIT;
    WrappedIsLong(0x8000_0000, t, 0x2000_0000);
    DivBelow(Scale(t) / 2, Scale(t), 1);
  }
}
