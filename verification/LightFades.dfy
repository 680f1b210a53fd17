/** Fades of the light (apps/home_led/light.c): a cubic in fixed point, sampled as ticks arrive. */
module LightFades {
  import opened Arithmetic
  import opened Bytes

  const EASE_ONE: nat := 1024
  const HALF_RANGE: int := 0x8000_0000

  // ---- the curve ------------------------------------------------------------------------

  /** 3t^2 - 2t^3 before it is scaled down. */
  function Cubic(t: int): int
  {
    t * t * (3 * EASE_ONE - 2 * t)
  }

  function Ease(t: nat): int
  {
    if t == 0 then 0 else if t >= EASE_ONE then EASE_ONE else Cubic(t) / (EASE_ONE * EASE_ONE)
  }

  lemma CubicStep(t: nat)
    requires t < EASE_ONE
    ensures Cubic(t + 1) >= Cubic(t)
  {
    assert Cubic(t + 1) - Cubic(t) == 6 * (t * (1023 - t)) + 3070;
    Product(t, 1023 - t);
  }

  lemma Product(a: nat, b: nat)
    ensures a * b >= 0
  {
  }

  lemma {:induction false} CubicMonotone(s: nat, t: nat)
    requires s <= t <= EASE_ONE
    ensures Cubic(s) <= Cubic(t)
    decreases t
  {
    hide Cubic;
    if s < t {
      CubicMonotone(s, t - 1);
      CubicStep(t - 1);
    }
  }

  lemma CubicEnds()
    ensures Cubic(0) == 0 && Cubic(EASE_ONE) == EASE_ONE * EASE_ONE * EASE_ONE
  {
  }

  /** With one division the curve never goes back, and runs from nothing to all. */
  lemma EaseMonotone(s: nat, t: nat)
    requires s <= t
    ensures 0 <= Ease(s) <= Ease(t) <= EASE_ONE
  {
    hide Cubic;
    CubicEnds();
    if s < EASE_ONE {
      CubicMonotone(0, s);
      CubicMonotone(s, EASE_ONE);
    }
    if t < EASE_ONE {
      CubicMonotone(s, t);
      CubicMonotone(t, EASE_ONE);
    }
  }

  /** The curve is 3t^2 - 2t^3 over 1024 steps, rounded down. */
  lemma EaseIsCubic(t: nat)
    requires t <= 1024
    ensures 1024 * 1024 * Ease(t) <= t * t * (3072 - 2 * t) < 1024 * 1024 * (Ease(t) + 1)
  {
    hide Cubic;
    CubicEnds();
    CubicOf(t);
    if 0 < t < 1024 {
      RoundedDown(Cubic(t));
    }
  }

  lemma CubicOf(t: int)
    ensures Cubic(t) == t * t * (3072 - 2 * t)
  {
  }

  lemma RoundedDown(c: int)
    ensures 1024 * 1024 * (c / (1024 * 1024)) <= c < 1024 * 1024 * (c / (1024 * 1024) + 1)
  {
  }

  /** It sets off slowly, and arrives as it set off. */
  lemma EasesAtBothEnds(t: nat)
    requires t <= 1024
    ensures 1024 * Ease(t) <= 3 * (t * t)
    ensures Ease(t) + Ease(1024 - t) == 1023 || Ease(t) + Ease(1024 - t) == 1024
    ensures Ease(256) == 160 && Ease(512) == 512
  {
    hide Ease;
    EaseIsCubic(t);
    EaseIsCubic(1024 - t);
    CubesMirrored(t);
    EaseIsCubic(256);
    EaseIsCubic(512);
  }

  lemma CubesMirrored(t: int)
    requires t >= 0
    ensures t * t * (3072 - 2 * t) + (1024 - t) * (1024 - t) * (3072 - 2 * (1024 - t)) == 1024 * 1024 * 1024
    ensures t * t * (3072 - 2 * t) <= 1024 * (3 * (t * t))
  {
    Product(t, t);
    Product(t * t, t);
    assert t * t * (3072 - 2 * t) == 3072 * (t * t) - 2 * (t * t * t);
    assert (1024 - t) * (1024 - t) == 1024 * 1024 - 2048 * t + t * t;
    MirrorExpanded(t);
  }

  lemma MirrorExpanded(t: int)
    ensures (1024 * 1024 - 2048 * t + t * t) * (1024 + 2 * t) == 1024 * 1024 * 1024 - 3072 * (t * t) + 2 * (t * t * t)
  {
  }

  // ---- one fade ----------------------------------------------------------------------------

  datatype Ramp = Ramp(active: bool, start: nat, duration: nat, from: int, to: int, current: int)

  /** Signed division truncates toward zero. */
  function TruncDiv(a: int, b: nat): int
    requires b > 0
  {
    if a >= 0 then a / b else -((-a) / b)
  }

  function RampSet(value: int): Ramp
  {
    Ramp(false, 0, 0, value, value, value)
  }

  function RampStart(r: Ramp, to: int, duration: nat, now: nat): Ramp
  {
    if to == r.current || duration == 0 then RampSet(to) else Ramp(true, now, duration, r.current, to, r.current)
  }

  /** What a fade shows `elapsed` milliseconds in. */
  function ValueAt(from: int, to: int, duration: nat, elapsed: nat): int
    requires duration > 0
  {
    if elapsed >= duration then to
    else from + TruncDiv((to - from) * Ease(Quotient(elapsed * EASE_ONE, duration)), EASE_ONE)
  }

  function RampTick(r: Ramp, now: nat): Ramp
    requires r.active ==> r.duration > 0
  {
    if !r.active then r
    else
      var elapsed := U32(now - r.start);
      if elapsed >= HALF_RANGE then r
      else if elapsed >= r.duration then RampSet(r.to)
      else r.(current := ValueAt(r.from, r.to, r.duration, elapsed))
  }

  /** `a` then `b` on the way from one value to another, in either direction. */
  predicate OnTheWay(from: int, a: int, b: int, to: int)
  {
    if from <= to then from <= a <= b <= to else from >= a >= b >= to
  }

  lemma ScaledBetween(span: int, s: int, t: int)
    requires 0 <= s <= t <= EASE_ONE
    ensures OnTheWay(0, TruncDiv(span * s, EASE_ONE), TruncDiv(span * t, EASE_ONE), span)
  {
    if span >= 0 {
      ScaledUp(span, s, t);
    } else {
      ScaledUp(-span, s, t);
      assert -(span * s) == (-span) * s && -(span * t) == (-span) * t;
    }
  }

  lemma ScaledUp(span: nat, s: int, t: int)
    requires 0 <= s <= t <= EASE_ONE
    ensures 0 <= span * s / EASE_ONE <= span * t / EASE_ONE <= span && 0 <= span * s <= span * t
  {
    MulMonotone(span, 0, s);
    MulMonotone(span, s, t);
    MulMonotone(span, t, EASE_ONE);
  }

  /** Later never shows less of the way done, and never more than all of it. */
  lemma ValueMonotone(from: int, to: int, duration: nat, e: nat, f: nat)
    requires duration > 0 && e <= f
    ensures OnTheWay(from, ValueAt(from, to, duration, e), ValueAt(from, to, duration, f), to)
  {
    hide Ease, TruncDiv, Quotient;
    var s, t := Quotient(e * EASE_ONE, duration), Quotient(f * EASE_ONE, duration);
    QuotientMonotone(e * EASE_ONE, f * EASE_ONE, duration);
    EaseMonotone(s, t);
    ScaledBetween(to - from, Ease(s), Ease(t));
    ScaledBetween(to - from, Ease(s), Ease(s));
  }

  lemma QuotientMonotone(a: nat, b: nat, d: nat)
    requires a <= b && d > 0
    ensures Quotient(a, d) <= Quotient(b, d)
  {
    DivMonotone(a, b, d);
  }

  /** A fade to what is showing already, or that is to take no time, is over at once; any other is to be worked off. */
  lemma FadeStarts(r: Ramp, to: int, duration: nat, now: nat)
    ensures to == r.current || duration == 0 ==> RampStart(r, to, duration, now) == Ramp(false, 0, 0, to, to, to)
    ensures to != r.current && duration > 0 ==> RampStart(r, to, duration, now) == Ramp(true, now, duration, r.current, to, r.current)
  {
  }

  /** A fade begins exactly where the last one had got to. */
  lemma StartsWhereShowing(r: Ramp, to: int, duration: nat, now: nat)
    requires duration > 0
    ensures RampStart(r, to, duration, now).current == r.current
    ensures ValueAt(r.current, to, duration, 0) == r.current
  {
    DivBelow(0, duration, 1);
  }

  /** A quarter of the way through its time a fade has come 160 parts in 1024 of its way, and halfway through half. */
  lemma FadesEased(from: int, to: int, quarter: nat)
    requires quarter > 0
    ensures ValueAt(from, to, 4 * quarter, quarter) == from + if to >= from then (to - from) * 160 / 1024 else -((from - to) * 160 / 1024)
    ensures ValueAt(from, to, 4 * quarter, 2 * quarter) == from + if to >= from then (to - from) / 2 else -((from - to) / 2)
  {
    hide Ease;
    EasesAtBothEnds(0);
    DivUnique(quarter * EASE_ONE, 4 * quarter, 256, 0);
    DivUnique(2 * quarter * EASE_ONE, 4 * quarter, 512, 0);
    Negated(from, to, 160);
    Negated(from, to, 512);
    Halved(to - from);
    Halved(from - to);
  }

  lemma Negated(from: int, to: int, part: int)
    ensures -((to - from) * part) == (from - to) * part
  {
  }

  lemma Halved(n: int)
    ensures n >= 0 ==> n * 512 / 1024 == n / 2
  {
  }

  // ---- whole fades ----------------------------------------------------------------------------

  /** Samples of a 32-bit millisecond clock, each some way before or after the fade began. */
  function Ticked(r: Ramp, start: nat, offsets: seq<int>): (t: Ramp)
    requires r.active ==> r.duration > 0
    ensures t.active ==> t.duration > 0
  {
    if |offsets| == 0 then r
    else RampTick(Ticked(r, start, offsets[..|offsets| - 1]), U32(start + offsets[|offsets| - 1]))
  }

  /** The latest sample that was not from before the fade. */
  function Latest(offsets: seq<int>): nat
  {
    if |offsets| == 0 then 0
    else
      var last := offsets[|offsets| - 1];
      if last >= 0 then last else Latest(offsets[..|offsets| - 1])
  }

  /** Samples within half the clock's range of the start; those after it in the order they were taken. */
  predicate Sampled(start: nat, offsets: seq<int>)
  {
    forall i :: 0 <= i < |offsets| ==>
      -HALF_RANGE < offsets[i] < HALF_RANGE && start + offsets[i] >= 0 &&
      (offsets[i] >= 0 ==> Latest(offsets[..i]) <= offsets[i])
  }

  lemma SampledFront(start: nat, offsets: seq<int>)
    requires Sampled(start, offsets) && |offsets| > 0
    ensures Sampled(start, offsets[..|offsets| - 1])
    ensures offsets[|offsets| - 1] >= 0 ==> Latest(offsets[..|offsets| - 1]) <= offsets[|offsets| - 1]
  {
    hide Latest;
    var front := offsets[..|offsets| - 1];
    forall i | 0 <= i < |front|
      ensures -HALF_RANGE < front[i] < HALF_RANGE && start + front[i] >= 0 && (front[i] >= 0 ==> Latest(front[..i]) <= front[i])
    {
      assert front[..i] == offsets[..i] && front[i] == offsets[i];
    }
  }

  /** Across the clock's wrap, a sample's distance from the start is what it was before wrapping. */
  lemma ElapsedAcrossWrap(start: nat, offset: int)
    requires -HALF_RANGE < offset < HALF_RANGE && start + offset >= 0
    ensures U32(U32(start + offset) - U32(start)) == if offset >= 0 then offset else WORD_LIMIT + offset
  {
  }

  /**
   * However ticks arrive, a sample from before the fade changes nothing and the fade shows exactly
   * what its latest sample calls for: wherever the clock wraps, and for good once it has ended.
   */
  lemma {:induction false} FadeShows(r: Ramp, start: nat, offsets: seq<int>)
    requires r.active && r.duration > 0 && r.start == U32(start) && r.current == r.from && Sampled(start, offsets)
    ensures var t := Ticked(r, start, offsets);
            && t.current == ValueAt(r.from, r.to, r.duration, Latest(offsets))
            && t.active == (Latest(offsets) < r.duration)
            && (t.active ==> t == r.(current := t.current))
  {
    hide ValueAt;
    if |offsets| == 0 {
      StartsWhereShowing(r, r.to, r.duration, 0);
      EndShown(r, 0);
    } else {
      var front, last := offsets[..|offsets| - 1], offsets[|offsets| - 1];
      SampledFront(start, offsets);
      FadeShows(r, start, front);
      ElapsedAcrossWrap(start, last);
      EndShown(r, Latest(front));
      EndShown(r, Latest(offsets));
    }
  }

  lemma EndShown(r: Ramp, elapsed: nat)
    requires r.duration > 0
    ensures elapsed >= r.duration ==> ValueAt(r.from, r.to, r.duration, elapsed) == r.to
  {
  }

  /** So a fade never goes back and never overshoots, from its first sample to its last. */
  lemma FadeNeverGoesBack(r: Ramp, start: nat, offsets: seq<int>, n: nat)
    requires r.active && r.duration > 0 && r.start == U32(start) && r.current == r.from && Sampled(start, offsets)
    requires n <= |offsets|
    ensures OnTheWay(r.from, Ticked(r, start, offsets[..n]).current, Ticked(r, start, offsets).current, r.to)
    ensures Latest(offsets) >= r.duration ==> Ticked(r, start, offsets).current == r.to
  {
    hide ValueAt;
    SampledPrefix(start, offsets, n);
    FadeShows(r, start, offsets);
    FadeShows(r, start, offsets[..n]);
    ValueMonotone(r.from, r.to, r.duration, Latest(offsets[..n]), Latest(offsets));
    EndShown(r, Latest(offsets));
  }

  lemma {:induction false} SampledPrefix(start: nat, offsets: seq<int>, n: nat)
    requires Sampled(start, offsets) && n <= |offsets|
    ensures Sampled(start, offsets[..n]) && Latest(offsets[..n]) <= Latest(offsets)
    decreases |offsets|
  {
    if n == |offsets| {
      assert offsets[..n] == offsets;
    } else {
      var front := offsets[..|offsets| - 1];
      SampledFront(start, offsets);
      SampledPrefix(start, front, n);
      assert front[..n] == offsets[..n];
    }
  }

  // ---- the light -----------------------------------------------------------------------------------

  const FADE_BRIGHTNESS_MS: nat := 3000
  const FADE_MIREDS_MS: nat := 4000
  const MIREDS_MIN: nat := 153
  const MIREDS_MAX: nat := 500
  const DEFAULT_BRIGHTNESS: nat := 128
  const DEFAULT_MIREDS: nat := 333

  /** Everything a ramp holds lies in a range, and one at rest is where it was going. */
  predicate RampWithin(r: Ramp, low: int, high: int)
  {
    && low <= r.from <= high && low <= r.to <= high && low <= r.current <= high
    && (r.active ==> r.duration > 0)
    && (!r.active ==> r.current == r.to)
  }

  lemma TickKeepsRange(r: Ramp, low: int, high: int, now: nat)
    requires RampWithin(r, low, high) && low >= 0
    ensures RampWithin(RampTick(r, now), low, high) && RampTick(r, now).to == r.to
  {
    hide ValueAt;
    if r.active {
      var elapsed := U32(now - r.start);
      ValueMonotone(r.from, r.to, r.duration, elapsed, elapsed);
    }
  }

  /** The one multiplication of a tick stays within 32 bits with a sign. */
  lemma TickFitsInt32(r: Ramp, t: nat)
    requires RampWithin(r, 0, MIREDS_MAX)
    ensures -0x8000_0000 <= (r.to - r.from) * Ease(t) < 0x8000_0000
  {
    hide Ease;
    EaseMonotone(0, t);
    EaseMonotone(t, t);
    var span, e := r.to - r.from, Ease(t);
    if span >= 0 {
      MulMonotone(span, e, EASE_ONE);
      MulMonotone(span, 0, e);
    } else {
      MulMonotone(-span, e, EASE_ONE);
      MulMonotone(-span, 0, e);
      assert span * e == -((-span) * e);
    }
  }

  /** A colour, kept whole. */
  datatype Color = Color(r: byte, g: byte, b: byte)

  class Light {
    var on: bool
    var brightness: nat
    var color: Color
    var mireds: nat
    var byTemperature: bool
    var effect: nat
    var brightnessRamp: Ramp
    var miredsRamp: Ramp
    var generation: nat

    ghost predicate Valid()
      reads this
    {
      && brightness <= 255 && MIREDS_MIN <= mireds <= MIREDS_MAX
      && RampWithin(brightnessRamp, 0, 255) && brightnessRamp.to == brightness
      && RampWithin(miredsRamp, MIREDS_MIN, MIREDS_MAX) && miredsRamp.to == mireds
    }

    constructor ()
      ensures Valid() && generation == 1 && !on && brightnessRamp == RampSet(128)
      ensures miredsRamp == RampSet(333)
    {
      on, brightness, mireds := false, DEFAULT_BRIGHTNESS, DEFAULT_MIREDS;
      color, byTemperature, effect := Color(255, 255, 255), true, 0;
      brightnessRamp, miredsRamp := RampSet(DEFAULT_BRIGHTNESS), RampSet(DEFAULT_MIREDS);
      generation := 1;
    }

    /** Only switching on is a fade, and it starts over; switching off leaves the fade as it was. */
    method SetPower(up: bool, now: nat)
      requires Valid()
      modifies this`on, this`brightnessRamp, this`generation
      ensures Valid() && on == up
      ensures old(on) == up ==> brightnessRamp == old(brightnessRamp) && generation == old(generation)
      ensures old(on) != up ==> generation == U32(old(generation) + 1)
      ensures old(on) && !up ==> brightnessRamp == old(brightnessRamp)
      ensures !old(on) && up ==> brightnessRamp == RampStart(RampSet(0), brightness, 3000, now)
      ensures !old(on) && up ==> brightnessRamp.current == 0 && (brightness > 0 ==> brightnessRamp.active)
    {
      if on == up {
        return;
      }
      on := up;
      if up {
        brightnessRamp := RampSet(0);
        brightnessRamp := RampStart(brightnessRamp, brightness, FADE_BRIGHTNESS_MS, now);
      }
      generation := U32(generation + 1);
    }

    method SetBrightness(value: nat, now: nat)
      requires Valid() && value <= 255
      modifies this`brightness, this`brightnessRamp, this`generation
      ensures Valid() && brightness == value
      ensures brightnessRamp == if old(brightness) == value then old(brightnessRamp)
                                else RampStart(old(brightnessRamp), value, 3000, now)
      ensures brightnessRamp.current == old(brightnessRamp).current || brightnessRamp == RampSet(value)
      ensures generation == if old(brightness) == value then old(generation) else U32(old(generation) + 1)
      ensures old(brightness) != value && old(brightnessRamp).current != value ==>
                brightnessRamp == Ramp(true, now, 3000, old(brightnessRamp).current, value, old(brightnessRamp).current)
    {
      if brightness == value {
        return;
      }
      brightness := value;
      brightnessRamp := RampStart(brightnessRamp, value, FADE_BRIGHTNESS_MS, now);
      generation := U32(generation + 1);
    }

    /** A temperature past either end is the end itself. */
    method SetMireds(asked: nat, now: nat)
      requires Valid()
      modifies this`mireds, this`byTemperature, this`miredsRamp, this`generation
      ensures Valid() && byTemperature
      ensures mireds == if asked < 153 then 153 else if asked > 500 then 500 else asked
      ensures miredsRamp == if old(byTemperature) && old(mireds) == mireds then old(miredsRamp)
                            else RampStart(old(miredsRamp), mireds, 4000, now)
      ensures miredsRamp.current == old(miredsRamp).current
      ensures generation == if old(byTemperature) && old(mireds) == mireds then old(generation) else U32(old(generation) + 1)
    {
      var value := asked;
      if value < MIREDS_MIN {
        value := MIREDS_MIN;
      } else if value > MIREDS_MAX {
        value := MIREDS_MAX;
      }
      if byTemperature && mireds == value {
        return;
      }
      mireds := value;
      byTemperature := true;
      miredsRamp := RampStart(miredsRamp, value, FADE_MIREDS_MS, now);
      generation := U32(generation + 1);
    }

    method SetColor(value: Color)
      requires Valid()
      modifies this`color, this`byTemperature, this`generation
      ensures Valid() && color == value && !byTemperature
      ensures generation ==
                if !old(byTemperature) && old(color) == value then old(generation) else U32(old(generation) + 1)
    {
      if !byTemperature && color == value {
        return;
      }
      color := value;
      byTemperature := false;
      generation := U32(generation + 1);
    }

    method Tick(now: nat)
      requires Valid()
      modifies this`brightnessRamp, this`miredsRamp
      ensures Valid()
      ensures brightnessRamp == RampTick(old(brightnessRamp), now) && miredsRamp == RampTick(old(miredsRamp), now)
    {
      hide ValueAt;
      TickKeepsRange(brightnessRamp, 0, 255, now);
      TickKeepsRange(miredsRamp, MIREDS_MIN, MIREDS_MAX, now);
      brightnessRamp := RampTick(brightnessRamp, now);
      miredsRamp := RampTick(miredsRamp, now);
    }

    /** The clamp to a byte never has anything to do. */
    method CurrentBrightness() returns (value: int)
      requires Valid()
      ensures value == brightnessRamp.current && 0 <= value <= 255
    {
      var current := brightnessRamp.current;
      return if current < 0 then 0 else if current > 255 then 255 else current;
    }

    method CurrentMireds() returns (value: int)
      requires Valid()
      ensures value == miredsRamp.current && 153 <= value <= 500
    {
      var current: int := miredsRamp.current;
      return if current < MIREDS_MIN then MIREDS_MIN else if current > MIREDS_MAX then MIREDS_MAX else current;
    }
  }
}
