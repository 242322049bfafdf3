/**
  Converting a wake-up time from 16 MHz ticks to 32 kHz ticks before a sleep, and
  the elapsed 32 kHz ticks back to 16 MHz afterwards (pm.c). `calib` is the number
  of 16 MHz ticks in 32 periods of the 32 kHz clock. All counters wrap at 2^32.
 */
module SleepTicks {
  import opened Bits
  import opened ClockDrift

  const LONG_SPAN: nat := 0x07ff_0000

  function Span(from: word, to: word): word {
    (to - from) % U32
  }

  /** The 32 kHz ticks programmed for `delta` 16 MHz ticks: whole groups of 32, or rounded to the nearest tick. */
  function TicksFor(delta: word, calib: word, long: bool): word
    requires calib > 0
  {
    if long then (Div(delta, calib) * 32) % U32
    else Div((delta * 32 % U32 + calib / 2) % U32, calib)
  }

  /** The 16 MHz ticks that `count` 32 kHz ticks stand for when the system timer is set again. */
  function TicksOf(count: word, calib: word, long: bool): word {
    if long then Times(count / 32, calib) % U32 else Times(count, calib) % U32 / 32
  }

  // -------------------------------------------------------------------- the short form

  /** Nothing wraps in the short form for spans up to its limit. */
  lemma ShortFits(delta: word, calib: word)
    requires delta <= LONG_SPAN && 0 < calib < 0x40_0000
    ensures delta * 32 + calib / 2 < U32
    ensures TicksFor(delta, calib, false) == Div(delta * 32 + calib / 2, calib)
  {
    NoWrap(delta * 32);
    NoWrap(delta * 32 + calib / 2);
  }

  lemma NoWrap(x: nat)
    requires x < U32
    ensures x % U32 == x
  {
  }

  /** Sleeping and coming back at the programmed tick loses or gains at most calib/64 + 1 ticks. */
  lemma ShortRoundTrip(delta: word, calib: word)
    requires delta <= LONG_SPAN && 0 < calib < 0x40_0000
    ensures var back := TicksOf(TicksFor(delta, calib, false), calib, false);
            delta - calib / 64 - 1 <= back <= delta + calib / 64 + 1
  {
    var count := TicksFor(delta, calib, false);
    var x := Times(count, calib);
    ShortFits(delta, calib);
    DivBounds(delta * 32 + calib / 2, calib);
    NoWrap(x);
    HalfAStep(delta, calib, x);
  }

  lemma HalfAStep(delta: nat, calib: nat, x: nat)
    requires x <= delta * 32 + calib / 2 < x + calib
    ensures delta - calib / 64 - 1 <= x / 32 <= delta + calib / 64 + 1
  {
  }

  /** The short form recovers the true product exactly while it does not pass 2^32, modulo 2^37. */
  lemma ShortRecoveryExact(count: word, calib: word)
    ensures TicksOf(count, calib, false) == ((count * calib) / 32) % U32
            <==> (count * calib) % 0x20_0000_0000 < U32
  {
    TimesIsProduct(count, calib);
    WrappedQuotient(Times(count, calib));
  }

  /** 131072 ticks of 32 kHz at 32768: the product is 2^32, and nothing of it is recovered. */
  lemma RecoveryInstance()
    ensures TicksOf(0x2_0000, 0x8000, false) == 0 && 0x2_0000 * 0x8000 / 32 == 0x800_0000
  {
    TimesIsProduct(0x2_0000, 0x8000);
  }

  lemma WrappedQuotient(x: nat)
    ensures (x % U32) / 32 == (x / 32) % U32 <==> x % 0x20_0000_0000 < U32
  {
    var q, r := x / 0x20_0000_0000, x % 0x20_0000_0000;
    ModUnique(x / 32, U32, q, r / 32);
    ModUnique(x, U32, 32 * q + r / U32, r % U32);
    if r >= U32 {
      assert r == U32 * (r / U32) + r % U32 && r / U32 >= 1;
      assert r / 32 == 0x800_0000 * (r / U32) + (r % U32) / 32;
    }
  }

  // --------------------------------------------------------------------- the long form

  lemma GroupsFit(q: nat, delta: word, calib: word)
    requires calib >= 32 && Times(q, calib) <= delta
    ensures q * 32 < U32
  {
    TimesIsProduct(q, calib);
    MulMonotone(q, 32, calib);
  }

  /** The long form is never late, and less than one calibration unit early. */
  lemma LongRoundTrip(delta: word, calib: word)
    requires calib >= 32
    ensures var back := TicksOf(TicksFor(delta, calib, true), calib, true);
            back <= delta < back + calib
  {
    var q := Div(delta, calib);
    DivBounds(delta, calib);
    GroupsFit(q, delta, calib);
    NoWrap(q * 32);
    NoWrap(Times(q, calib));
    assert q * 32 / 32 == q;
  }

  /** span is in whole calibration units, the most that do not exceed count periods of the 32 kHz clock. */
  ghost predicate WholeUnits(span: int, count: nat, calib: nat)
    requires calib > 0
  {
    span % calib == 0 && 32 * span <= count * calib < 32 * (span + calib)
  }

  lemma GroupsOf32(count: nat, q: nat, calib: nat)
    requires calib > 0 && 32 * q <= count < 32 * q + 32
    ensures WholeUnits(q * calib, count, calib)
  {
    ModUnique(calib * q, calib, q, 0);
    assert q * calib == calib * q;
    MulMonotone(calib, 32 * q, count);
    MulMonotone(calib, count + 1, 32 * q + 32);
    assert calib * (32 * q) == 32 * (q * calib);
    assert calib * (32 * q + 32) == 32 * (q * calib + calib);
  }

  /** The long form gives whole units for every count, as long as they do not pass 2^32. */
  lemma LongRecovery(count: word, calib: word)
    requires calib > 0 && count / 32 * calib < U32
    ensures WholeUnits(TicksOf(count, calib, true), count, calib)
  {
    var q := count / 32;
    TimesIsProduct(q, calib);
    NoWrap(q * calib);
    GroupsOf32(count, q, calib);
  }

  /** The limit is the largest span that fits the short form with every calibration value below 2^22. */
  lemma LongSpanIsLargest(delta: word)
    ensures delta <= 0x07ff_0000 <==> forall calib: nat :: 0 < calib < 0x40_0000 ==> delta * 32 + calib / 2 < U32
    ensures LONG_SPAN == 0x07ff_0000
  {
    if delta > LONG_SPAN {
      var calib: nat := 0x3f_ffff;
      assert delta * 32 + calib / 2 >= U32;
    }
  }

  /** n 32 kHz ticks are the most whole groups of 32 within delta, or the nearest number to it. */
  ghost predicate Programmed(n: nat, delta: nat, calib: nat, long: bool) {
    if long then n % 32 == 0 && n * calib <= 32 * delta < n * calib + 32 * calib
    else n * calib <= 32 * delta + calib / 2 < n * calib + calib
  }

  lemma GroupsWithin(q: nat, delta: nat, calib: nat)
    requires Times(q, calib) <= delta < Times(q, calib) + calib
    ensures Programmed(q * 32, delta, calib, true)
  {
    TimesIsProduct(q, calib);
    assert (q * 32) * calib == 32 * (q * calib);
  }

  /** What is programmed, wherever the short form is used and fits, and always for the long one. */
  lemma TicksForExact(delta: word, calib: word, long: bool)
    requires if long then calib >= 32 else delta <= LONG_SPAN && 0 < calib < 0x40_0000
    ensures Programmed(TicksFor(delta, calib, long), delta, calib, long)
  {
    if long {
      var q := Div(delta, calib);
      DivBounds(delta, calib);
      GroupsFit(q, delta, calib);
      NoWrap(q * 32);
      GroupsWithin(q, delta, calib);
    } else {
      ShortFits(delta, calib);
      DivBounds(delta * 32 + calib / 2, calib);
      TimesIsProduct(TicksFor(delta, calib, false), calib);
    }
  }

  // -------------------------------------------------------- with the wrapping counters

  /** The form chosen: for a wake-up by the 16 MHz timer by the span, otherwise as it was. */
  function ChooseLong(before: bool, timerWakeup: bool, stimer: bool, ref: word, target: word): bool {
    if timerWakeup && stimer then Span(ref, target) > LONG_SPAN else before
  }

  function TickReset(refTick32k: word, ref: word, target: word, calib: word, long: bool): word
    requires calib > 0
  {
    (refTick32k + TicksFor(Span(ref, target), calib, long)) % U32
  }

  /** The 16 MHz counter as set at 32 kHz count `now`. */
  function Recovered(refTick32k: word, ref: word, now: word, calib: word, long: bool): word {
    (ref + TicksOf(Span(refTick32k, now), calib, long)) % U32
  }

  lemma SpanOfSum(from: word, n: word)
    ensures Span(from, (from + n) % U32) == n
  {
  }

  /** Moving a wrapped counter by an error. */
  function Shifted(t: word, e: int): word {
    (t + e) % U32
  }

  lemma ShiftedBySpan(ref: word, target: word, back: word)
    ensures (ref + back) % U32 == Shifted(target, (back as int) - Span(ref, target))
  {
  }

  /**
    Waking by the timer at the programmed tick: the recovered time is the
    requested one, up to calib/64 + 1 ticks either way after a short sleep, and
    less than calib early and never late after a long one, wherever the counters
    wrapped in between.
   */
  lemma TimerSleepRoundTrip(refTick32k: word, ref: word, target: word, calib: word, before: bool)
    returns (e: int)
    requires 32 <= calib < 0x40_0000
    ensures var long := ChooseLong(before, true, true, ref, target);
            && Recovered(refTick32k, ref, TickReset(refTick32k, ref, target, calib, long), calib, long)
               == Shifted(target, e)
            && if long then 0 - calib < e <= 0 else 0 - calib / 64 - 1 <= e <= calib / 64 + 1
  {
    var long := ChooseLong(before, true, true, ref, target);
    var delta := Span(ref, target);
    var n := TicksFor(delta, calib, long);
    SpanOfSum(refTick32k, n);
    var back := TicksOf(n, calib, long);
    ShiftedBySpan(ref, target, back);
    e := (back as int) - delta;
    if long {
      LongRoundTrip(delta, calib);
    } else {
      ShortRoundTrip(delta, calib);
    }
  }

  // ------------------------------------------------------------------------ the object

  lemma SpanToNext(from: word, now: word)
    ensures Span(from, (now + 1) % U32) == (now + 1 - from) % U32
  {
  }

  /** How far the recovered time is from the reference. */
  lemma RecoveredSpan(refTick32k: word, ref: word, now: word, calib: word, long: bool)
    ensures var count, span := Span(refTick32k, now), Span(ref, Recovered(refTick32k, ref, now, calib, long));
            && (long && calib > 0 && count / 32 * calib < U32 ==> WholeUnits(span, count, calib))
            && (!long && count * calib < U32 ==> span == count * calib / 32)
  {
    var count := Span(refTick32k, now);
    SpanOfSum(ref, TicksOf(count, calib, long));
    if long {
      if calib > 0 && count / 32 * calib < U32 {
        LongRecovery(count, calib);
      }
    } else if count * calib < U32 {
      TimesIsProduct(count, calib);
      NoWrap(count * calib);
    }
  }

  /** The variables of pm.c that take part. */
  class SleepTimer {
    const clock: PmClock
    var calib: word
    var long: bool
    var tickCur: word
    var tick32kCur: word
    var rc32Wakeup: word

    constructor (clock: PmClock)
      ensures this.clock == clock && !long
    {
      this.clock := clock;
      calib, long, tickCur, tick32kCur, rc32Wakeup := 0, false, 0, 0, 0;
    }

    /** The part of pm_sleep_wakeup that computes the 32 kHz wake-up tick. */
    method ProgramWakeup(timerWakeup: bool, stimer: bool, tickWakeupReset: word) returns (tickReset: word)
      requires calib > 0
      modifies this`long
      ensures long == ChooseLong(old(long), timerWakeup, stimer, clock.refTick, tickWakeupReset)
      ensures stimer ==> tickReset == TickReset(clock.refTick32k, clock.refTick, tickWakeupReset, calib, long)
      ensures var n, delta := Span(clock.refTick32k, tickReset), Span(clock.refTick, tickWakeupReset);
              stimer && (if long then calib >= 32 else delta <= LONG_SPAN && calib < 0x40_0000)
              ==> Programmed(n, delta, calib, long)
      ensures !stimer ==> tickReset == (tick32kCur + tickWakeupReset) % U32
    {
      var half := calib / 2;
      var delta := (tickWakeupReset - clock.refTick) % U32;
      DivIsQuotient(delta, calib);
      DivIsQuotient((delta * 32 % U32 + half) % U32, calib);
      if timerWakeup && stimer {
        long := delta > LONG_SPAN;
      }
      SpanOfSum(clock.refTick32k, TicksFor(delta, calib, long));
      if if long then calib >= 32 else delta <= LONG_SPAN && calib < 0x40_0000 {
        TicksForExact(delta, calib, long);
      }
      if stimer {
        if long {
          tickReset := (clock.refTick32k + (delta / calib * 32) % U32) % U32;
        } else {
          tickReset := (clock.refTick32k + (delta * 32 % U32 + half) % U32 / calib) % U32;
        }
      } else {
        tickReset := (tick32kCur + tickWakeupReset) % U32;
      }
    }

    /** Setting the system timer after a sleep, at the 32 kHz edge after `now`. */
    method Recover(now: word) returns (systemTick: word)
      modifies this`tickCur, this`rc32Wakeup, clock
      ensures tickCur == Recovered(old(clock.refTick32k), old(clock.refTick), (now + 1) % U32, calib, long)
      ensures var count, span := Span(old(clock.refTick32k), (now + 1) % U32), Span(old(clock.refTick), tickCur);
              && (long && calib > 0 && count / 32 * calib < U32 ==> WholeUnits(span, count, calib))
              && (!long && count * calib < U32 ==> span == count * calib / 32)
      ensures systemTick == (tickCur + 1) % U32
      ensures rc32Wakeup == (now + 1) % U32
      ensures clock.State() == old(clock.State()).(rc32 := Signed32((now + 1 - old(clock.refTick32k)) % U32))
    {
      var count := (now + 1 - clock.refTick32k) % U32;
      SpanToNext(clock.refTick32k, now);
      RecoveredSpan(clock.refTick32k, clock.refTick, (now + 1) % U32, calib, long);
      if long {
        TimesIsProduct(count / 32, calib);
        tickCur := (clock.refTick + count / 32 * calib % U32) % U32;
      } else {
        TimesIsProduct(count, calib);
        tickCur := (clock.refTick + count * calib % U32 / 32) % U32;
      }
      rc32Wakeup := (now + 1) % U32;
      clock.rc32 := Signed32(count);
      systemTick := (tickCur + 1) % U32;
    }
  }
}
