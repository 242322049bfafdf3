/**
  The 32 kHz clock calibration of pm.c: the fields of pmcd, the two integer
  filters, and the reference pair that ties the 32 kHz counter to the 16 MHz one.
  Signed results wrap to 32 bits and `>>` of a negative number rounds down, as on
  the target.
 */
module ClockDrift {
  import opened Bits

  // ------------------------------------------------------------- 32-bit arithmetic

  function Signed32(x: int): (r: int)
    ensures -0x8000_0000 <= r < 0x8000_0000
    ensures -0x8000_0000 <= x < 0x8000_0000 ==> r == x
  {
    (x + 0x8000_0000) % U32 - 0x8000_0000
  }

  /** C division: the quotient is truncated toward zero. */
  function CDiv(a: int, b: int): int
    requires b != 0
  {
    var q := (if a < 0 then -a else a) / (if b < 0 then -b else b);
    if (a < 0) == (b < 0) then q else -q
  }

  function Clamp(x: int, limit: int): int {
    if x > limit then limit else if x < -limit then -limit else x
  }

  // ------------------------------------------------------------------- the filter

  /** The two filter strengths in use, as the divisor 2^shift. */
  predicate Strength(k: int) {
    k == 8 || k == 16
  }

  /** s += (x - s) >> shift. */
  function Filter(s: int, x: int, k: int): int
    requires Strength(k)
  {
    if k == 8 then s + (x - s) / 8 else s + (x - s) / 16
  }

  /** The state moves toward the input and never past it. */
  lemma FilterInHull(s: int, x: int, k: int)
    requires Strength(k)
    ensures s <= x ==> s <= Filter(s, x, k) <= x
    ensures x <= s ==> x <= Filter(s, x, k) <= s
    ensures Filter(s, x, k) == s <==> 0 <= x - s < k
  {
  }

  function FilterTimes(s: int, x: int, k: int, n: nat): int
    requires Strength(k)
    decreases n
  {
    if n == 0 then s else FilterTimes(Filter(s, x, k), x, k, n - 1)
  }

  /** A constant input is reached from above exactly, from below up to k - 1, and then held. */
  lemma {:induction false} FilterSettles(s: int, x: int, k: int, n: nat)
    requires Strength(k)
    requires n >= (if s <= x then x - s else s - x)
    ensures 0 <= x - FilterTimes(s, x, k, n) < k
    ensures s >= x ==> FilterTimes(s, x, k, n) == x
    decreases n
  {
    FilterInHull(s, x, k);
    if n > 0 {
      if Filter(s, x, k) == s {
        FilterHolds(s, x, k, n);
      } else {
        FilterSettles(Filter(s, x, k), x, k, n - 1);
      }
    }
  }

  lemma {:induction false} FilterHolds(s: int, x: int, k: int, n: nat)
    requires Strength(k) && Filter(s, x, k) == s
    ensures FilterTimes(s, x, k, n) == s
    decreases n
  {
    if n > 0 {
      FilterHolds(s, x, k, n - 1);
    }
  }

  // -------------------------------------------------------------- what a filter moves to

  function Abs(x: int): nat {
    if x < 0 then -x else x
  }

  /** x is num / den, rounded toward zero and kept within limit. */
  ghost predicate Quotient(x: int, num: int, den: int, limit: nat) {
    && Abs(x) <= limit
    && (if num == 0 then x == 0 else if (num > 0) == (den > 0) then x >= 0 else x <= 0)
    && Abs(den) * Abs(x) <= Abs(num)
    && (Abs(x) < limit ==> Abs(num) < Abs(den) * (Abs(x) + 1))
  }

  /** s' is s moved toward x by a k-th of the way, rounded down. */
  predicate Moved(s: int, s': int, x: int, k: int) {
    k * (s' - s) <= x - s < k * (s' - s) + k
  }

  lemma CutQuotient(n: nat, d: nat, q: nat, limit: nat) returns (m: nat)
    requires d > 0 && d * q <= n < d * q + d
    ensures m == (if q > limit then limit else q) && d * m <= n && (m < limit ==> n < d * (m + 1))
  {
    m := if q > limit then limit else q;
    MulMonotone(d, m, q);
    assert d * (q + 1) == d * q + d;
  }

  /** The absolute value of a C quotient is the quotient of the absolute values. */
  lemma CDivParts(num: int, den: int) returns (q: nat)
    requires den != 0
    ensures Abs(den) * q <= Abs(num) < Abs(den) * q + Abs(den)
    ensures CDiv(num, den) == if (num < 0) == (den < 0) then q else -(q as int)
  {
    DivModSplit(Abs(num), Abs(den));
    QuotientNat(Abs(num), Abs(den));
    q := Abs(num) / Abs(den);
  }

  lemma ClampedQuotient(num: int, den: int, limit: nat)
    requires den != 0
    ensures Quotient(Clamp(CDiv(num, den), limit), num, den, limit)
  {
    var q := CDivParts(num, den);
    var m := CutQuotient(Abs(num), Abs(den), q, limit);
    var x := Clamp(CDiv(num, den), limit);
    assert Abs(x) == m;
    if num == 0 {
      NoMultiple(Abs(den), q);
    }
  }

  lemma NoMultiple(d: nat, q: nat)
    requires d > 0 && d * q <= 0
    ensures q == 0
  {
    if q > 0 {
      MulMonotone(d, 1, q);
    }
  }

  lemma FilterMoves(s: int, x: int, k: int)
    requires Strength(k)
    ensures Moved(s, Filter(s, x, k), x, k)
  {
  }

  // ------------------------------------------------------------------ the pmcd fields

  datatype Drift = Drift(
    refTick: word, refTick32k: word, offset: int, offsetDc: int, offsetCalTick: word,
    tc: int, rc32: int, calib: bool, refNo: byte)

  const INITIAL := Drift(0, 0, 0, 0, 0, 0, 0, false, 0)

  /** `| 1` */
  function OddTick(tick: word): word {
    if tick % 2 == 0 then tick + 1 else tick
  }

  lemma OddTickIsOr(tick: word)
    ensures OddTick(tick) == Or(tick, 1)
  {
    if tick > 0 {
      assert Or(tick / 2, 0) == tick / 2;
    }
  }

  /** More than 3 s of 32 kHz ticks since the reference, counted in 28 bits. */
  predicate Stale(d: Drift, tick32k: word) {
    (tick32k - d.refTick32k) % 0x1000_0000 > 32 * 3000
  }

  predicate NeedsReference(d: Drift, tick32k: word) {
    d.calib || d.refNo > 20 || d.refTick == 0 || Stale(d, tick32k)
  }

  function UpdateSleepTick(d: Drift, tick32k: word, tick: word): Drift {
    if NeedsReference(d, tick32k) then
      d.(calib := false, refTick32k := tick32k, refTick := OddTick(tick), refNo := 0)
    else d.(refNo := (d.refNo + 1) % 0x100)
  }

  function BleThreshold(cnt: int): int {
    var t := CDiv(cnt, 9600);
    0x100 * (if t == 0 then 1 else t)
  }

  /** The limit of the BLE calibration for a period of cnt ticks: 256 for each 9600 of them, and for less. */
  ghost predicate BleLimit(limit: nat, cnt: int) {
    var g := limit / 0x100;
    limit == 0x100 * g && 1 <= g && (g == 1 || 9600 * g <= cnt) && cnt < 9600 * (g + 1)
  }

  lemma BleThresholdIsLimit(cnt: int)
    requires cnt > 0
    ensures BleThreshold(cnt) > 0 && BleLimit(BleThreshold(cnt), cnt)
  {
  }

  function BleOffsetInput(offsetTick: int, cnt: int): int
    requires cnt != 0
  {
    Clamp(Signed32(CDiv(Signed32(offsetTick * (256 * 31)), cnt)), BleThreshold(cnt))
  }

  function OffsetInput(offsetTick: int, rc32: int): int
    requires rc32 != 0
  {
    Clamp(Signed32(CDiv(Signed32(offsetTick * (240 * 31)), rc32)), 0x100)
  }

  function BleCalOffset(d: Drift, offsetTick: int, cnt: int, now: word): Drift
    requires cnt != 0
  {
    d.(calib := true, offset := Filter(d.offset, BleOffsetInput(offsetTick, cnt), 16), offsetCalTick := OddTick(now))
  }

  function CalOffset(d: Drift, offsetTick: int): Drift
    requires d.rc32 != 0
  {
    d.(calib := true, offset := Filter(d.offset, OffsetInput(offsetTick, d.rc32), 16),
       offsetDc := Signed32(d.offsetDc + Signed32(offsetTick - d.offsetDc) / 8))
  }

  /** The product of a calibration fits an int, and so does its quotient. */
  predicate CalFits(offsetTick: int, factor: nat, den: int) {
    -0x8000_0000 < offsetTick * factor < 0x8000_0000 && den != 0
  }

  lemma CDivFits(num: int, den: int)
    requires -0x8000_0000 < num < 0x8000_0000 && den != 0
    ensures Signed32(CDiv(Signed32(num), den)) == CDiv(num, den)
  {
    var n, d := Abs(num), Abs(den);
    DivModSplit(n, d);
    QuotientNat(n, d);
    MulMonotone(n / d, 1, d);
  }

  lemma DcMoves(dc: int, offsetTick: int)
    requires Abs(offsetTick) < 0x4000_0000 && Abs(dc) < 0x4000_0000
    ensures Moved(dc, Signed32(dc + Signed32(offsetTick - dc) / 8), offsetTick, 8)
  {
  }

  /** The offset moved toward offsetTick * 7440 / rc32, kept within 0x100, and the running mean toward offsetTick. */
  ghost predicate Calibrated(d: Drift, d': Drift, offsetTick: int) {
    && (CalFits(offsetTick, 7440, d.rc32) ==>
          exists x :: Quotient(x, 7440 * offsetTick, d.rc32, 0x100) && Moved(d.offset, d'.offset, x, 16))
    && (Abs(offsetTick) < 0x4000_0000 && Abs(d.offsetDc) < 0x4000_0000 ==>
          Moved(d.offsetDc, d'.offsetDc, offsetTick, 8))
  }

  lemma CalMovesToward(d: Drift, offsetTick: int)
    requires d.rc32 != 0
    ensures Calibrated(d, CalOffset(d, offsetTick), offsetTick)
  {
    if Abs(offsetTick) < 0x4000_0000 && Abs(d.offsetDc) < 0x4000_0000 {
      DcMoves(d.offsetDc, offsetTick);
    }
    if CalFits(offsetTick, 7440, d.rc32) {
      CDivFits(7440 * offsetTick, d.rc32);
      ClampedQuotient(7440 * offsetTick, d.rc32, 0x100);
      FilterMoves(d.offset, OffsetInput(offsetTick, d.rc32), 16);
    }
  }

  /** With the BLE calibration toward offset_tick * 7936 / cnt, kept within the limit for cnt. */
  lemma BleCalMovesToward(d: Drift, offsetTick: int, cnt: int, now: word)
    requires CalFits(offsetTick, 7936, cnt) && cnt > 0
    ensures exists x, limit: nat :: Quotient(x, 7936 * offsetTick, cnt, limit) && BleLimit(limit, cnt)
                        && Moved(d.offset, BleCalOffset(d, offsetTick, cnt, now).offset, x, 16)
  {
    BleThresholdIsLimit(cnt);
    CDivFits(7936 * offsetTick, cnt);
    ClampedQuotient(7936 * offsetTick, cnt, BleThreshold(cnt));
    FilterMoves(d.offset, BleOffsetInput(offsetTick, cnt), 16);
  }

  function Reset(d: Drift): Drift {
    d.(offset := 0, tc := 0, refTick := 0, offsetCalTick := 0)
  }

  function InitialOffset(d: Drift): Drift {
    d.(offset := 0, tc := 0, refTick := 0)
  }

  /** One reading of the calibration register. */
  function Sample(d: Drift, sample: nat): Drift {
    d.(tc := if d.tc == 0 then 16 * sample else Filter(d.tc, 16 * sample, if d.calib then 8 else 16))
  }

  /** The calibration value handed out: the filtered sample, corrected by the offset. */
  function Compensated(d: Drift): int {
    d.tc / 16 + Signed32(d.offset * (d.tc / 16)) / 0x4_0000
  }

  // ----------------------------------------------------------------- events and runs

  datatype Event =
    | Sleep(tick32k: word, tick: word)
    | Woke(rc32: int)
    | BleCal(offsetTick: int, cnt: int, now: word)
    | Cal(offsetTick: int)
    | Calibrate(sample: nat)
    | ResetCal
    | InitOffset

  /** A division by zero is the caller's to avoid; samples are non-zero and fit when scaled. */
  predicate Possible(d: Drift, e: Event) {
    match e
    case Cal(_) => d.rc32 != 0
    case BleCal(_, cnt, _) => 0 < cnt < 0x8000_0000
    case Calibrate(sample) => 0 < sample < 0x800_0000
    case _ => true
  }

  function Handle(d: Drift, e: Event): Drift
    requires Possible(d, e)
  {
    match e
    case Sleep(tick32k, tick) => UpdateSleepTick(d, tick32k, tick)
    case Woke(rc32) => d.(rc32 := rc32)
    case BleCal(offsetTick, cnt, now) => BleCalOffset(d, offsetTick, cnt, now)
    case Cal(offsetTick) => CalOffset(d, offsetTick)
    case Calibrate(sample) => Sample(d, sample)
    case ResetCal => Reset(d)
    case InitOffset => InitialOffset(d)
  }

  ghost predicate Leads(d: Drift, events: seq<Event>, d': Drift)
    decreases events
  {
    if events == [] then d' == d
    else Possible(d, events[0]) && Leads(Handle(d, events[0]), events[1..], d')
  }

  // -------------------------------------------------------------- hulls over all runs

  /** The clamp an event puts on the offset filter's input is at most b. */
  predicate OffsetBound(e: Event, b: int) {
    match e
    case Cal(_) => 0x100 <= b
    case BleCal(_, cnt, _) => BleThreshold(cnt) <= b
    case _ => true
  }

  lemma OffsetStep(d: Drift, e: Event, b: int)
    requires Possible(d, e) && OffsetBound(e, b) && -b <= d.offset <= b
    ensures -b <= Handle(d, e).offset <= b
  {
    match e
    case Cal(offsetTick) =>
      FilterInHull(d.offset, OffsetInput(offsetTick, d.rc32), 16);
    case BleCal(offsetTick, cnt, now) =>
      FilterInHull(d.offset, BleOffsetInput(offsetTick, cnt), 16);
    case _ =>
  }

  /** The offset stays within the widest clamp used; without BLE calibration that is 0x100. */
  lemma {:induction false} OffsetStaysClamped(d: Drift, events: seq<Event>, d': Drift, b: int)
    requires Leads(d, events, d') && -b <= d.offset <= b
    requires forall i :: 0 <= i < |events| ==> OffsetBound(events[i], b)
    ensures -b <= d'.offset <= b
    decreases events
  {
    if events != [] {
      OffsetStep(d, events[0], b);
      OffsetStaysClamped(Handle(d, events[0]), events[1..], d', b);
    }
  }

  predicate SampleBetween(e: Event, lo: nat, hi: nat) {
    e.Calibrate? ==> lo <= e.sample <= hi
  }

  /** No sample yet, or a filtered value between the extreme samples. */
  predicate TcBetween(d: Drift, lo: nat, hi: nat) {
    d.tc == 0 || 16 * lo <= d.tc <= 16 * hi
  }

  lemma {:induction false} TcStaysInHull(d: Drift, events: seq<Event>, d': Drift, lo: nat, hi: nat)
    requires 0 < lo && Leads(d, events, d') && TcBetween(d, lo, hi)
    requires forall i :: 0 <= i < |events| ==> SampleBetween(events[i], lo, hi)
    ensures TcBetween(d', lo, hi)
    ensures events != [] && events[|events| - 1].Calibrate? ==> d'.tc > 0
    decreases events
  {
    if events != [] {
      var e := events[0];
      if e.Calibrate? {
        FilterInHull(d.tc, 16 * e.sample, if d.calib then 8 else 16);
      }
      TcStaysInHull(Handle(d, e), events[1..], d', lo, hi);
    }
  }

  /** With the offset in its range the correction is at most one part in 1024, and one. */
  lemma CompensationIsSmall(d: Drift)
    requires 0 <= d.tc < 0x800_0000 && -0x100 <= d.offset <= 0x100
    ensures var base := d.tc / 16;
            base - base / 1024 - 1 <= Compensated(d) <= base + base / 1024
    ensures Moved(d.tc / 16, Compensated(d), d.tc / 16 + d.offset * (d.tc / 16), 0x4_0000)
  {
    var base := d.tc / 16;
    MulMonotone(base, -0x100, d.offset);
    MulMonotone(base, d.offset, 0x100);
    assert base * d.offset == d.offset * base;
  }

  // -------------------------------------------------------- the reference pair, over runs

  /** What the model remembers beside the fields: the sleeps so far, and calibrations since the last. */
  datatype History = History(sleeps: seq<(word, word)>, calibrated: bool)

  function Remember(h: History, e: Event): History {
    match e
    case Sleep(tick32k, tick) => History(h.sleeps + [(tick32k, tick)], false)
    case BleCal(_, _, _) => h.(calibrated := true)
    case Cal(_) => h.(calibrated := true)
    case _ => h
  }

  /**
    The reference pair was taken at one single sleep, at most 21 sleeps before the
    last one; the calibration flag says whether a calibration came after the last sleep.
   */
  ghost predicate Anchored(d: Drift, h: History) {
    && d.refNo <= 21
    && (d.calib <==> h.calibrated)
    && (d.refTick != 0 ==>
          var i := |h.sleeps| - 1 - d.refNo;
          0 <= i && d.refTick32k == h.sleeps[i].0 && d.refTick == OddTick(h.sleeps[i].1))
  }

  ghost predicate LeadsWith(d: Drift, h: History, events: seq<Event>, d': Drift, h': History)
    decreases events
  {
    if events == [] then d' == d && h' == h
    else Possible(d, events[0]) && LeadsWith(Handle(d, events[0]), Remember(h, events[0]), events[1..], d', h')
  }

  lemma AnchoredStep(d: Drift, h: History, e: Event)
    requires Possible(d, e) && Anchored(d, h)
    ensures Anchored(Handle(d, e), Remember(h, e))
  {
  }

  lemma {:induction false} ReferenceIsRecent(d: Drift, h: History, events: seq<Event>, d': Drift, h': History)
    requires Anchored(d, h) && LeadsWith(d, h, events, d', h')
    ensures Anchored(d', h')
    decreases events
  {
    if events != [] {
      AnchoredStep(d, h, events[0]);
      ReferenceIsRecent(Handle(d, events[0]), Remember(h, events[0]), events[1..], d', h');
    }
  }

  /** Going to sleep always leaves a usable reference, not more than 3 s old. */
  lemma SleepLeavesReference(d: Drift, tick32k: word, tick: word)
    ensures var d' := UpdateSleepTick(d, tick32k, tick);
            d'.refTick != 0 && !d'.calib && !Stale(d', tick32k)
  {
  }

  /**
    A reference is kept exactly when there is one, no calibration came since, it
    has served at most 21 sleeps and is at most 3 s of 32 kHz ticks old.
   */
  lemma GoodReferenceIsKept(d: Drift, tick32k: word, tick: word)
    ensures var d' := UpdateSleepTick(d, tick32k, tick);
            d'.refNo == (d.refNo + 1) % 0x100 && d'.refNo != 0 && d'.calib == d.calib == false
            && d'.refTick == d.refTick != 0 && d'.refTick32k == d.refTick32k
            <==> !d.calib && d.refTick != 0 && d.refNo <= 20 && (tick32k - d.refTick32k) % 0x1000_0000 <= 96_000
  {
  }

  // ------------------------------------------------------------------------ the object

  /** pmcd, updated in place. */
  class PmClock {
    var refTick: word
    var refTick32k: word
    var offset: int
    var offsetDc: int
    var offsetCalTick: word
    var tc: int
    var rc32: int
    var calib: bool
    var refNo: byte

    constructor ()
      ensures State() == INITIAL
    {
      refTick, refTick32k, offset, offsetDc, offsetCalTick := 0, 0, 0, 0, 0;
      tc, rc32, calib, refNo := 0, 0, false, 0;
    }

    function State(): Drift
      reads this
    {
      Drift(refTick, refTick32k, offset, offsetDc, offsetCalTick, tc, rc32, calib, refNo)
    }

    method UpdateRcSleepTick(tick32k: word, tick: word)
      modifies this
      ensures State() == UpdateSleepTick(old(State()), tick32k, tick)
      ensures refNo != 0 <==> !old(calib) && old(refTick) != 0 && old(refNo) <= 20
                              && (tick32k - old(refTick32k)) % 0x1000_0000 <= 96_000
      ensures refNo != 0 ==> refTick == old(refTick) && refTick32k == old(refTick32k) && !calib
      ensures refNo == 0 ==> refTick == Or(tick, 1) && refTick32k == tick32k && !calib
    {
      GoodReferenceIsKept(State(), tick32k, tick);
      if calib || refNo > 20 || refTick == 0 || (tick32k - refTick32k) % 0x1000_0000 > 32 * 3000 {
        calib := false;
        refTick32k := tick32k;
        OddTickIsOr(tick);
        refTick := Or(tick, 1);
        refNo := 0;
      } else {
        refNo := (refNo + 1) % 0x100;
      }
    }

    method RcOffsetInit()
      modifies this
      ensures State() == InitialOffset(old(State()))
      ensures offset == tc == refTick == 0
      ensures offsetCalTick == old(offsetCalTick) && calib == old(calib) && refNo == old(refNo)
      ensures refTick32k == old(refTick32k) && rc32 == old(rc32)
    {
      offset := 0;
      tc := 0;
      refTick := 0;
    }

    method BleRcCalReset()
      modifies this
      ensures State() == Reset(old(State()))
      ensures offset == tc == refTick == offsetCalTick == 0
      ensures calib == old(calib) && refNo == old(refNo) && refTick32k == old(refTick32k) && rc32 == old(rc32)
    {
      offset := 0;
      tc := 0;
      refTick := 0;
      offsetCalTick := 0;
    }

    method BleCalRcOffset(offsetTick: int, cnt: int, now: word)
      requires cnt != 0
      modifies this
      ensures State() == BleCalOffset(old(State()), offsetTick, cnt, now)
      ensures CalFits(offsetTick, 7936, cnt) && cnt > 0 ==>
                exists x, limit: nat :: Quotient(x, 7936 * offsetTick, cnt, limit) && BleLimit(limit, cnt)
                                        && Moved(old(offset), offset, x, 16)
    {
      var off := Signed32(CDiv(Signed32(offsetTick * (256 * 31)), cnt));
      if CalFits(offsetTick, 7936, cnt) && cnt > 0 {
        BleCalMovesToward(State(), offsetTick, cnt, now);
      }
      var thres := CDiv(cnt, 9600);
      if thres == 0 {
        thres := 1;
      }
      thres := thres * 0x100;
      if off > thres {
        off := thres;
      } else if off < -thres {
        off := -thres;
      }
      calib := true;
      offset := offset + (off - offset) / 16;
      OddTickIsOr(now);
      offsetCalTick := Or(now, 1);
    }

    method CalRcOffset(offsetTick: int)
      requires rc32 != 0
      modifies this
      ensures State() == CalOffset(old(State()), offsetTick)
      ensures Calibrated(old(State()), State(), offsetTick)
    {
      var off := Signed32(CDiv(Signed32(offsetTick * (240 * 31)), rc32));
      if off > 0x100 {
        off := 0x100;
      } else if off < -0x100 {
        off := -0x100;
      }
      calib := true;
      CalMovesToward(State(), offsetTick);
      offset := offset + (off - offset) / 16;
      offsetDc := Signed32(offsetDc + Signed32(offsetTick - offsetDc) / 8);
    }

    /** pm_get_32k_rc_calib, once the calibration register holds a non-zero sample. */
    method GetRcCalib(sample: nat) returns (r: word)
      requires 0 < sample < 0x800_0000
      modifies this
      ensures State() == Sample(old(State()), sample)
      ensures if old(tc) == 0 then tc == 16 * sample else Moved(old(tc), tc, 16 * sample, if calib then 8 else 16)
      ensures r == Compensated(State()) % U32
    {
      var t := sample * 16;
      if tc == 0 {
        tc := t;
      } else if calib {
        tc := tc + (t - tc) / 8;
      } else {
        tc := tc + (t - tc) / 16;
      }
      var off := Signed32(offset * (tc / 16)) / 0x4_0000;
      off := tc / 16 + off;
      r := off % U32;
    }
  }
}
