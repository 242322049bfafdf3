/**
  `uart_cal_div_and_bwpc` of uart.c: the clock divider and the bit width for a
  baud rate. All thirteen widths are tried, each rounded down and up, and the one
  with the smallest tenths digit, or the largest, is taken.
 */
module UartDivisor {
  import opened Bits
  import opened UartPrime

  const WIDTHS: nat := 13

  /** What uart_is_prime answers 1 for, as far as it is used here. */
  ghost predicate TakenForPrime(n: nat) {
    n <= 3 || Prime(n) || MissedSquare(n)
  }

  lemma EvenIsNotTaken(n: nat)
    requires n > 3 && n % 2 == 0
    ensures !TakenForPrime(n)
  {
    MultipleOfTwoOrThree(n);
  }

  // ------------------------------------------------------------------- candidates

  /** Ten times the divider for the j-th width, which is j + 4 clocks. */
  function Scaled(p: nat, j: nat): nat {
    Div(10 * p, j + 4)
  }

  function Tenths(p: nat, j: nat): nat {
    Scaled(p, j) % 10
  }

  function Whole(p: nat, j: nat): nat {
    Scaled(p, j) / 10
  }

  /** A width with a whole part of 1 is not rounded down. */
  predicate Eligible(p: nat, j: nat, up: bool) {
    j < WIDTHS && (up || Whole(p, j) != 1)
  }

  /** How far the rounding moves the divider, in tenths. */
  function Distance(p: nat, j: nat, up: bool): nat {
    if up then 10 - Tenths(p, j) else Tenths(p, j)
  }

  /** The register value: the divider less one. */
  function DivValue(p: nat, j: nat, up: bool): int {
    if up then Whole(p, j) else Whole(p, j) - 1
  }

  /** The choice (j, up) is better than (k, v): nearer, or as near but rounded up, or the wider of two rounded alike. */
  predicate Better(p: nat, j: nat, up: bool, k: nat, v: bool) {
    var d, e := Distance(p, j, up), Distance(p, k, v);
    d < e || (d == e && if up == v then k < j else up)
  }

  /** The one best choice over all widths and both roundings. */
  ghost predicate Nearest(p: nat, j: nat, up: bool) {
    Eligible(p, j, up) &&
    forall k, v :: Eligible(p, k, v) && (k != j || v != up) ==> Better(p, j, up, k, v)
  }

  lemma BetterIsOneWay(p: nat, j: nat, up: bool, k: nat, v: bool)
    ensures !(Better(p, j, up, k, v) && Better(p, k, v, j, up))
  {
  }

  /** There is only one best choice. */
  lemma NearestIsUnique(p: nat, j: nat, up: bool, k: nat, v: bool)
    requires Nearest(p, j, up) && Nearest(p, k, v)
    ensures j == k && up == v
  {
    BetterIsOneWay(p, j, up, k, v);
  }

  /** div and bwpc are the register values of the best choice. */
  ghost predicate BestRegisters(p: nat, div: nat, bwpc: nat) {
    bwpc >= 3 &&
    (RegistersOf(p, bwpc - 3, false, div) || RegistersOf(p, bwpc - 3, true, div))
  }

  ghost predicate RegistersOf(p: nat, j: nat, up: bool, div: nat) {
    Nearest(p, j, up) && div == DivValue(p, j, up) % 0x1_0000
  }

  /** The best choice moves the divider by half a unit at most. */
  lemma NearestIsClose(p: nat, j: nat, up: bool)
    requires Nearest(p, j, up)
    ensures Distance(p, j, up) <= 5 && (!up ==> Distance(p, j, up) <= 4)
  {
    assert Eligible(p, j, true);
    if !up {
      assert Better(p, j, up, j, true);
    } else if Whole(p, j) == 1 {
      SomeWidthEligible(p);
      var k := if Whole(p, 0) != 1 then 0 else 12;
      assert Eligible(p, k, false) && Eligible(p, k, true);
      assert Better(p, j, up, k, false);
      if k != j {
        assert Better(p, j, up, k, true);
      }
    } else {
      assert Eligible(p, j, false) && Better(p, j, up, j, false);
    }
  }

  /** The last of the first n widths that can be rounded down with the least tenths. */
  ghost predicate LowestOf(p: nat, n: nat, j: nat) {
    j < n <= WIDTHS && Whole(p, j) != 1 &&
    forall k :: 0 <= k < n && Whole(p, k) != 1 && k != j ==>
      Tenths(p, j) < Tenths(p, k) || (Tenths(p, j) == Tenths(p, k) && k < j)
  }

  /** The last of the first n widths with the most tenths. */
  ghost predicate HighestOf(p: nat, n: nat, j: nat) {
    j < n <= WIDTHS &&
    forall k :: 0 <= k < n && k != j ==> Tenths(p, k) < Tenths(p, j) || (Tenths(p, j) == Tenths(p, k) && k < j)
  }

  /** The choice made from the two extremes. */
  function ChooseUp(low: nat, high: nat): bool {
    !(low < 5 && (high < 5 || low < 10 - high))
  }

  lemma ChoiceIsNearest(p: nat, low: nat, high: nat)
    requires LowestOf(p, WIDTHS, low) && HighestOf(p, WIDTHS, high)
    ensures var up := ChooseUp(Tenths(p, low), Tenths(p, high));
            var j := if up then high else low;
            Nearest(p, j, up)
  {
  }

  // -------------------------------------------------------------- how good the choice is

  lemma ScaledParts(p: nat, j: nat)
    ensures (j + 4) * Scaled(p, j) <= 10 * p < (j + 4) * Scaled(p, j) + (j + 4)
    ensures Scaled(p, j) == 10 * Whole(p, j) + Tenths(p, j)
  {
    ScaledBounds(p, j, Scaled(p, j));
  }

  lemma ScaledBounds(p: nat, j: nat, q: nat)
    requires q == Div(10 * p, j + 4)
    ensures (j + 4) * q <= 10 * p < (j + 4) * q + (j + 4)
  {
    DivBounds(10 * p, j + 4);
    TimesIsProduct(q, j + 4);
    Commuted(q, j + 4);
  }

  lemma Commuted(x: int, y: int)
    ensures x * y == y * x
  {
  }

  lemma PartsOfProduct(w: nat, d: nat, t: nat)
    ensures w * (10 * d + t) == 10 * (w * d) + w * t
    ensures w * (d + 1) == w * d + w
  {
  }

  /** w times the rounded divider, for a divider of d and t tenths. */
  lemma RoundedProduct(w: nat, p: nat, s: nat, d: nat, t: nat, up: bool)
    requires w <= 16 && s == 10 * d + t && w * s <= 10 * p < w * s + w
    requires if up then 5 <= t <= 9 else t <= 4
    ensures up ==> p - 7 <= w * (d + 1) <= p + 8
    ensures !up ==> p - 7 <= w * d <= p + 8
  {
    PartsOfProduct(w, d, t);
    if up {
      MulMonotone(w, 5, t);
      MulMonotone(w, t, 9);
    } else {
      MulMonotone(w, t, 4);
    }
  }

  /** The clocks per bit that are set differ from the ratio by at most eight. */
  lemma ClocksPerBit(p: nat, j: nat, up: bool)
    requires j < WIDTHS && Distance(p, j, up) <= 5 && (!up ==> Distance(p, j, up) <= 4)
    ensures var n := (j + 4) * (DivValue(p, j, up) + 1); p - 7 <= n <= p + 8
  {
    ScaledParts(p, j);
    RoundedProduct(j + 4, p, Scaled(p, j), Whole(p, j), Tenths(p, j), up);
  }

  /** From a ratio of 16 on, every divider is at least 1, and it fits if the ratio is below 2^18. */
  lemma DivValueRange(p: nat, j: nat, up: bool)
    requires Eligible(p, j, up)
    ensures p >= 16 ==> DivValue(p, j, up) >= 1
    ensures p < 0x4_0000 ==> DivValue(p, j, up) < 0x1_0000
  {
    ScaledParts(p, j);
    var w, s := j + 4, Scaled(p, j);
    if p >= 16 && s < 10 {
      MulMonotone(w, s, 9);
    }
    if s >= 0xa_0000 {
      MulMonotone(w, 0xa_0000, s);
    }
  }

  /** A width too long for the ratio leaves at least two tenths; one clock more than the ratio leaves at least eight. */
  lemma SmallRatio(p: nat, j: nat)
    requires 4 <= p && j < WIDTHS && Whole(p, j) == 0
    ensures p <= 15 && Tenths(p, j) >= 2
    ensures Whole(p, p - 3) == 0 && 8 <= Tenths(p, p - 3)
  {
    ScaledParts(p, j);
    ScaledParts(p, p - 3);
    SmallProducts(j + 4, p, Scaled(p, j), Scaled(p, p - 3));
  }

  lemma SmallProducts(w: nat, p: nat, s: nat, t: nat)
    requires 4 <= p && 4 <= w <= 16 && s < 10 && 10 * p < w * s + w
    requires (p + 1) * t <= 10 * p < (p + 1) * t + (p + 1)
    ensures p <= 15 && 2 <= s && 8 <= t <= 9
  {
    MulMonotone(w, s, 9);
    if s < 2 {
      MulMonotone(w, s, 1);
    }
    if t < 8 {
      MulMonotone(p + 1, t, 7);
    } else if t > 9 {
      MulMonotone(p + 1, 10, t);
    }
  }

  /** For ratios below four every width leaves at most seven tenths, and the longest at most one. */
  lemma TinyRatio(p: nat, j: nat)
    requires 0 < p < 4 && j < WIDTHS
    ensures Whole(p, j) == 0 && Tenths(p, j) <= 7
    ensures Whole(p, 12) == 0 && Tenths(p, 12) <= 1
  {
    ScaledParts(p, j);
    ScaledParts(p, 12);
    if Scaled(p, j) >= 8 {
      MulMonotone(j + 4, 8, Scaled(p, j));
    }
  }

  /** The divider does not drop below its register exactly from a ratio of four on. */
  lemma LowEnd(p: nat, j: nat, up: bool)
    requires p > 0 && Nearest(p, j, up)
    ensures DivValue(p, j, up) >= 0 <==> p >= 4
    ensures p < 4 ==> DivValue(p, j, up) == -1
  {
    if p < 4 {
      TinyRatio(p, j);
      assert Eligible(p, 12, false);
      assert up ==> Better(p, j, up, 12, false);
    } else if Whole(p, j) == 0 {
      SmallRatio(p, j);
      assert Eligible(p, p - 3, true);
      assert !up ==> Better(p, j, up, p - 3, true);
    }
  }

  // ------------------------------------------------------------------------ the search

  /** The last width with the least tenths, and the last with the most. */
  method Extremes(ghost p: nat, dec: array<nat>, whole: array<nat>) returns (low: nat, high: nat)
    requires dec.Length == WIDTHS == whole.Length
    requires forall k :: 0 <= k < WIDTHS ==> dec[k] == Tenths(p, k) && whole[k] == Whole(p, k)
    ensures LowestOf(p, WIDTHS, low) && HighestOf(p, WIDTHS, high)
  {
    low, high := 0, 0;
    var min, max := 0xffff_ffff, 0;
    var j := 0;
    while j < WIDTHS
      invariant 0 <= j <= WIDTHS
      invariant (low == 0 && min == 0xffff_ffff && forall k :: 0 <= k < j ==> Whole(p, k) == 1)
             || (LowestOf(p, j, low) && min == Tenths(p, low))
      invariant (j == 0 && high == 0 && max == 0) || (HighestOf(p, j, high) && max == Tenths(p, high))
    {
      if dec[j] <= min && whole[j] != 1 {
        min := dec[j];
        low := j;
      }
      if dec[j] >= max {
        max := dec[j];
        high := j;
      }
      j := j + 1;
    }
    SomeWidthEligible(p);
  }

  lemma SomeWidthEligible(p: nat)
    ensures Whole(p, 0) != 1 || Whole(p, 12) != 1
  {
    ScaledParts(p, 0);
    ScaledParts(p, 12);
  }

  /** Tenths and whole part for every width, i + 1 clocks for i from 3 to 15. */
  method Tables(p: nat) returns (dec: array<nat>, whole: array<nat>)
    ensures dec.Length == WIDTHS == whole.Length
    ensures forall k :: 0 <= k < WIDTHS ==> dec[k] == Tenths(p, k) && whole[k] == Whole(p, k)
  {
    dec, whole := new nat[WIDTHS], new nat[WIDTHS];
    for i := 3 to 16
      invariant forall k :: 0 <= k < i - 3 ==> dec[k] == Tenths(p, k) && whole[k] == Whole(p, k)
    {
      var intdec := Quotient(10 * p, i + 1);
      dec[i - 3] := intdec - 10 * (intdec / 10);
      whole[i - 3] := intdec / 10;
    }
  }

  method Quotient(x: nat, d: nat) returns (q: nat)
    requires d > 0
    ensures q == Div(x, d)
  {
    DivIsQuotient(x, d);
    q := x / d;
  }

  /** The register values for the ratio p. */
  method ChooseWidth(p: nat) returns (div: nat, bwpc: nat)
    ensures BestRegisters(p, div, bwpc)
  {
    var dec, whole := Tables(p);
    var low, high := Extremes(p, dec, whole);
    ChoiceIsNearest(p, low, high);
    if dec[low] < 5 && dec[high] >= 5 {
      if dec[low] < 10 - dec[high] {
        bwpc := low + 3;
        div := ((whole[low] as int) - 1) % 0x1_0000;
      } else {
        bwpc := high + 3;
        div := whole[high] % 0x1_0000;
      }
    } else if dec[low] < 5 && dec[high] < 5 {
      bwpc := low + 3;
      div := ((whole[low] as int) - 1) % 0x1_0000;
    } else {
      bwpc := high + 3;
      div := whole[high] % 0x1_0000;
    }
  }

  // -------------------------------------------------------------------- the whole routine

  function Ratio(pclk: nat, baud: nat): nat
    requires baud > 0
  {
    Div(pclk, baud)
  }

  /** What is left of the clock over q bauds is six tenths of a baud or more. */
  predicate SixTenths(pclk: nat, baud: nat, q: nat) {
    baud * (10 * q + 6) <= 10 * pclk
  }

  /** The ratio the search works on: rounded, but kept away from what is taken for a prime. */
  ghost function SearchRatio(pclk: nat, baud: nat): nat
    requires baud > 0
  {
    var q := Ratio(pclk, baud);
    if TakenForPrime(q) || (SixTenths(pclk, baud, q) && !TakenForPrime(q + 1)) then q + 1 else q
  }

  /**
    p is q, the clock over the baud rate rounded down, or the next ratio: that
    one exactly when q is taken, or has a decimal of six or more and q + 1 is not.
   */
  ghost predicate SearchedAt(pclk: nat, baud: nat, q: nat, p: nat) {
    && baud * q <= pclk < baud * q + baud && (p == q || p == q + 1)
    && (p == q + 1 <==> TakenForPrime(q) || (10 * pclk >= baud * (10 * q + 6) && !TakenForPrime(q + 1)))
  }

  lemma SearchRatioExact(pclk: nat, baud: nat)
    requires baud > 0
    ensures SearchedAt(pclk, baud, Ratio(pclk, baud), SearchRatio(pclk, baud))
  {
    RatioIsFloor(pclk, baud);
  }

  lemma RatioIsFloor(pclk: nat, baud: nat)
    requires baud > 0
    ensures baud * Ratio(pclk, baud) <= pclk < baud * Ratio(pclk, baud) + baud
  {
    DivBounds(pclk, baud);
    TimesIsProduct(Ratio(pclk, baud), baud);
    Commuted(Ratio(pclk, baud), baud);
  }

  lemma SearchRatioIsNotTaken(pclk: nat, baud: nat)
    requires baud > 0 && Ratio(pclk, baud) > 3
    ensures !TakenForPrime(SearchRatio(pclk, baud))
  {
    var q := Ratio(pclk, baud);
    if q % 2 == 0 {
      EvenIsNotTaken(q);
    } else {
      EvenIsNotTaken(q + 1);
    }
  }

  lemma SearchRatioRange(pclk: nat, baud: nat)
    requires baud > 0
    ensures Ratio(pclk, baud) <= SearchRatio(pclk, baud) <= Ratio(pclk, baud) + 1
    ensures SearchRatio(pclk, baud) > 0
    ensures SearchRatio(pclk, baud) < 4 <==> Ratio(pclk, baud) < 3
  {
  }

  /** The clock is from four tenths of a baud below p bauds to six tenths above. */
  ghost predicate Rounded(pclk: nat, baud: nat, p: nat) {
    -4 * baud <= 10 * pclk - 10 * (baud * p) < 6 * baud
  }

  lemma RoundedEitherWay(x: nat, b: nat, q: nat)
    requires b * q <= x < b * q + b
    ensures b * (10 * q + 6) <= 10 * x ==> Rounded(x, b, q + 1)
    ensures 10 * x < b * (10 * q + 6) ==> Rounded(x, b, q)
  {
    assert b * (10 * q + 6) == 10 * (b * q) + 6 * b;
    assert b * (q + 1) == b * q + b;
  }

  /** Where neither neighbour is taken for a prime the ratio is rounded. */
  lemma SearchRatioIsRounded(pclk: nat, baud: nat)
    requires baud > 0
    requires !TakenForPrime(Ratio(pclk, baud)) && !TakenForPrime(Ratio(pclk, baud) + 1)
    ensures Rounded(pclk, baud, SearchRatio(pclk, baud))
  {
    RatioIsFloor(pclk, baud);
    RoundedEitherWay(pclk, baud, Ratio(pclk, baud));
  }

  /** 16 MHz and 460,800 baud: 34.7 becomes 35. */
  lemma SearchRatioInstance()
    ensures SearchRatio(16_000_000, 460_800) == 35
  {
    DividesIsMod(5, 35);
    DivisorFound(35, 5, 5);
    EvenIsNotTaken(34);
    DivIsQuotient(16_000_000, 460_800);
  }

  lemma RatioRange(pclk: nat, baud: nat)
    requires baud > 0 && 10 * pclk + 10 < U32
    ensures 10 * Ratio(pclk, baud) + 10 < U32 && Ratio(pclk, baud) + 1 <= LAST * LAST
    ensures var tenths := Div(10 * pclk, baud) - 10 * Ratio(pclk, baud);
            0 <= tenths <= 9 && (tenths > 5 <==> SixTenths(pclk, baud, Ratio(pclk, baud)))
  {
    var q, r := Div(pclk, baud), Div(10 * pclk, baud);
    DivBounds(pclk, baud);
    DivBounds(10 * pclk, baud);
    TimesIsProduct(q, baud);
    TimesIsProduct(r, baud);
    Commuted(q, baud);
    Commuted(r, baud);
    OneDecimal(pclk, baud, q, r);
  }

  /** The floor of x / b is at least c exactly when c times b fits. */
  lemma FloorAtLeast(x: nat, b: nat, r: nat, c: nat)
    requires b > 0 && b * r <= x < b * r + b
    ensures r >= c <==> b * c <= x
  {
    if r >= c {
      MulMonotone(b, c, r);
    } else {
      MulMonotone(b, r + 1, c);
    }
  }

  lemma OneDecimal(x: nat, b: nat, q: nat, r: nat)
    requires b > 0 && b * q <= x < b * q + b && b * r <= 10 * x < b * r + b
    ensures 10 * q <= r <= 10 * q + 9 && q <= x
    ensures r - 10 * q > 5 <==> b * (10 * q + 6) <= 10 * x
  {
    FloorAtLeast(10 * x, b, r, 10 * q);
    FloorAtLeast(10 * x, b, r, 10 * q + 10);
    FloorAtLeast(10 * x, b, r, 10 * q + 6);
    TenTimes(b, q);
    MulMonotone(q, 1, b);
    Commuted(q, b);
  }

  lemma TenTimes(b: nat, q: nat)
    ensures b * (10 * q) == 10 * (b * q) && b * (10 * q + 10) == 10 * (b * q) + 10 * b
  {
  }

  /** Serving a bit takes n clocks; what that amounts to is within nine clocks a bit of the system clock. */
  ghost predicate WithinNine(pclk: nat, baud: nat, n: int) {
    -9 * baud <= pclk - baud * n <= 9 * baud
  }

  lemma BaudError(pclk: nat, baud: nat, p: nat, n: int)
    requires baud > 0 && Ratio(pclk, baud) <= p <= Ratio(pclk, baud) + 1
    requires p - 7 <= n <= p + 8
    ensures WithinNine(pclk, baud, n)
  {
    RatioIsFloor(pclk, baud);
    NineClocks(pclk, baud, Ratio(pclk, baud), n);
  }

  lemma NineClocks(x: nat, b: nat, q: int, n: int)
    requires b * q <= x < b * q + b && q - 7 <= n <= q + 9
    ensures -9 * b <= x - b * n <= 9 * b
  {
    MulMonotone(b, q - 7, n);
    MulMonotone(b, n, q + 9);
    assert b * (q - 7) == b * q - 7 * b && b * (q + 9) == b * q + 9 * b;
  }

  /** The ratio, rounded and moved off what is taken for a prime. */
  method AdjustRatio(baudrate: nat, pclk: nat) returns (primeInt: nat)
    requires baudrate > 0 && 10 * pclk + 10 < U32
    ensures primeInt == SearchRatio(pclk, baudrate)
  {
    RatioRange(pclk, baudrate);
    primeInt := Quotient(pclk, baudrate);
    var tenfold := Quotient(10 * pclk, baudrate);
    var primeDec := (tenfold - 10 * primeInt) % 0x100;
    var prime := UartIsPrime(primeInt);
    if prime == 1 {
      primeInt := primeInt + 1;
    } else if primeDec > 5 {
      primeInt := primeInt + 1;
      prime := UartIsPrime(primeInt);
      if prime == 1 {
        primeInt := primeInt - 1;
      }
    }
  }

  /** What the best choice amounts to: a rate close to the requested one. */
  lemma RateIsClose(pclk: nat, baud: nat, p: nat, j: nat, up: bool)
    requires baud > 0
    requires Ratio(pclk, baud) <= p <= Ratio(pclk, baud) + 1 && Nearest(p, j, up)
    ensures WithinNine(pclk, baud, (j + 4) * (DivValue(p, j, up) + 1))
  {
    NearestIsClose(p, j, up);
    ClocksPerBit(p, j, up);
    BaudError(pclk, baud, p, (j + 4) * (DivValue(p, j, up) + 1));
  }

  /** The divider fits its register: nothing is cut off. */
  ghost predicate Held(p: nat, j: nat, up: bool, div: nat) {
    RegistersOf(p, j, up, div) && 0 <= DivValue(p, j, up) < 0x1_0000
  }

  ghost predicate HeldRegisters(p: nat, div: nat, bwpc: nat) {
    bwpc >= 3 && (Held(p, bwpc - 3, false, div) || Held(p, bwpc - 3, true, div))
  }

  lemma ChoiceInRange(pclk: nat, baud: nat, p: nat, j: nat, up: bool, div: nat)
    requires baud > 0 && RegistersOf(p, j, up, div)
    requires p > 0 && Ratio(pclk, baud) <= p <= Ratio(pclk, baud) + 1
    ensures 4 <= p < 0x4_0000 ==> Held(p, j, up, div)
    ensures p < 4 ==> div == 0xffff && !Held(p, j, up, div)
    ensures 16 <= p < 0x4_0000 ==> div >= 1
    ensures Held(p, j, up, div) ==> WithinNine(pclk, baud, (j + 4) * (div + 1))
  {
    DivValueRange(p, j, up);
    LowEnd(p, j, up);
    RateIsClose(pclk, baud, p, j, up);
    WrapOrNot(DivValue(p, j, up));
  }

  lemma WrapOrNot(d: int)
    ensures 0 <= d < 0x1_0000 ==> d % 0x1_0000 == d
    ensures d == -1 ==> d % 0x1_0000 == 0xffff
  {
  }

  /** The registers of the best choice: good from a ratio of three on, and as long as the divider fits. */
  lemma RegistersInRange(pclk: nat, baud: nat, p: nat, div: nat, bwpc: nat)
    requires baud > 0 && BestRegisters(p, div, bwpc)
    requires p > 0 && Ratio(pclk, baud) <= p <= Ratio(pclk, baud) + 1
    ensures 4 <= p < 0x4_0000 ==> HeldRegisters(p, div, bwpc)
    ensures p < 4 ==> div == 0xffff
    ensures 16 <= p < 0x4_0000 ==> div >= 1
    ensures HeldRegisters(p, div, bwpc) ==> WithinNine(pclk, baud, (bwpc + 1) * (div + 1))
  {
    if RegistersOf(p, bwpc - 3, false, div) {
      ChoiceInRange(pclk, baud, p, bwpc - 3, false, div);
    }
    if RegistersOf(p, bwpc - 3, true, div) {
      ChoiceInRange(pclk, baud, p, bwpc - 3, true, div);
    }
  }

  /**
    For a ratio of at least 3 and below 2^18 - 1 the register values are in
    range and the clocks per bit give the baud rate up to nine clocks. For
    larger ratios that holds as long as the divider fits its register. Below 3
    the divider wraps to its largest value.
   */
  method UartCalDivAndBwpc(baudrate: nat, pclk: nat) returns (div: nat, bwpc: nat)
    requires baudrate > 0 && 10 * pclk + 10 < U32
    ensures var p, q := SearchRatio(pclk, baudrate), Ratio(pclk, baudrate);
            && BestRegisters(p, div, bwpc)
            && SearchedAt(pclk, baudrate, q, p)
            && (!TakenForPrime(q) && !TakenForPrime(q + 1) ==> Rounded(pclk, baudrate, p))
            && (HeldRegisters(p, div, bwpc) ==> WithinNine(pclk, baudrate, (bwpc + 1) * (div + 1)))
    ensures 3 <= bwpc <= 15
    ensures Ratio(pclk, baudrate) < 3 ==> div == 0xffff
    ensures 3 <= Ratio(pclk, baudrate) < 0x3_ffff ==> WithinNine(pclk, baudrate, (bwpc + 1) * (div + 1))
    ensures 16 <= Ratio(pclk, baudrate) < 0x3_ffff ==> 1 <= div < 0x1_0000
  {
    var p := AdjustRatio(baudrate, pclk);
    SearchRatioRange(pclk, baudrate);
    SearchRatioExact(pclk, baudrate);
    if !TakenForPrime(Ratio(pclk, baudrate)) && !TakenForPrime(Ratio(pclk, baudrate) + 1) {
      SearchRatioIsRounded(pclk, baudrate);
    }
    div, bwpc := ChooseWidth(p);
    RegistersInRange(pclk, baudrate, p, div, bwpc);
  }
}
