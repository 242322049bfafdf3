/**
  `uart_is_prime` of uart.c: trial division by 2, 3 and the numbers i, i + 2 for
  i = 5, 11, 17, ... The guard i * i < n is strict and computed in 32 bits.
 */
module UartPrime {
  import opened Bits

  predicate Divides(d: nat, n: nat) {
    d > 0 && Rem(n, d) == 0
  }

  ghost predicate Prime(n: nat) {
    n >= 2 && forall d :: 2 <= d < n ==> !Divides(d, n)
  }

  /** What the routine takes for a prime beyond the primes. */
  ghost predicate MissedSquare(n: nat) {
    exists p :: MissedSquareOf(n, p)
  }

  ghost predicate MissedSquareOf(n: nat, p: nat) {
    Prime(p) && p % 6 == 5 && n == p * p
  }

  /** The last i whose square does not wrap in 32 bits. */
  const LAST: nat := 65531

  // ----------------------------------------------------------- facts about divisors

  lemma DividesIsMod(d: nat, n: nat)
    requires d > 0
    ensures Divides(d, n) <==> n % d == 0
  {
    RemIsMod(n, d);
  }

  lemma DividesWitness(d: nat, n: nat) returns (q: nat)
    requires Divides(d, n)
    ensures n == d * q
  {
    RemIsMod(n, d);
    DivModSplit(n, d);
    QuotientNat(n, d);
    q := n / d;
  }

  lemma ProductDivides(d: nat, q: nat)
    requires d > 0
    ensures Divides(d, d * q)
  {
    RemIsMod(d * q, d);
    ModUnique(d * q, d, q, 0);
  }

  lemma DividesSelf(n: nat)
    requires n > 0
    ensures Divides(n, n)
  {
    ProductDivides(n, 1);
  }

  lemma {:induction false} DividesTransitive(d: nat, m: nat, n: nat)
    requires Divides(d, m) && Divides(m, n)
    ensures Divides(d, n)
  {
    var q := DividesWitness(d, m);
    var r := DividesWitness(m, n);
    MulAssociate(d, q, r);
    ProductDivides(d, q * r);
  }

  lemma FactorDifference(d: nat, x: nat, y: nat, q: nat, r: nat)
    requires d > 0 && x == d * q && y == d * r && x >= y
    ensures q >= r && x - y == d * (q - r)
  {
    if q < r {
      MulMonotone(d, q + 1, r);
    }
  }

  lemma DividesDifference(d: nat, x: nat, y: nat)
    requires Divides(d, x) && Divides(d, y) && x >= y
    ensures Divides(d, x - y)
  {
    var q := DividesWitness(d, x);
    var r := DividesWitness(d, y);
    FactorDifference(d, x, y, q, r);
    ProductDivides(d, q - r);
  }

  lemma DivisorNotAbove(d: nat, n: nat)
    requires Divides(d, n) && n > 0
    ensures d <= n
  {
    var q := DividesWitness(d, n);
    MulMonotone(d, 1, q);
  }

  /** A composite number has a divisor whose square does not exceed it. */
  lemma SmallDivisor(n: nat) returns (d: nat)
    requires n >= 2 && !Prime(n)
    ensures 2 <= d < n && Divides(d, n) && d * d <= n
  {
    d :| 2 <= d < n && Divides(d, n);
    var q := DividesWitness(d, n);
    if d * d > n {
      if q >= d {
        MulMonotone(d, d, q);
      }
      if q < 2 {
        MulMonotone(d, q, 1);
      }
      assert n == q * d;
      ProductDivides(q, d);
      MulMonotone(q, q, d);
      MulMonotone(q, 2, d);
      d := q;
    }
  }

  /** A divisor of a number prime to 6 is 1 or 5 modulo 6. */
  lemma DivisorResidue(d: nat, n: nat)
    requires Divides(d, n) && n % 2 != 0 && n % 3 != 0
    ensures d % 6 == 1 || d % 6 == 5
  {
    DividesIsMod(2, d);
    DividesIsMod(3, d);
    DividesIsMod(2, n);
    DividesIsMod(3, n);
    if d % 2 == 0 {
      DividesTransitive(2, d, n);
    }
    if d % 3 == 0 {
      DividesTransitive(3, d, n);
    }
    ResidueOfSix(d);
  }

  lemma ResidueOfSix(d: nat)
    requires d % 2 != 0 && d % 3 != 0
    ensures d % 6 == 1 || d % 6 == 5
  {
    ModOfMod(d, 2, 3);
    ModOfMod(d, 3, 2);
  }

  // ------------------------------------------------ the square of a prime has no small divisor

  /** The least multiplier that makes p a multiple of q. */
  ghost function LeastMultiplier(p: nat, q: nat, from: nat): (m: nat)
    requires 1 <= from <= q && p > 0
    ensures from <= m <= q && Divides(q, m * p)
    ensures forall k :: from <= k < m ==> !Divides(q, k * p)
    decreases q - from
  {
    assert Divides(q, q * p) by { ProductDivides(q, p); }
    if Divides(q, from * p) then from else LeastMultiplier(p, q, from + 1)
  }

  lemma SplitMultiple(p: nat, m: nat, c: nat, r: nat)
    ensures (m * c + r) * p - (m * p) * c == r * p
    ensures (m * p) * c <= (m * c + r) * p
  {
    assert (m * c + r) * p == (m * p) * c + r * p;
  }

  lemma MultiplierDivides(p: nat, q: nat, m: nat, k: nat)
    requires p > 0 && q > 0 && m == LeastMultiplier(p, q, 1) && Divides(q, k * p)
    ensures Divides(m, k)
  {
    var c, r := k / m, k % m;
    DivModSplit(k, m);
    QuotientNat(k, m);
    SplitMultiple(p, m, c, r);
    ProductDivides(m * p, c);
    DividesTransitive(q, m * p, (m * p) * c);
    DividesDifference(q, k * p, (m * p) * c);
    assert r == 0;
    DividesIsMod(m, k);
  }

  /** A prime that divides p * p divides p. */
  lemma PrimeDividesSquare(q: nat, p: nat)
    requires Prime(q) && p > 0 && Divides(q, p * p)
    ensures Divides(q, p)
  {
    var m := LeastMultiplier(p, q, 1);
    ProductDivides(q, p);
    MultiplierDivides(p, q, m, q);
    MultiplierDivides(p, q, m, p);
    assert m == 1 || m == q;
  }

  /** The least divisor above 1 is prime. */
  lemma {:induction false} PrimeDivisor(n: nat) returns (q: nat)
    requires n >= 2
    ensures Prime(q) && Divides(q, n)
    decreases n
  {
    if Prime(n) {
      q := n;
      DividesSelf(n);
    } else {
      var d :| 2 <= d < n && Divides(d, n);
      q := PrimeDivisor(d);
      DividesTransitive(q, d, n);
    }
  }

  lemma SquareOfPrime(p: nat, d: nat)
    requires Prime(p) && 2 <= d < p
    ensures !Divides(d, p * p)
  {
    if Divides(d, p * p) {
      var q := PrimeDivisor(d);
      DivisorNotAbove(q, d);
      DividesTransitive(q, d, p * p);
      PrimeDividesSquare(q, p);
      assert false;
    }
  }

  // -------------------------------------------------------------------- the search

  /** No candidate below i divides n. */
  ghost predicate NoneBelow(n: nat, i: nat) {
    forall d :: 2 <= d < i ==> !Divides(d, n)
  }

  lemma NoneBelowFive(n: nat)
    requires n % 2 != 0 && n % 3 != 0
    ensures NoneBelow(n, 5)
  {
    forall d | 2 <= d < 5
      ensures !Divides(d, n)
    {
      if Divides(d, n) {
        DivisorResidue(d, n);
      }
    }
  }

  lemma NextCandidates(n: nat, i: nat)
    requires n % 2 != 0 && n % 3 != 0 && i % 6 == 5
    requires NoneBelow(n, i) && !Divides(i, n) && !Divides(i + 2, n)
    ensures NoneBelow(n, i + 6)
  {
    forall d | 2 <= d < i + 6
      ensures !Divides(d, n)
    {
      if Divides(d, n) {
        DivisorResidue(d, n);
      }
    }
  }

  /** Stepping by six from 5 never jumps over a number prime to 6 that is not met itself. */
  lemma StaysBelow(n: nat, i: nat)
    requires n % 2 != 0 && n % 3 != 0 && i % 6 == 5 && i <= n
    requires !Divides(i, n) && !Divides(i + 2, n)
    ensures i + 6 <= n
  {
    DividesSelf(n);
    assert i != n && i + 2 != n;
    SixApart(n, i);
  }

  lemma SixApart(n: nat, i: nat)
    requires n % 2 != 0 && n % 3 != 0 && i % 6 == 5 && i < n && i + 2 != n
    ensures i + 6 <= n
  {
  }

  /** Nothing below i divides n and i * i >= n: n is a prime or the square of i. */
  lemma SearchedThrough(n: nat, i: nat)
    requires n > 3 && i % 6 == 5 && NoneBelow(n, i) && i * i >= n
    ensures Prime(n) || MissedSquareOf(n, i)
  {
    if !Prime(n) {
      var d := SmallDivisor(n);
      if d > i {
        MulMonotone(i, i, d);
        MulMonotone(d, i + 1, d);
      }
      assert d == i;
      forall e | 2 <= e < i
        ensures !Divides(e, i)
      {
        if Divides(e, i) {
          DividesTransitive(e, i, n);
        }
      }
    }
  }

  /** A divisor met during the search shows that n is neither a prime nor a square that is missed. */
  lemma DivisorFound(n: nat, i: nat, d: nat)
    requires n > 3 && i % 6 == 5 && i * i < n && (d == i || d == i + 2) && Divides(d, n) && d < n
    ensures !Prime(n) && !MissedSquare(n)
  {
    forall p: nat | MissedSquareOf(n, p)
      ensures false
    {
      if p <= i {
        MulMonotone(p, p, i);
        MulMonotone(i, p, i);
      }
      assert p > i && p % 6 == 5;
      SquareOfPrime(p, d);
    }
  }

  /** A small even number or multiple of three is neither. */
  lemma MultipleOfTwoOrThree(n: nat)
    requires n > 3 && (n % 2 == 0 || n % 3 == 0)
    ensures !Prime(n) && !MissedSquare(n)
  {
    var d := if n % 2 == 0 then 2 else 3;
    DividesIsMod(d, n);
    forall p: nat | MissedSquareOf(n, p)
      ensures false
    {
      SquareOfPrime(p, d);
    }
  }

  /** `i * i` in 32 bits. */
  function Square32(i: nat): word {
    (i * i) % U32
  }

  lemma SquareBelow(i: nat, j: nat)
    ensures i <= j ==> i * i <= j * j
    ensures i > j ==> i * i > j * j
  {
    if i <= j {
      MulMonotone(i, i, j);
      MulMonotone(j, i, j);
    } else {
      MulMonotone(j, j, i);
      MulMonotone(i, j + 1, i);
    }
  }

  /** Up to LAST the square does not wrap. */
  lemma SquareExact(i: nat)
    requires i <= LAST
    ensures Square32(i) == i * i
  {
    SquareBelow(i, LAST);
    ModUnique(i * i, U32, 0, i * i);
  }

  lemma BelowLast(n: nat, i: nat)
    requires i % 6 == 5 && i <= LAST && i * i < n <= LAST * LAST
    ensures i + 6 <= LAST
  {
    SquareBelow(LAST, i);
  }

  lemma Hit(n: nat, i: nat)
    requires 3 < n <= LAST * LAST && 5 <= i <= LAST && i % 6 == 5 && i * i < n
    requires Divides(i, n) || Divides(i + 2, n)
    ensures !Prime(n) && !MissedSquare(n)
  {
    MulMonotone(i, 5, i);
    DivisorFound(n, i, if Divides(i, n) then i else i + 2);
  }

  lemma FinishedSmall(n: nat, i: nat)
    requires 3 < n <= LAST * LAST && 5 <= i <= LAST && i % 6 == 5 && NoneBelow(n, i) && Square32(i) >= n
    ensures Prime(n) || MissedSquare(n)
  {
    SquareExact(i);
    SearchedThrough(n, i);
  }

  /** No square that does not wrap ends the search for an n beyond LAST * LAST. */
  lemma NotEndedEarly(n: nat, i: nat)
    requires n > LAST * LAST && i <= LAST
    ensures Square32(i) < n
  {
    SquareExact(i);
    SquareBelow(i, LAST);
  }

  /** Some i the search comes to has a 32-bit square that ends it. */
  ghost predicate Stops(n: nat) {
    exists i: nat :: 5 <= i <= n && i % 6 == 5 && Square32(i) >= n
  }

  /** The largest square that some i from the search has in 32 bits. */
  const LARGEST_SQUARE: word := 0xffff_fff1

  /** No candidate below i has ended the search. */
  ghost predicate RunsTo(n: nat, i: nat) {
    forall k: nat :: 5 <= k < i && k % 6 == 5 ==> Square32(k) < n
  }

  /** A number is its own first divisor only if the search never stopped. */
  lemma HitItself(n: nat, i: nat)
    requires n > 3 && i % 6 == 5 && (Divides(i, n) || Divides(i + 2, n))
    ensures Prime(n) && RunsTo(n, i) && Square32(i) < n ==> !Stops(n)
  {
    DivisorNotAbove(if Divides(i, n) then i else i + 2, n);
    if Prime(n) && RunsTo(n, i) && Square32(i) < n {
      assert n <= i + 2;
      forall k: nat | 5 <= k <= n && k % 6 == 5
        ensures Square32(k) < n
      {
        assert k < i || k == i;
      }
    }
  }

  lemma OddSquare(i: nat)
    requires i % 6 == 5
    ensures Square32(i) % 8 == 1
  {
    var k := 3 * (i / 6) + 2;
    var h := Triangle(k);
    SquareOfOdd(k, h, i);
    ModUnique(i * i, 8, h, 1);
    ModOfMod(i * i, 8, 0x2000_0000);
  }

  lemma SquareOfOdd(k: nat, h: nat, i: nat)
    requires k * (k + 1) == 2 * h && i == 2 * k + 1
    ensures i * i == 8 * h + 1
  {
    assert i * i == 4 * (k * (k + 1)) + 1;
  }

  lemma {:induction false} Triangle(k: nat) returns (h: nat)
    ensures k * (k + 1) == 2 * h
  {
    if k == 0 {
      h := 0;
    } else {
      var below := Triangle(k - 1);
      h := below + k;
      assert k * (k + 1) == (k - 1) * k + 2 * k;
    }
  }

  /** A number whose square is -7 modulo 2^32; the others are its negative and these two plus 2^31. */
  const ROOT_OF_MINUS_SEVEN: nat := 479772853

  lemma PowerTimes(t: int)
    ensures Pow2(30) * t == 0x4000_0000 * t
  {
    PowerAt30();
  }

  lemma OddHalf(x: int, y: int, t: int)
    requires x % 2 == 1 && x * y == 0x4000_0000 * t
    ensures y % 0x4000_0000 == 0
  {
    PowerTimes(t);
    var q := OddFactor(x, y, 30, t);
    PowerTimes(q);
    ModUnique(y, 0x4000_0000, q, 0);
  }

  lemma Commute(x: int, y: int)
    ensures x * y == y * x
  {
  }

  lemma OddSum(x: int, y: int)
    requires (x + y) % 2 == 1
    ensures x % 2 == 1 || y % 2 == 1
  {
  }

  /** If one of two factors is odd, all other factors of two are in the other one. */
  lemma OneHalfOdd(x: int, y: int, t: int)
    requires (x + y) % 2 == 1 && x * y == 0x4000_0000 * t
    ensures x % 0x4000_0000 == 0 || y % 0x4000_0000 == 0
  {
    OddSum(x, y);
    if x % 2 == 1 {
      OddHalf(x, y, t);
    } else {
      Commute(x, y);
      OddHalf(y, x, t);
    }
  }

  lemma PowerAt30()
    ensures Pow2(30) == 0x4000_0000
  {
    Pow2At8();
    assert Pow2(6) == 64;
    Pow2Add(8, 8);
    Pow2Add(8, 6);
    Pow2Add(16, 14);
  }

  lemma SquareParts(i: nat, k: nat)
    requires i == 2 * k + 1
    ensures i * i == 4 * (k * (k + 1)) + 1
  {
  }

  /** (i - r) / 2 times (i + r) / 2 for i = 2 k + 1 and the root r. */
  lemma ProductOfHalves(k: nat, x: int, y: int)
    requires 2 * x == 2 * k + 1 - ROOT_OF_MINUS_SEVEN && 2 * y == 2 * k + 1 + ROOT_OF_MINUS_SEVEN
    ensures x * y == k * (k + 1) + 2 - 0x4000_0000 * 53593421
  {
    assert x == k - 239886426 && y == k + 239886427;
  }

  /** If 4 kk + 1 is -7 modulo 2^32, then kk + 2 holds thirty factors of two. */
  lemma QuarterOfSquare(ii: nat, kk: nat) returns (t: int)
    requires ii == 4 * kk + 1 && ii % U32 == U32 - 7
    ensures kk + 2 - 0x4000_0000 * 53593421 == 0x4000_0000 * t
  {
    DivModSplit(ii, U32);
    t := ii / U32 + 1 - 53593421;
  }

  lemma OddSquareIsMinusSeven(i: nat, k: nat)
    requires i < U32 && i == 2 * k + 1
    ensures Square32(i) == U32 - 7 ==> i % 6 != 5
  {
    if Square32(i) == U32 - 7 {
      var x, y := k - 239886426, k + 239886427;
      SquareParts(i, k);
      var t := QuarterOfSquare(i * i, k * (k + 1));
      ProductOfHalves(k, x, y);
      OneHalfOdd(x, y, t);
      RootCandidates(i, x, y);
    }
  }

  /** No i from the search has -7 for its 32-bit square. */
  lemma NoRootOfMinusSeven(i: nat)
    requires i < U32 && i % 6 == 5
    ensures Square32(i) != U32 - 7
  {
    OddSquareIsMinusSeven(i, 3 * (i / 6) + 2);
  }

  /** The four numbers that are left are 1 or 3 modulo 6. */
  lemma RootCandidates(i: nat, x: int, y: int)
    requires i < U32 && i - ROOT_OF_MINUS_SEVEN == 2 * x && i + ROOT_OF_MINUS_SEVEN == 2 * y
    requires x % 0x4000_0000 == 0 || y % 0x4000_0000 == 0
    ensures i % 6 != 5
  {
  }

  /** Exactly the last fourteen 32-bit numbers are out of reach of every wrapped square. */
  lemma StopsExactly(n: word)
    requires n > LAST * LAST
    ensures Stops(n) <==> n <= LARGEST_SQUARE
  {
    if n <= LARGEST_SQUARE {
      var i := 34716455;
      assert i * i == U32 * 280614 + LARGEST_SQUARE;
      ModUnique(i * i, U32, 280614, LARGEST_SQUARE);
      assert Square32(i) >= n;
    } else {
      forall i: nat | 5 <= i <= n && i % 6 == 5
        ensures Square32(i) < n
      {
        OddSquare(i);
        NoRootOfMinusSeven(i);
      }
    }
  }

  /** Past LAST every divisor that matters has been tried, whatever the wrapped square says. */
  lemma FinishedLarge(n: word, i: nat)
    requires n > LAST * LAST && 5 <= i <= n && i % 6 == 5 && NoneBelow(n, i)
    ensures Square32(i) >= n ==> Prime(n) && n <= LARGEST_SQUARE
  {
    StopsExactly(n);
    if i <= LAST {
      NotEndedEarly(n, i);
    } else if !Prime(n) {
      assert i > 0xffff;
      var d := SmallDivisor(n);
      SquareBelow(0x1_0000, d);
    }
  }

  /** A large prime is rejected only where no square can end the search. */
  lemma HitLarge(n: word, i: nat)
    requires n > LAST * LAST && i % 6 == 5 && (Divides(i, n) || Divides(i + 2, n))
    ensures Prime(n) && RunsTo(n, i) && Square32(i) < n ==> n > LARGEST_SQUARE
  {
    HitItself(n, i);
    StopsExactly(n);
  }

  /** 25 is taken for a prime. */
  lemma MissedSquareInstance()
    ensures MissedSquare(25) && !Prime(25)
  {
    forall d | 2 <= d < 5
      ensures !Divides(d, 5)
    {
      DividesIsMod(d, 5);
    }
    assert MissedSquareOf(25, 5);
    ProductDivides(5, 5);
  }

  /**
    Ends for every 32-bit n. Up to 65531 squared the answer is 1 exactly for
    primes, numbers up to 3, and squares of primes that are 5 modulo 6. Above,
    where the square of i wraps, it is 1 exactly for the primes below the last
    fourteen 32-bit numbers.
   */
  method UartIsPrime(n: word) returns (r: nat)
    ensures r == 0 || r == 1
    ensures n <= 3 ==> r == 1
    ensures 3 < n <= LAST * LAST ==> (r == 1 <==> Prime(n) || MissedSquare(n))
    ensures n > LAST * LAST ==> (r == 1 <==> Prime(n) && n <= LARGEST_SQUARE)
  {
    if n <= 3 {
      return 1;
    } else if n % 2 == 0 || n % 3 == 0 {
      MultipleOfTwoOrThree(n);
      return 0;
    }
    var i := 5;
    NoneBelowFive(n);
    while Square32(i) < n
      invariant 5 <= i <= n && i % 6 == 5 && NoneBelow(n, i) && RunsTo(n, i)
      invariant n <= LAST * LAST ==> i <= LAST
      decreases n - i
    {
      if n <= LAST * LAST {
        SquareExact(i);
      }
      DividesIsMod(i, n);
      DividesIsMod(i + 2, n);
      if n % i == 0 || n % (i + 2) == 0 {
        if n <= LAST * LAST {
          Hit(n, i);
        } else {
          HitLarge(n, i);
        }
        return 0;
      }
      NextCandidates(n, i);
      StaysBelow(n, i);
      if n <= LAST * LAST {
        BelowLast(n, i);
      }
      RunsFurther(n, i);
      i := i + 6;
    }
    if n <= LAST * LAST {
      FinishedSmall(n, i);
    } else {
      FinishedLarge(n, i);
    }
    return 1;
  }

  lemma RunsFurther(n: nat, i: nat)
    requires i % 6 == 5 && RunsTo(n, i) && Square32(i) < n
    ensures RunsTo(n, i + 6)
  {
    forall k: nat | 5 <= k < i + 6 && k % 6 == 5
      ensures Square32(k) < n
    {
      if k >= i {
        assert k == i;
      }
    }
  }
}
