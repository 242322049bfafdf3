/**
  Bit-level operations on natural numbers: powers of two, shifts, AND and OR.
  The C sources work on fixed-width unsigned integers; a wrap-around is written
  out by the callers as a remainder modulo a power of two.
 */
module Bits {

  const U32: nat := 0x1_0000_0000

  type byte = x: int | 0 <= x < 0x100
  type word = x: int | 0 <= x < 0x1_0000_0000

  function Pow2(n: nat): (r: nat)
    ensures r > 0
  {
    if n == 0 then 1 else 2 * Pow2(n - 1)
  }

  lemma {:induction false} Pow2Add(m: nat, n: nat)
    ensures Pow2(m + n) == Pow2(m) * Pow2(n)
  {
    if m > 0 {
      Pow2Add(m - 1, n);
      MulAssociate(2, Pow2(m - 1), Pow2(n));
    }
  }

  lemma {:induction false} Pow2Monotone(m: nat, n: nat)
    requires m <= n
    ensures Pow2(m) <= Pow2(n)
  {
    if m < n {
      Pow2Monotone(m, n - 1);
    }
  }

  lemma Pow2At32()
    ensures Pow2(32) == U32
  {
    Pow2At8();
    Pow2Add(8, 8);
    Pow2Add(16, 16);
  }

  function And(x: nat, y: nat): (r: nat)
    decreases x
  {
    if x == 0 || y == 0 then 0
    else 2 * And(x / 2, y / 2) + (x % 2) * (y % 2)
  }

  /** Bit k of x is set. */
  predicate Bit(x: nat, k: nat) {
    Shr(x, k) % 2 == 1
  }

  /** Bit k is the k-th binary digit. */
  lemma BitIsDigit(x: nat, k: nat)
    ensures Bit(x, k) <==> x / Pow2(k) % 2 == 1
  {
    ShrIsQuotient(x, k);
  }

  lemma AndHalves(x: nat, y: nat)
    ensures And(x, y) / 2 == And(x / 2, y / 2)
    ensures And(x, y) % 2 == 1 <==> x % 2 == 1 && y % 2 == 1
  {
    AndStep(x, y);
  }

  /** AND sets the bits that are set in both. */
  lemma {:induction false} AndBit(x: nat, y: nat, k: nat)
    ensures Bit(And(x, y), k) <==> Bit(x, k) && Bit(y, k)
    decreases k
  {
    AndHalves(x, y);
    if k > 0 {
      AndBit(x / 2, y / 2, k - 1);
    }
  }

  /** XOR sets the bits that are set in one of both. */
  lemma {:induction false} XorBit(x: nat, y: nat, k: nat)
    ensures Bit(Xor(x, y), k) <==> Bit(x, k) != Bit(y, k)
    decreases k
  {
    XorHalves(x, y);
    if k > 0 {
      XorBit(x / 2, y / 2, k - 1);
    }
  }

  function Or(x: nat, y: nat): (r: nat)
    decreases x + y
  {
    if x == 0 then y
    else if y == 0 then x
    else 2 * Or(x / 2, y / 2) + (if x % 2 + y % 2 > 0 then 1 else 0)
  }

  function Xor(x: nat, y: nat): nat
    decreases x + y
  {
    if x == 0 then y
    else if y == 0 then x
    else 2 * Xor(x / 2, y / 2) + (if x % 2 == y % 2 then 0 else 1)
  }

  lemma XorHalves(x: nat, y: nat)
    ensures Xor(x, y) / 2 == Xor(x / 2, y / 2)
    ensures Xor(x, y) % 2 == if x % 2 == y % 2 then 0 else 1
  {
  }

  /** A second XOR with the same value undoes the first. */
  lemma {:induction false} XorTwice(x: nat, y: nat)
    ensures Xor(Xor(x, y), y) == x
    decreases x + y
  {
    if x + y > 0 {
      XorTwice(x / 2, y / 2);
      XorHalves(x, y);
      XorHalves(Xor(x, y), y);
    }
  }

  lemma {:induction false} XorFits(x: nat, y: nat, k: nat)
    requires x < Pow2(k) && y < Pow2(k)
    ensures Xor(x, y) < Pow2(k)
    decreases k
  {
    if k > 0 {
      XorHalves(x, y);
      XorFits(x / 2, y / 2, k - 1);
    }
  }

  lemma {:induction false} AndSymmetric(x: nat, y: nat)
    ensures And(x, y) == And(y, x)
    decreases x
  {
    if x != 0 && y != 0 {
      AndSymmetric(x / 2, y / 2);
    }
  }

  /** A mask of k ones keeps the remainder modulo 2^k. */
  lemma {:induction false} AndMask(x: nat, k: nat)
    ensures And(x, Pow2(k) - 1) == x % Pow2(k)
    decreases k
  {
    if k == 0 {
    } else if x == 0 {
      ModUnique(0, Pow2(k), 0, 0);
    } else {
      var m := Pow2(k - 1);
      AndMask(x / 2, k - 1);
      assert (2 * m - 1) / 2 == m - 1 && (2 * m - 1) % 2 == 1;
      ModDouble(x, m);
    }
  }

  lemma ModDouble(x: nat, m: nat)
    requires m > 0
    ensures x % (2 * m) == 2 * ((x / 2) % m) + x % 2
  {
    var q, r := (x / 2) / m, (x / 2) % m;
    assert x / 2 == m * q + r;
    assert x == (2 * m) * q + (2 * r + x % 2);
    ModUnique(x, 2 * m, q, 2 * r + x % 2);
  }

  lemma MulMonotone(m: nat, x: int, y: int)
    requires x <= y
    ensures m * x <= m * y
  {
    assert m * (y - x) >= 0;
  }

  /** Quotient and remainder are determined by x == m * q + r with 0 <= r < m. */
  lemma ModUnique(x: int, m: int, q: int, r: int)
    requires m > 0
    requires x == m * q + r
    requires 0 <= r < m
    ensures x / m == q
    ensures x % m == r
  {
    DivModSplit(x, m);
    var q' := x / m;
    if q > q' {
      MulMonotone(m, q' + 1, q);
    } else if q < q' {
      MulMonotone(m, q + 1, q');
    }
  }

  lemma DivModSplit(x: int, m: int)
    requires m > 0
    ensures x == m * (x / m) + x % m
    ensures 0 <= x % m < m
  {
  }

  lemma OrDouble(x: nat, z: nat)
    ensures Or(x, 2 * z) == 2 * Or(x / 2, z) + x % 2
  {
    assert (2 * z) / 2 == z && (2 * z) % 2 == 0;
    if z == 0 {
      assert x == 2 * (x / 2) + x % 2;
    }
  }

  /** OR of a value below 2^k with one whose k low bits are zero is their sum. */
  lemma {:induction false} OrDisjoint(x: nat, z: nat, k: nat)
    requires x < Pow2(k) && Low(z, k) == 0
    ensures Or(x, z) == x + z
    decreases k
  {
    if k > 0 {
      assert z == 2 * (z / 2);
      OrDisjoint(x / 2, z / 2, k - 1);
      OrDouble(x, z / 2);
    }
  }

  lemma AndOddMask(x: nat, m: nat)
    requires m > 0
    ensures And(x, 2 * m - 1) == 2 * And(x / 2, m - 1) + x % 2
  {
    assert (2 * m - 1) / 2 == m - 1 && (2 * m - 1) % 2 == 1;
  }

  /** A mask at least as wide as the value keeps all of it. */
  lemma {:induction false} AndAllOnes(x: nat, k: nat)
    requires x < Pow2(k)
    ensures And(x, Pow2(k) - 1) == x
    decreases k
  {
    if k > 0 {
      AndAllOnes(x / 2, k - 1);
      AndOddMask(x, Pow2(k - 1));
    }
  }

  /** The all-ones byte is neutral for AND. */
  lemma AndOnes(x: byte)
    ensures And(x, 0xff) == x
  {
    Pow2At8();
    AndAllOnes(x, 8);
  }

  lemma Pow2At8()
    ensures Pow2(8) == 0x100
  {
    assert Pow2(4) == 16;
    Pow2Add(4, 4);
  }

  lemma {:induction false} AndBound(x: nat, y: nat)
    ensures And(x, y) <= x && And(x, y) <= y
    decreases x
  {
    if x != 0 && y != 0 {
      AndBound(x / 2, y / 2);
      AndStep(x, y);
    }
  }

  /** AND bit by bit, without a product. */
  lemma AndStep(x: nat, y: nat)
    ensures And(x, y) == 2 * And(x / 2, y / 2) + if x % 2 == 1 && y % 2 == 1 then 1 else 0
  {
    if x % 2 == 0 || y % 2 == 0 {
      assert (x % 2) * (y % 2) == 0;
    }
  }

  /** Logical shift right by n bits, one bit at a time. */
  function Shr(x: nat, n: nat): (r: nat)
    ensures r <= x
  {
    if n == 0 then x else Shr(x / 2, n - 1)
  }

  /** Shift left of a 32-bit word: bits pushed past the top are lost. */
  function Shl(w: word, n: nat): word
    decreases n
  {
    if n == 0 then w else Shl((2 * w) % U32, n - 1)
  }

  lemma {:induction false} ShrIsQuotient(x: nat, n: nat)
    ensures Shr(x, n) == x / Pow2(n)
    decreases n
  {
    if n == 0 {
      ModUnique(x, 1, x, 0);
    } else {
      ShrIsQuotient(x / 2, n - 1);
      DivDiv(x, 2, Pow2(n - 1));
    }
  }

  /** The n low bits of x. */
  function Low(x: nat, n: nat): nat {
    if n == 0 then 0 else 2 * Low(x / 2, n - 1) + x % 2
  }

  /** Cutting x above bit n. */
  lemma {:induction false} CutBits(x: nat, n: nat)
    ensures x == Pow2(n) * Shr(x, n) + Low(x, n)
    ensures Low(x, n) < Pow2(n)
    decreases n
  {
    if n > 0 {
      CutBits(x / 2, n - 1);
      MulAssociate(2, Pow2(n - 1), Shr(x / 2, n - 1));
    }
  }

  lemma CutUnique(x: nat, n: nat, high: nat, low: nat)
    requires low < Pow2(n) && x == Pow2(n) * high + low
    ensures Shr(x, n) == high && Low(x, n) == low
  {
    CutBits(x, n);
    ModUnique(x, Pow2(n), high, low);
    ModUnique(x, Pow2(n), Shr(x, n), Low(x, n));
  }

  lemma {:induction false} ShlIsProduct(w: word, n: nat)
    ensures Shl(w, n) == (w * Pow2(n)) % U32
    decreases n
  {
    if n > 0 {
      ShlIsProduct((2 * w) % U32, n - 1);
      ModFactor(2 * w, U32, Pow2(n - 1));
      MulAssociate(w, 2, Pow2(n - 1));
    }
  }

  /** The low m + n bits are the low m bits and the n bits above them. */
  lemma {:induction false} LowSplit(x: nat, m: nat, n: nat)
    ensures Low(x, m + n) == Pow2(m) * Low(Shr(x, m), n) + Low(x, m)
    decreases m
  {
    if m > 0 {
      LowSplit(x / 2, m - 1, n);
      MulAssociate(2, Pow2(m - 1), Low(Shr(x / 2, m - 1), n));
    }
  }

  /** Of the low m bits the low k are the low k bits of all. */
  lemma {:induction false} LowLow(x: nat, m: nat, k: nat)
    requires k <= m
    ensures Low(Low(x, m), k) == Low(x, k)
    decreases k
  {
    if k > 0 {
      assert Low(x, m) / 2 == Low(x / 2, m - 1) && Low(x, m) % 2 == x % 2;
      LowLow(x / 2, m - 1, k - 1);
    }
  }

  lemma OddTimesOdd(x: int, y: int)
    requires x % 2 == 1 && y % 2 == 1
    ensures (x * y) % 2 == 1
  {
    var a, b := x / 2, y / 2;
    OddProduct(a, b, x, y);
    ModUnique(x * y, 2, 2 * (a * b) + a + b, 1);
  }

  lemma OddProduct(a: int, b: int, x: int, y: int)
    requires x == 2 * a + 1 && y == 2 * b + 1
    ensures x * y == 2 * (2 * (a * b) + a + b) + 1
  {
  }

  /** A power of two that divides a product with an odd factor divides the other factor. */
  lemma {:induction false} OddFactor(w: int, v: int, k: nat, t: int) returns (q: int)
    requires w % 2 == 1 && w * v == Pow2(k) * t
    ensures v == Pow2(k) * q
    decreases k
  {
    if k == 0 {
      q := v;
    } else {
      MulAssociate(2, Pow2(k - 1), t);
      if v % 2 == 1 {
        OddTimesOdd(w, v);
        assert false;
      }
      var h := v / 2;
      HalfOfProduct(w, h, v, Pow2(k - 1) * t);
      q := OddFactor(w, h, k - 1, t);
      MulAssociate(2, Pow2(k - 1), q);
    }
  }

  lemma HalfOfProduct(w: int, h: int, v: int, p: int)
    requires v == 2 * h && w * v == 2 * p
    ensures w * h == p
  {
    assert w * v == 2 * (w * h);
  }

  lemma ModFactor(x: int, m: int, p: int)
    requires m > 0
    ensures ((x % m) * p) % m == (x * p) % m
  {
    var q, r := x / m, x % m;
    DivModSplit(x, m);
    assert x * p == r * p + m * (q * p);
    ModShift(r * p, m, q * p);
  }

  lemma ModShift(x: int, m: int, k: int)
    requires m > 0
    ensures (x + m * k) % m == x % m
  {
    DivModSplit(x, m);
    ModUnique(x + m * k, m, x / m + k, x % m);
  }

  lemma ModOfMod(x: nat, m: nat, k: nat)
    requires m > 0 && k > 0
    ensures m * k > 0 && (x % (m * k)) % m == x % m
  {
    MulMonotone(m, 1, k);
    DivModSplit(x, m * k);
    var q := x / (m * k);
    MulAssociate(m, k, q);
    ModShift(x % (m * k), m, k * q);
  }

  lemma DivDiv(x: nat, m: nat, n: nat)
    requires m > 0 && n > 0
    ensures m * n > 0 && (x / m) / n == x / (m * n)
  {
    var q, r := x / m, x % m;
    DivModSplit(x, m);
    DivModSplit(q, n);
    MulMonotone(m, q % n + 1, n);
    MulMonotone(m, 0, q % n);
    assert m * q == m * (n * (q / n)) + m * (q % n);
    MulAssociate(m, n, q / n);
    ModUnique(x, m * n, q / n, m * (q % n) + r);
  }

  lemma MulAssociate(x: int, y: int, z: int)
    ensures x * (y * z) == (x * y) * z
  {
  }

  /** i * n by repeated addition. */
  function Times(i: nat, n: nat): nat {
    if i == 0 then 0 else n + Times(i - 1, n)
  }

  lemma {:induction false} TimesIsProduct(i: nat, n: nat)
    ensures Times(i, n) == i * n
  {
    if i > 0 {
      TimesIsProduct(i - 1, n);
      assert i * n == n + (i - 1) * n;
    }
  }

  lemma {:induction false} TimesMonotone(i: nat, j: nat, n: nat)
    requires i <= j
    ensures Times(i, n) <= Times(j, n)
  {
    if i < j {
      TimesMonotone(i, j - 1, n);
    }
  }

  /** The quotient by repeated subtraction. */
  function Div(x: nat, d: nat): (q: nat)
    requires d > 0
    ensures q <= x
    decreases x
  {
    if x < d then 0 else 1 + Div(x - d, d)
  }

  lemma {:induction false} DivBounds(x: nat, d: nat)
    requires d > 0
    ensures Times(Div(x, d), d) <= x < Times(Div(x, d), d) + d
    decreases x
  {
    if x >= d {
      DivBounds(x - d, d);
    }
  }

  lemma {:induction false} DivIsQuotient(x: nat, d: nat)
    requires d > 0
    ensures Div(x, d) == x / d
    decreases x
  {
    DivBounds(x, d);
    TimesIsProduct(Div(x, d), d);
    ModUnique(x, d, Div(x, d), x - Times(Div(x, d), d));
  }

  /** The remainder by repeated subtraction. */
  function Rem(x: nat, m: nat): (r: nat)
    requires m > 0
    ensures r < m
  {
    if x < m then x else Rem(x - m, m)
  }

  lemma {:induction false} RemIsMod(x: nat, m: nat)
    requires m > 0
    ensures Rem(x, m) == x % m
  {
    if x < m {
      ModUnique(x, m, 0, x);
    } else {
      RemIsMod(x - m, m);
      ModShift(x - m, m, 1);
    }
  }

  /** The remainder of x * y by repeated addition. */
  function MulRem(x: nat, y: nat, m: nat): (r: nat)
    requires m > 0
    ensures r < m
  {
    if x == 0 then 0 else Rem(y + MulRem(x - 1, y, m), m)
  }

  lemma {:induction false} MulRemIsMod(x: nat, y: nat, m: nat)
    requires m > 0
    ensures MulRem(x, y, m) == (x * y) % m
  {
    if x == 0 {
      ModUnique(0, m, 0, 0);
    } else {
      var p := (x - 1) * y;
      MulRemIsMod(x - 1, y, m);
      RemIsMod(y + p % m, m);
      DivModSplit(p, m);
      ModShift(y + p % m, m, p / m);
      assert x * y == y + p;
    }
  }

  lemma QuotientNat(x: nat, m: nat)
    requires m > 0
    ensures 0 <= x / m
  {
    DivModSplit(x, m);
    if x / m < 0 {
      MulMonotone(m, x / m, -1);
    }
  }
}
