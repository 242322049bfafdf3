/**
  The multiply-with-carry generators of trng.c. One step of a generator with
  multiplier m is multiplication by m modulo m * 2^16 - 1.
 */
module Trng {
  import opened Bits

  const W_MULTIPLIER: nat := 18000
  const Z_MULTIPLIER: nat := 36969

  predicate Multiplier(m: nat) {
    m == W_MULTIPLIER || m == Z_MULTIPLIER
  }

  function Modulus(m: nat): int {
    m * 0x1_0000 - 1
  }

  /** `m * (x & 0xffff) + (x >> 16)`; it stays below 2^32. */
  function Step(m: nat, x: word): (r: word)
    requires Multiplier(m)
  {
    m * (x % 0x1_0000) + x / 0x1_0000
  }

  function After(m: nat, x: word, k: nat): word
    requires Multiplier(m)
  {
    if k == 0 then x else Step(m, After(m, x, k - 1))
  }

  /** a and b differ by a multiple of the modulus. */
  ghost predicate Congruent(a: int, b: int, n: int) {
    exists c: int :: a - b == n * c
  }

  function Power(m: nat, k: nat): nat {
    if k == 0 then 1 else m * Power(m, k - 1)
  }

  lemma StepMultiplies(m: nat, x: word)
    requires Multiplier(m)
    ensures Congruent(Step(m, x), m * x, Modulus(m))
    ensures Congruent(0x1_0000 * Step(m, x), x, Modulus(m))
  {
    var hi, lo := x / 0x1_0000, x % 0x1_0000;
    assert m * x == m * (0x1_0000 * hi) + m * lo;
    assert (m * 0x1_0000 - 1) * -hi == hi - m * (0x1_0000 * hi);
    assert Step(m, x) - m * x == Modulus(m) * -hi;
    assert 0x1_0000 * Step(m, x) - x == Modulus(m) * lo;
  }

  lemma CongruentTimes(a: int, b: int, n: int, f: int)
    requires Congruent(a, b, n)
    ensures Congruent(f * a, f * b, n)
  {
    var c: int :| a - b == n * c;
    assert f * a - f * b == n * (f * c);
  }

  lemma CongruentTransitive(a: int, b: int, c: int, n: int)
    requires Congruent(a, b, n) && Congruent(b, c, n)
    ensures Congruent(a, c, n)
  {
    var d: int :| a - b == n * d;
    var e: int :| b - c == n * e;
    assert a - c == n * (d + e);
  }

  /** After k steps: the seed times m^k, modulo m * 2^16 - 1. */
  lemma {:induction false} AfterIsPower(m: nat, x: word, k: nat)
    requires Multiplier(m)
    ensures Congruent(After(m, x, k), Power(m, k) * x, Modulus(m))
  {
    if k == 0 {
      assert After(m, x, 0) - Power(m, 0) * x == Modulus(m) * 0;
    } else {
      var y := After(m, x, k - 1);
      AfterIsPower(m, x, k - 1);
      StepMultiplies(m, y);
      CongruentTimes(y, Power(m, k - 1) * x, Modulus(m), m);
      MulAssociate(m, Power(m, k - 1), x);
      CongruentTransitive(Step(m, y), m * y, Power(m, k) * x, Modulus(m));
    }
  }

  lemma StepRange(m: nat, x: word)
    requires Multiplier(m)
    ensures Step(m, x) == 0 <==> x == 0
    ensures Step(m, x) <= (m + 1) * 0xffff
    ensures x <= (m + 1) * 0xffff ==> Step(m, x) <= Modulus(m)
  {
    var hi, lo := x / 0x1_0000, x % 0x1_0000;
    assert x == 0x1_0000 * hi + lo && 0 <= hi <= 0xffff;
    if m == W_MULTIPLIER {
      assert Step(m, x) == 18000 * lo + hi;
    } else {
      assert Step(m, x) == 36969 * lo + hi;
    }
  }

  /** From the second step on the state is between 1 and the modulus, or 0 for good if the seed was. */
  lemma {:induction false} AfterRange(m: nat, x: word, k: nat)
    requires Multiplier(m)
    ensures After(m, x, k) == 0 <==> x == 0
    ensures k >= 1 ==> After(m, x, k) <= (m + 1) * 0xffff
    ensures k >= 2 ==> After(m, x, k) <= Modulus(m)
  {
    if k > 0 {
      AfterRange(m, x, k - 1);
      StepRange(m, After(m, x, k - 1));
    }
  }

  lemma CongruentInRange(a: int, b: int, n: int)
    requires Congruent(a, b, n) && 1 <= a <= n && 1 <= b <= n
    ensures a == b
  {
    var c: int :| a - b == n * c;
    if c > 0 {
      MulMonotone(n, 1, c);
    } else if c < 0 {
      MulMonotone(n, c, -1);
    }
  }

  lemma CongruentSymmetric(a: int, b: int, n: int)
    requires Congruent(a, b, n)
    ensures Congruent(b, a, n)
  {
    var c: int :| a - b == n * c;
    assert b - a == n * -c;
  }

  /** From the second step on the state is the representative in 1..modulus of m^k times the seed, and no other. */
  lemma StateIsRepresentative(m: nat, x: word, k: nat, v: nat)
    requires Multiplier(m) && k >= 2 && x != 0 && 1 <= v <= Modulus(m)
    ensures After(m, x, k) == v <==> Congruent(v, Power(m, k) * x, Modulus(m))
  {
    AfterIsPower(m, x, k);
    AfterRange(m, x, k);
    if Congruent(v, Power(m, k) * x, Modulus(m)) {
      CongruentSymmetric(v, Power(m, k) * x, Modulus(m));
      CongruentTransitive(After(m, x, k), Power(m, k) * x, v, Modulus(m));
      CongruentInRange(After(m, x, k), v, Modulus(m));
    }
  }

  /** A generator stands still exactly on the two states 0 and the modulus. */
  lemma FixedPoints(m: nat, x: word)
    requires Multiplier(m)
    ensures Step(m, x) == x <==> x == 0 || x == Modulus(m)
  {
    var hi, lo := x / 0x1_0000, x % 0x1_0000;
    assert x == 0x1_0000 * hi + lo && 0 <= hi <= 0xffff;
    // m - 1 is invertible modulo 2^16 - 1.
    if m == W_MULTIPLIER {
      assert Step(m, x) == 18000 * lo + hi;
      assert Step(m, x) == x ==> lo == 0xffff * (18704 * hi - 5137 * lo);
    } else {
      assert Step(m, x) == 36969 * lo + hi;
      assert Step(m, x) == x ==> lo == 0xffff * (61892 * hi - 34913 * lo);
    }
  }

  /** `(z << 16) + w`, both operations in 32 bits. */
  function Join(z: word, w: word): (r: word)
    ensures r == (0x1_0000 * z + w) % U32
  {
    DivModSplit(z * 0x1_0000, U32);
    ModShift((z * 0x1_0000) % U32 + w, U32, z * 0x1_0000 / U32);
    ((z * 0x1_0000) % U32 + w) % U32
  }

  lemma XorBits(x: word, y: word)
    ensures forall k: nat :: Bit(Xor(x, y), k) <==> Bit(x, k) != Bit(y, k)
  {
    forall k: nat
      ensures Bit(Xor(x, y), k) <==> Bit(x, k) != Bit(y, k)
    {
      XorBit(x, y, k);
    }
  }

  function XorWord(x: word, y: word): (r: word)
    ensures Xor(r, y) == x
    ensures forall k: nat :: Bit(r, k) <==> Bit(x, k) != Bit(y, k)
  {
    XorBits(x, y);
    Pow2At32();
    XorFits(x, y, 32);
    XorTwice(x, y);
    Xor(x, y)
  }

  /** Which multiplier belongs to which state. */
  lemma MultipliersOfStates(w: word, z: word)
    ensures Congruent(Step(W_MULTIPLIER, w), 18_000 * w, 18_000 * 0x1_0000 - 1)
    ensures Congruent(Step(Z_MULTIPLIER, z), 36_969 * z, 36_969 * 0x1_0000 - 1)
  {
    StepMultiplies(W_MULTIPLIER, w);
    StepMultiplies(Z_MULTIPLIER, z);
  }

  /** The globals of trng.c. */
  class Generator {
    var w: word
    var z: word

    method Update()
      modifies this
      ensures w == Step(W_MULTIPLIER, old(w)) && z == Step(Z_MULTIPLIER, old(z))
    {
      w := 18000 * (w % 0x1_0000) + w / 0x1_0000;
      z := 36969 * (z % 0x1_0000) + z / 0x1_0000;
    }

    /** trng_rand at system timer tick `tick`, which can be taken out of the result again. */
    method Rand(tick: word) returns (result: word)
      modifies this
      ensures w == Step(W_MULTIPLIER, old(w)) && z == Step(Z_MULTIPLIER, old(z))
      ensures Xor(result, tick) == (0x1_0000 * z + w) % U32
      ensures forall k: nat :: Bit(result, k) <==> Bit((0x1_0000 * z + w) % U32, k) != Bit(tick, k)
    {
      Update();
      result := XorWord(Join(z, w), tick);
    }

    /** k calls. */
    method RandTimes(k: nat, ticks: nat -> word)
      modifies this
      ensures w == After(W_MULTIPLIER, old(w), k) && z == After(Z_MULTIPLIER, old(z), k)
    {
      for i := 0 to k
        invariant w == After(W_MULTIPLIER, old(w), i) && z == After(Z_MULTIPLIER, old(z), i)
      {
        var _ := Rand(ticks(i));
      }
    }
  }
}
