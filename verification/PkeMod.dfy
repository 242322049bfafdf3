/**
  `pke_mod`: c = a mod b. The number a is cut at the bit length of b; the high
  part is brought down by one modular multiplication with 2^bitlen(b) mod b, and
  the low part is added.
 */
module PkeMod {
  import opened Bits
  import opened Words
  import opened BigInteger
  import opened RightShift
  import opened PkeEngine

  // ------------------------------------------------- the arithmetic of the fold

  /** The high operand after at most one subtraction, for a kept high part h; the two branches test >= and >. */
  function HighOperand(h: nat, b: nat, aligned: bool): nat {
    if h > b || (h == b && !aligned) then h - b else h
  }

  /**
    The operand handed to the multiplier is within the modulus exactly when what
    is kept of the high part is at most twice the modulus, and equals the modulus
    exactly when that is twice the modulus, or is the modulus itself and the bit
    length is a multiple of 32.
   */
  lemma HighOperandInRange(h: nat, b: nat, aligned: bool)
    requires b > 0
    ensures HighOperand(h, b, aligned) <= b <==> h <= 2 * b
    ensures HighOperand(h, b, aligned) == b <==> h == 2 * b || (h == b && aligned)
  {
  }

  lemma ReduceOnce(x: nat, b: nat)
    requires b > 0 && x < 2 * b
    ensures x % b == if x >= b then x - b else x
  {
    ModUnique(x, b, if x >= b then 1 else 0, if x >= b then x - b else x);
  }

  lemma FoldIdentity(p: int, b: int, hi: int, low: int, e: int)
    ensures p * hi + low == (p - b) * (hi - e * b) + low + b * (hi - e * b + e * (p - b) + e * b)
  {
    var r, ah := p - b, hi - e * b;
    assert (r + b) * (ah + e * b) == r * ah + b * (ah + e * r + e * b);
  }

  /** Folding a = p * hi + low through reduced operands gives a mod b. */
  lemma FoldCorrect(p: nat, b: nat, hi: nat, low: nat, e: nat)
    requires b > 0 && p >= b && hi >= e * b
    ensures (low % b + ((p - b) * (hi - e * b)) % b) % b == (p * hi + low) % b
  {
    var x := (p - b) * (hi - e * b);
    var s := low % b + x % b;
    var k := hi - e * b + e * (p - b) + e * b;
    FoldIdentity(p, b, hi, low, e);
    DivModSplit(low, b);
    DivModSplit(x, b);
    DivModSplit(s, b);
    SumOfMultiples(b, low / b, x / b, s / b, k);
    ModUnique(p * hi + low, b, low / b + x / b + s / b + k, s % b);
  }

  lemma SumOfMultiples(b: int, q0: int, q1: int, q2: int, k: int)
    ensures b * q0 + b * q1 + b * q2 + b * k == b * (q0 + q1 + q2 + k)
  {
  }

  /** One subtraction of the modulus or none: either way the fold gives a mod b. */
  lemma FoldedResult(p: nat, b: nat, hi: nat, low: nat, aligned: bool)
    requires 0 < b <= p
    ensures (low % b + ((p - b) * HighOperand(hi, b, aligned)) % b) % b == (p * hi + low) % b
  {
    if HighOperand(hi, b, aligned) == hi {
      FoldCorrect(p, b, hi, low, 0);
    } else {
      FoldCorrect(p, b, hi, low, 1);
    }
  }

  // ---------------------------------------------------------- cutting a at bitlen(b)

  /** The bit length of b in terms of its top word. */
  lemma CutPosition(b: seq<word>)
    requires b != [] && b[|b| - 1] != 0
    ensures var len := BitLen(Val(b)); 32 * (|b| - 1) < len <= 32 * |b|
    ensures Pow2(BitLen(Val(b))) <= 2 * Val(b) && Val(b) < Pow2(BitLen(Val(b)))
  {
    var n, v := |b|, Val(b);
    ValTopWord(b);
    ValBound(b);
    BitLenBounds(v);
    WeightIsPow2(n - 1);
    WeightIsPow2(n);
    if BitLen(v) <= 32 * (n - 1) {
      Pow2Monotone(BitLen(v), 32 * (n - 1));
    } else if BitLen(v) > 32 * n {
      Pow2Monotone(32 * n, BitLen(v) - 1);
    }
  }

  lemma CutHigh(s: seq<word>, j: nat, m: nat)
    requires j <= |s|
    ensures Shr(Val(s[j..]), m) == Shr(Val(s), 32 * j + m)
  {
    DropVal(s, j);
    ShrShr(Val(s), 32 * j, m);
  }

  /** Masking the top one of the low words leaves a modulo the cut. */
  lemma CutLow(s: seq<word>, j: nat, m: nat, t: seq<word>)
    requires j < |s| && |t| == j + 1 && m <= 32
    requires t[..j] == s[..j] && t[j] == Low(s[j], m)
    ensures Val(t) == Low(Val(s), 32 * j + m)
  {
    var v, k := Val(s), 32 * j;
    calc {
      Val(t);
      { assert t[..j + 1] == t; ValPrefixStep(t, j); WeightIsPow2(j); }
      Val(s[..j]) + Pow2(k) * Low(s[j], m);
      { PrefixIsLow(s, j); }
      Low(v, k) + Pow2(k) * Low(s[j], m);
      { DropVal(s, j); assert s[j..][0] == s[j]; LowOfFirstWord(s[j..], m); }
      Low(v, k) + Pow2(k) * Low(Shr(v, k), m);
      { LowSplit(v, k, m); }
      Low(v, k + m);
    }
  }

  // ------------------------------------------------------------------ the method

  /** The first n words of a number are its low 32 n bits. */
  lemma PrefixIsLow(s: seq<word>, n: nat)
    requires n <= |s|
    ensures Val(s[..n]) == Low(Val(s), 32 * n)
  {
    ValSplit(s, n);
    ValBound(s[..n]);
    WeightIsPow2(n);
    CutUnique(Val(s), 32 * n, Val(s[n..]), Val(s[..n]));
  }

  /** A number of at most n words is all of its low 32 n bits. */
  lemma ShortIsLow(s: seq<word>, n: nat)
    requires |s| <= n
    ensures Low(Val(s), 32 * n) == Val(s)
  {
    ValBound(s);
    WeightMonotone(|s|, n);
    WeightIsPow2(n);
    LowOfSmall(Val(s), 32 * n);
  }

  /** c = p, or p - b if p is at least b. */
  method SubtractOnce(p: array<word>, b: array<word>, c: array<word>, n: nat)
    requires n <= p.Length && n <= b.Length && n <= c.Length
    requires c != p && c != b
    modifies c
    ensures Val(c[..n]) == HighOperand(Val(p[..n]), Val(b[..n]), false)
    ensures forall k :: n <= k < c.Length ==> c[k] == old(c[k])
  {
    assert p[0..0 + n] == p[..n] && b[0..0 + n] == b[..n];
    var r := BigIntegerCompare(p, 0, n, b, 0, n);
    if r >= 0 {
      SubU32(p, 0, b, 0, c, 0, n);
      assert c[0..0 + n] == c[..n];
    } else {
      Copy(c, p, 0, n);
      assert c[..n] == p[..n];
    }
  }

  /** Bits of a from 32 (n - 1) + bitLen up, in all the words of p they take. */
  method ShiftToFront(a: array<word>, aWordLen: nat, p: array<word>, n: nat, bitLen: nat)
    requires 0 < n <= aWordLen <= a.Length && aWordLen - n + 1 <= p.Length
    requires a != p && 0 < bitLen < 32
    modifies p
    ensures Val(p[..aWordLen - n + 1]) == Shr(Val(a[..aWordLen]), 32 * (n - 1) + bitLen)
  {
    var tmpLen := aWordLen - n + 1;
    ghost var s := a[..aWordLen];
    Copy(p, a, n - 1, tmpLen);
    assert p[..tmpLen] == s[n - 1..];
    CutHigh(s, n - 1, bitLen);
    var _ := Div2nU32(p, tmpLen, bitLen);
  }

  /** The low n words of these bits. */
  method LoadHighBits(a: array<word>, aWordLen: nat, p: array<word>, n: nat, bitLen: nat)
    requires 0 < n <= aWordLen <= a.Length && aWordLen - n + 1 <= p.Length && n <= p.Length
    requires a != p && 0 < bitLen < 32
    modifies p
    ensures Val(p[..n]) == Low(Shr(Val(a[..aWordLen]), 32 * (n - 1) + bitLen), 32 * n)
  {
    var tmpLen := aWordLen - n + 1;
    ShiftToFront(a, aWordLen, p, n, bitLen);
    ghost var t := p[..tmpLen];
    if tmpLen < n {
      Clear(p, tmpLen, n - tmpLen);
      assert p[..n][..tmpLen] == t;
      ValRealLength(p[..n], tmpLen);
      ShortIsLow(t, n);
    } else {
      PrefixIsLow(t, n);
      assert t[..n] == p[..n];
    }
  }

  /** What of a stands above the cut and fits in n words. */
  function HighPart(a: nat, cut: nat, n: nat): nat {
    Low(Shr(a, cut), 32 * n)
  }

  /** The high part of a, brought below or at the modulus by at most one subtraction. */
  method FoldHigh(a: array<word>, aWordLen: nat, b: array<word>, p: array<word>, c: array<word>, n: nat, bitLen: nat)
    requires 0 < n <= aWordLen <= a.Length && aWordLen <= 2 * n && n <= b.Length && n <= c.Length
    requires n < p.Length && p !in {a, b} && c !in {a, b, p} && bitLen < 32
    requires b[n - 1] != 0
    modifies p, c
    ensures Val(c[..n]) == HighOperand(HighPart(Val(a[..aWordLen]), Cut(n, bitLen), n), Val(b[..n]), bitLen == 0)
    ensures forall k :: n <= k < c.Length ==> c[k] == old(c[k])
  {
    if bitLen != 0 {
      LoadHighBits(a, aWordLen, p, n, bitLen);
      SubtractOnce(p, b, c, n);
    } else {
      FoldHighAligned(a, aWordLen, b, c, n);
      assert a[..aWordLen][n..] == a[n..aWordLen];
      DropVal(a[..aWordLen], n);
      ShortIsLow(a[n..aWordLen], n);
    }
  }

  /** The bit position at which a is cut: the bit length of an n-word b with bitLen == bitlen(b) % 32. */
  function Cut(n: nat, bitLen: nat): nat
    requires n > 0
  {
    if bitLen == 0 then 32 * n else 32 * (n - 1) + bitLen
  }

  /** Fewer words than b's non-zero top word make a smaller number. */
  lemma ShorterIsLess(s: seq<word>, t: seq<word>)
    requires |s| < |t| && t[|t| - 1] != 0
    ensures Val(s) < Val(t)
  {
    ValBound(s);
    ValTopWord(t);
    WeightMonotone(|s|, |t| - 1);
  }

  /** c = len words of a, padded with zeros to n words. */
  method CopyPadded(a: array<word>, from: nat, len: nat, c: array<word>, n: nat)
    requires from + len <= a.Length && len <= n <= c.Length && c != a
    modifies c
    ensures Val(c[..n]) == Val(a[from..from + len])
    ensures forall k :: n <= k < c.Length ==> c[k] == old(c[k])
  {
    Copy(c, a, from, len);
    Clear(c, len, n - len);
    assert c[..n][..len] == a[from..from + len];
    ValRealLength(c[..n], len);
  }

  method FoldHighAligned(a: array<word>, aWordLen: nat, b: array<word>, c: array<word>, n: nat)
    requires 0 < n <= aWordLen <= a.Length && aWordLen <= 2 * n && n <= b.Length && n <= c.Length
    requires c !in {a, b}
    requires b[n - 1] != 0
    modifies c
    ensures Val(c[..n]) == HighOperand(Val(a[n..aWordLen]), Val(b[..n]), true)
    ensures forall k :: n <= k < c.Length ==> c[k] == old(c[k])
  {
    var tmpLen := aWordLen - n;
    assert a[n..n + tmpLen] == a[n..aWordLen] && b[0..0 + n] == b[..n];
    var r := BigIntegerCompare(a, n, tmpLen, b, 0, n);
    if r > 0 {
      if tmpLen < n {
        ShorterIsLess(a[n..aWordLen], b[..n]);
      }
      SubU32(a, n, b, 0, c, 0, n);
      assert c[0..0 + n] == c[..n];
    } else {
      CopyPadded(a, n, tmpLen, c, n);
    }
  }

  /** 2^cut less b, which is 2^cut mod b or b itself, into B1. */
  method LoadRadix(b: array<word>, p: array<word>, radix: array<word>, n: nat, bitLen: nat)
    requires 0 < n <= b.Length && n <= p.Length && n <= radix.Length && bitLen < 32
    requires p !in {b, radix} && radix != b
    requires 0 < Val(b[..n]) < Pow2(Cut(n, bitLen))
    modifies p, radix
    ensures Val(radix[..n]) == Pow2(Cut(n, bitLen)) - Val(b[..n])
  {
    Clear(p, 0, n);
    ghost var x := Val(b[..n]);
    if bitLen != 0 {
      p[n - 1] := OneBit(bitLen);
    }
    RadixVal(p[..n], n, bitLen);
    assert p[0..0 + n] == p[..n] && b[0..0 + n] == b[..n];
    SubU32(p, 0, b, 0, radix, 0, n);
    assert radix[0..0 + n] == radix[..n];
  }

  /** `1 << bitLen`. */
  function OneBit(bitLen: nat): (r: word)
    requires bitLen < 32
    ensures r == Pow2(bitLen)
  {
    Pow2At32();
    Pow2Monotone(bitLen + 1, 32);
    Pow2(bitLen)
  }

  lemma RadixVal(s: seq<word>, n: nat, bitLen: nat)
    requires |s| == n > 0 && bitLen < 32
    requires forall k :: 0 <= k < n - 1 ==> s[k] == 0
    requires s[n - 1] == if bitLen == 0 then 0 else Pow2(bitLen)
    ensures Val(s) == if bitLen == 0 then 0 else Pow2(Cut(n, bitLen))
    ensures bitLen == 0 ==> Weight(n) == Pow2(Cut(n, bitLen))
  {
    if bitLen == 0 {
      ValZeros(s);
      WeightIsPow2(n);
    } else {
      ValPrefixStep(s, n - 1);
      assert s[..n] == s;
      ValZeros(s[..n - 1]);
      WeightTimesPow2(n - 1, bitLen);
    }
  }

  /** The bits of a below the cut, in the n low words of p. */
  method LoadLowBits(a: array<word>, p: array<word>, n: nat, bitLen: nat)
    requires 0 < n <= a.Length && n <= p.Length && a != p && 0 < bitLen < 32
    modifies p
    ensures Val(p[..n]) == Low(Val(a[..n]), Cut(n, bitLen))
  {
    Copy(p, a, 0, n);
    MaskIsLow(p[n - 1], bitLen);
    p[n - 1] := And(p[n - 1], OneBit(bitLen) - 1);
    assert p[..n][..n - 1] == a[..n][..n - 1];
    CutLow(a[..n], n - 1, bitLen, p[..n]);
  }

  lemma MaskIsLow(x: word, bitLen: nat)
    requires bitLen < 32
    ensures And(x, OneBit(bitLen) - 1) == Low(x, bitLen) <= x
  {
    AndMask(x, bitLen);
    AndBound(x, OneBit(bitLen) - 1);
    LowIsMod(x, bitLen);
  }

  /** The low part of a reduced modulo b: in c, or, if nothing had to be done, in a itself. */
  method FoldLow(a: array<word>, b: array<word>, p: array<word>, c: array<word>, n: nat, bitLen: nat)
    returns (low: array<word>)
    requires 0 < n <= a.Length && n <= b.Length && n <= p.Length && n <= c.Length && bitLen < 32
    requires p !in {a, b} && c !in {a, b, p}
    modifies p, c
    ensures low == a || low == c
    ensures Val(low[..n]) == HighOperand(Low(Val(a[..n]), Cut(n, bitLen)), Val(b[..n]), false)
    ensures forall k :: n <= k < c.Length ==> c[k] == old(c[k])
  {
    if bitLen != 0 {
      LoadLowBits(a, p, n, bitLen);
      SubtractOnce(p, b, c, n);
      low := c;
    } else {
      ShortIsLow(a[..n], n);
      assert a[0..0 + n] == a[..n] && b[0..0 + n] == b[..n];
      var r := BigIntegerCompare(a, 0, n, b, 0, n);
      if r >= 0 {
        SubU32(a, 0, b, 0, c, 0, n);
        assert c[0..0 + n] == c[..n];
        low := c;
      } else {
        low := a;
      }
    }
  }

  lemma LowIsMod(x: nat, n: nat)
    ensures Low(x, n) == x % Pow2(n)
  {
    CutBits(x, n);
    ModUnique(x, Pow2(n), Shr(x, n), Low(x, n));
  }

  lemma LowOfSmall(x: nat, n: nat)
    requires x < Pow2(n)
    ensures Low(x, n) == x
  {
    CutUnique(x, n, 0, x);
  }

  lemma LowOfPrefix(s: seq<word>, n: nat, k: nat)
    requires n <= |s| && k <= 32 * n
    ensures Low(Val(s[..n]), k) == Low(Val(s), k)
  {
    PrefixIsLow(s, n);
    LowLow(Val(s), 32 * n, k);
  }

  // ------------------------------------------------------- when the remainder is right

  /** Within this range one subtraction brings the high part down to the modulus. */
  ghost predicate Foldable(a: nat, b: nat, n: nat) {
    HighPart(a, BitLen(b), n) <= 2 * b
  }

  /** Where the driver loses bits of a, for a modulus of n words. */
  ghost function Reach(b: nat, n: nat): nat {
    BitLen(b) + 32 * n
  }

  lemma CancelFactor(p: int, x: int, y: int)
    requires p > 0 && p * x == p * y
    ensures x == y
  {
  }

  lemma SwapFactors(b: int, p: int, q: int)
    ensures p * (b * q) == b * (p * q)
  {
  }

  lemma SumOfTwo(b: int, x: int, y: int)
    ensures b * x + b * y == b * (x + y)
    ensures b * x - b * y == b * (x - y)
  {
  }

  lemma MultipleAdded(a: nat, b: nat, p: nat, high: nat, low: nat)
    requires b > 0 && a == p * high + low && high % b == 0
    ensures a % b == low % b
  {
    var q, l, r := high / b, low / b, low % b;
    DivModSplit(high, b);
    DivModSplit(low, b);
    SwapFactors(b, p, q);
    SumOfTwo(b, p * q, l);
    ModUnique(a, b, p * q + l, r);
  }

  lemma MultipleFound(a: nat, b: nat, k: nat, high: nat, low: nat)
    requires b % 2 == 1 && a == Pow2(k) * high + low && a % b == low % b
    ensures high % b == 0
  {
    DivModSplit(a, b);
    DivModSplit(low, b);
    SumOfTwo(b, a / b, low / b);
    DivideOut(b, k, high, a / b - low / b);
  }

  /** Dropping the bits of a from k up changes nothing modulo an odd b exactly when b divides them. */
  lemma TruncationIsHarmless(a: nat, b: nat, k: nat)
    requires b % 2 == 1
    ensures Low(a, k) % b == a % b <==> Shr(a, k) % b == 0
  {
    CutBits(a, k);
    if Shr(a, k) % b == 0 {
      MultipleAdded(a, b, Pow2(k), Shr(a, k), Low(a, k));
    }
    if Low(a, k) % b == a % b {
      MultipleFound(a, b, k, Shr(a, k), Low(a, k));
    }
  }

  lemma DivideOut(b: nat, k: nat, high: nat, v: int)
    requires b % 2 == 1 && b * v == Pow2(k) * high
    ensures high % b == 0
  {
    var q := OddFactor(b, v, k, high);
    SwapFactors(b, Pow2(k), q);
    CancelFactor(Pow2(k), high, b * q);
    ModUnique(high, b, q, 0);
  }

  /** c is the remainder of the bits of a within reach; it is a mod b exactly when b divides the bits that are lost. */
  ghost predicate RemainderWithin(c: nat, a: nat, b: nat, n: nat)
    requires b > 0
  {
    && c == Low(a, Reach(b, n)) % b
    && (c == a % b <==> Shr(a, Reach(b, n)) % b == 0)
  }

  lemma RemainderOfKept(a: nat, b: nat, n: nat)
    requires b % 2 == 1
    ensures RemainderWithin(Rem(Low(a, Reach(b, n)), b), a, b, n)
  {
    RemIsMod(Low(a, Reach(b, n)), b);
    TruncationIsHarmless(a, b, Reach(b, n));
  }

  /** With two words or more in b, nothing that is lost can be a multiple of b. */
  lemma LongModulusNeedsAll(s: seq<word>, t: seq<word>, n: nat)
    requires |t| == n >= 2 && t[n - 1] != 0 && |s| <= 2 * n
    ensures Val(t) > 0
    ensures var k := Reach(Val(t), n); Shr(Val(s), k) % Val(t) == 0 <==> Val(s) < Pow2(k)
  {
    var b, k := Val(t), Reach(Val(t), n);
    CutPosition(t);
    ValTopWord(t);
    LostBitsAreFew(s, n, k);
    WeightMonotone(1, n - 1);
    assert Weight(1) == U32 * Weight(0);
    CutBits(Val(s), k);
    if Val(s) < Pow2(k) {
      CutUnique(Val(s), k, 0, Val(s));
    }
    ModUnique(Shr(Val(s), k), b, 0, Shr(Val(s), k));
  }

  lemma LostBitsAreFew(s: seq<word>, n: nat, k: nat)
    requires |s| <= 2 * n && 32 * (2 * n - 1) < k <= 64 * n
    ensures Shr(Val(s), k) < U32
  {
    var high := Shr(Val(s), k);
    ValBound(s);
    WeightMonotone(|s|, 2 * n);
    WeightIsPow2(2 * n);
    CutBits(Val(s), k);
    Pow2Add(k, 64 * n - k);
    Pow2Monotone(64 * n - k, 32);
    Pow2At32();
    if high >= Pow2(64 * n - k) {
      MulMonotone(Pow2(k), Pow2(64 * n - k), high);
    }
  }

  /** Every a of at most twice the bit length of b can be folded, and nothing of it is lost. */
  lemma DoubleLengthIsFoldable(a: nat, b: nat, n: nat)
    requires 0 < b < Weight(n) && a < Pow2(2 * BitLen(b))
    ensures Foldable(a, b, n) && Shr(a, Reach(b, n)) == 0
  {
    var m := BitLen(b);
    BitLenBounds(b);
    WeightIsPow2(n);
    if m > 32 * n {
      Pow2Monotone(32 * n, m - 1);
    }
    CutBits(a, m);
    Pow2Add(m, m);
    if Shr(a, m) >= Pow2(m) {
      MulMonotone(Pow2(m), Pow2(m), Shr(a, m));
    }
    Pow2Monotone(m, 32 * n);
    LowOfSmall(Shr(a, m), 32 * n);
    Pow2Monotone(2 * m, Reach(b, n));
    CutUnique(a, Reach(b, n), 0, a);
  }

  /** 2^34 mod 3: the one bit that is set is lost, and the driver makes 0 of it instead of 1. */
  lemma TruncationInstance()
    ensures Val([0, 4]) == 0x4_0000_0000 && Val([3]) == 3
    ensures Foldable(0x4_0000_0000, 3, 1)
    ensures Low(0x4_0000_0000, Reach(3, 1)) % 3 == 0 && 0x4_0000_0000 % 3 == 1
  {
    assert [0, 4][1..] == [4];
    ValOne(4);
    ValOne(3);
    assert BitLen(3) == 1 + BitLen(1) && BitLen(1) == 1 + BitLen(0);
    assert Pow2(2) == 4;
    Pow2At32();
    Pow2Add(2, 32);
    CutUnique(0x4_0000_0000, 2, 0x1_0000_0000, 0);
    CutUnique(0x1_0000_0000, 32, 1, 0);
    CutUnique(0x4_0000_0000, 34, 1, 0);
  }

  /** The run whose stop code the driver does not look at. */
  function IgnoredRun(k: nat, hasParameters: bool): nat {
    if hasParameters then k else k + 1
  }

  /** The stop code of the multiplication, run i + 1, or if it was good, of the addition. */
  function CodeAfter(codes: nat -> nat, i: nat): nat {
    if codes(i + 1) != PKE_SUCCESS then codes(i + 1) else codes(i + 2)
  }

  /** The first bad stop code among the runs the driver does look at. */
  function CheckedCode(codes: nat -> nat, k: nat, hasParameters: bool): nat {
    if !hasParameters && codes(k) != PKE_SUCCESS then codes(k)
    else CodeAfter(codes, IgnoredRun(k, hasParameters))
  }

  /** 0 means that every run whose code is looked at stopped normally; else the first bad code comes back. */
  lemma CheckedCodeIsFirstBad(codes: nat -> nat, k: nat)
    ensures CheckedCode(codes, k, true) == 0 <==> codes(k + 1) == 0 && codes(k + 2) == 0
    ensures CheckedCode(codes, k, false) == 0 <==> codes(k) == 0 && codes(k + 2) == 0 && codes(k + 3) == 0
    ensures codes(k + 1) != 0 ==> CheckedCode(codes, k, true) == codes(k + 1)
    ensures codes(k + 1) == 0 ==> CheckedCode(codes, k, true) == codes(k + 2)
    ensures codes(k) != 0 ==> CheckedCode(codes, k, false) == codes(k)
    ensures codes(k) == 0 && codes(k + 2) != 0 ==> CheckedCode(codes, k, false) == codes(k + 2)
    ensures codes(k) == 0 && codes(k + 2) == 0 ==> CheckedCode(codes, k, false) == codes(k + 3)
  {
  }

  /** B1 = B1 * c mod b, with the parameters computed once more. */
  method Multiply(e: Pke, b: array<word>, c: array<word>, n: nat) returns (ret: nat)
    requires e.Valid() && {b, c} !! e.Ram()
    requires 0 < n <= 8 && n <= b.Length && n <= c.Length
    modifies e`runs, e`width, e`montgomery, e.Ram()
    ensures e.runs == old(e.runs) + 2 && ret == e.codes(old(e.runs) + 1)
    ensures var m := Val(b[..n]);
            ret == PKE_SUCCESS && e.codes(old(e.runs)) == PKE_SUCCESS && m % 2 == 1
            && old(Val(e.b1[..n])) <= m && Val(c[..n]) <= m
            ==> Val(e.b1[..n]) == MulRem(old(Val(e.b1[..n])), Val(c[..n]), m)
  {
    var _ := e.CalcPreMont(b, n);
    ret := e.ModMul(b, e.b1, c, e.b1, n);
  }

  /** c = low + B1 mod b, for the low part of a. */
  method AddLow(e: Pke, a: array<word>, b: array<word>, c: array<word>, n: nat, bitLen: nat)
    returns (ret: nat)
    requires e.Valid() && {a, b, c} !! e.Ram()
    requires 0 < n <= 8 && n <= a.Length && n <= b.Length && n <= c.Length && bitLen < 32
    requires c !in {a, b}
    modifies e`runs, e`width, e`montgomery, e.Ram(), c
    ensures forall k :: n <= k < c.Length ==> c[k] == old(c[k])
    ensures ret == e.codes(old(e.runs))
    ensures var m := Val(b[..n]);
            var low := HighOperand(Low(Val(a[..n]), Cut(n, bitLen)), m, false);
            ret == PKE_SUCCESS && low < m && old(Val(e.b1[..n])) < m
            ==> Val(c[..n]) == Rem(low + old(Val(e.b1[..n])), m)
  {
    var low := FoldLow(a, b, e.a1, c, n, bitLen);
    ret := e.ModAdd(b, low, e.b1, c, n);
  }

  /** c = x * c + low mod b, once the radix x is in B1 and the high part in c. */
  method MultiplyAndAdd(e: Pke, a: array<word>, b: array<word>, c: array<word>, n: nat, bitLen: nat)
    returns (ret: nat)
    requires e.Valid() && {a, b, c} !! e.Ram()
    requires 0 < n <= 8 && n <= a.Length && n <= b.Length && n <= c.Length && bitLen < 32
    requires c !in {a, b}
    modifies e`runs, e`width, e`montgomery, e.Ram(), c
    ensures forall k :: n <= k < c.Length ==> c[k] == old(c[k])
    ensures ret == CodeAfter(e.codes, old(e.runs))
    ensures var i, m := old(e.runs), Val(b[..n]);
            var low := HighOperand(Low(Val(a[..n]), Cut(n, bitLen)), m, false);
            ret == PKE_SUCCESS && e.codes(i) == PKE_SUCCESS && m % 2 == 1
            && old(Val(e.b1[..n])) <= m && old(Val(c[..n])) <= m && low < m
            ==> Val(c[..n]) == FoldOf(old(Val(e.b1[..n])), old(Val(c[..n])), low, m)
  {
    ret := Multiply(e, b, c, n);
    if ret != PKE_SUCCESS {
      return;
    }
    ret := AddLow(e, a, b, c, n, bitLen);
  }

  /** What the last multiplication and addition make of their operands. */
  function FoldOf(radix: nat, ah: nat, al: nat, b: nat): nat
    requires b > 0
  {
    Rem(al + MulRem(radix, ah, b), b)
  }

  lemma FoldOfIsMod(radix: nat, ah: nat, al: nat, b: nat)
    requires b > 0
    ensures FoldOf(radix, ah, al, b) == (al + (radix * ah) % b) % b
  {
    MulRemIsMod(radix, ah, b);
    RemIsMod(al + MulRem(radix, ah, b), b);
  }

  /** The whole fold as one equation between numbers. */
  lemma FoldedNumber(hi: nat, low: nat, b: nat, p: nat, aligned: bool, radix: nat, ah: nat, al: nat)
    requires 0 < b <= p <= 2 * b && low < p
    requires radix == p - b
    requires ah == HighOperand(hi, b, aligned) && al == HighOperand(low, b, false)
    ensures al < b && FoldOf(radix, ah, al, b) == (p * hi + low) % b
  {
    ReduceOnce(low, b);
    FoldedResult(p, b, hi, low, aligned);
    FoldOfIsMod(radix, ah, al, b);
  }

  /** b's bit length is where a is cut. */
  lemma CutAtBitLen(b: seq<word>, n: nat)
    requires |b| == n > 0 && b[n - 1] != 0
    ensures Cut(n, BitLen(Val(b)) % 32) == BitLen(Val(b))
    ensures 0 < Val(b) < Pow2(BitLen(Val(b))) <= 2 * Val(b)
  {
    CutPosition(b);
    ValTopWord(b);
  }

  /** The low bits are the parts below and above the cut. */
  lemma PartsOfLow(a: nat, cut: nat, n: nat)
    ensures Low(a, cut + 32 * n) == Pow2(cut) * HighPart(a, cut, n) + Low(a, cut)
    ensures Low(a, cut) < Pow2(cut)
  {
    CutBits(a, cut);
    LowSplit(a, cut, 32 * n);
  }

  lemma FoldedParts(a: nat, b: nat, n: nat, aligned: bool, radix: nat, ah: nat, al: nat)
    requires 0 < b <= Pow2(BitLen(b)) <= 2 * b
    requires radix == Pow2(BitLen(b)) - b
    requires ah == HighOperand(HighPart(a, BitLen(b), n), b, aligned)
    requires al == HighOperand(Low(a, BitLen(b)), b, false)
    ensures radix <= b && al < b
    ensures ah <= b <==> Foldable(a, b, n)
    ensures FoldOf(radix, ah, al, b) == Rem(Low(a, Reach(b, n)), b)
  {
    var cut := BitLen(b);
    PartsOfLow(a, cut, n);
    FoldedNumber(HighPart(a, cut, n), Low(a, cut), b, Pow2(cut), aligned, radix, ah, al);
    HighOperandInRange(HighPart(a, cut, n), b, aligned);
    RemIsMod(Low(a, Reach(b, n)), b);
  }

  /** The operands of the multiplication and the addition, and what they add up to. */
  lemma FoldIsRemainder(s: seq<word>, t: seq<word>, n: nat, bitLen: nat, radix: nat, ah: nat, al: nat)
    requires |t| == n > 0 && t[n - 1] != 0 && n <= |s| <= 2 * n
    requires bitLen == BitLen(Val(t)) % 32
    requires radix == Pow2(Cut(n, bitLen)) - Val(t)
    requires ah == HighOperand(HighPart(Val(s), Cut(n, bitLen), n), Val(t), bitLen == 0)
    requires al == HighOperand(Low(Val(s[..n]), Cut(n, bitLen)), Val(t), false)
    ensures radix <= Val(t) && al < Val(t)
    ensures ah <= Val(t) <==> Foldable(Val(s), Val(t), n)
    ensures FoldOf(radix, ah, al, Val(t)) == Rem(Low(Val(s), Reach(Val(t), n)), Val(t))
  {
    CutAtBitLen(t, n);
    LowOfPrefix(s, n, Cut(n, bitLen));
    FoldedParts(Val(s), Val(t), n, bitLen == 0, radix, ah, al);
  }

  /** The high part in c, the Montgomery parameters loaded, and the radix in B1. */
  method PrepareOperands(e: Pke, a: array<word>, aWordLen: nat, b: array<word>, bh: array?<word>, bn1: array?<word>,
                         n: nat, bitLen: nat, c: array<word>)
    returns (ret: nat)
    requires e.Valid() && {a, b, c} !! e.Ram()
    requires 0 < n <= 8 && n <= aWordLen <= 2 * n && aWordLen <= a.Length && n <= b.Length && n <= c.Length
    requires bh != null ==> n <= bh.Length
    requires bn1 != null ==> 1 <= bn1.Length
    requires c !in {a, b} && b[n - 1] != 0
    requires bitLen == BitLen(Val(b[..n])) % 32
    modifies e`runs, e`width, e`montgomery, e.Ram(), c
    ensures forall k :: n <= k < c.Length ==> c[k] == old(c[k])
    ensures e.runs == IgnoredRun(old(e.runs), bh != null && bn1 != null)
    ensures ret == if bh != null && bn1 != null then PKE_SUCCESS else e.codes(old(e.runs))
    ensures ret == PKE_SUCCESS ==> Val(e.b1[..n]) == Pow2(Cut(n, bitLen)) - Val(b[..n])
    ensures Val(c[..n]) == HighOperand(HighPart(Val(a[..aWordLen]), Cut(n, bitLen), n), Val(b[..n]), bitLen == 0)
  {
    CutAtBitLen(b[..n], n);
    e.SetOperandWidth(n * 32);
    FoldHigh(a, aWordLen, b, e.a1, c, n, bitLen);
    ret := PKE_SUCCESS;
    if bh == null || bn1 == null {
      ret := e.CalcPreMont(b, n);
      if ret != PKE_SUCCESS {
        return;
      }
    } else {
      e.LoadPreCalcMont(bh, bn1, n);
    }
    LoadRadix(b, e.a1, e.b1, n, bitLen);
  }

  /** The path of the method on which a is greater than b. */
  method FoldAll(e: Pke, a: array<word>, aWordLen: nat, b: array<word>, bh: array?<word>, bn1: array?<word>,
                 n: nat, c: array<word>)
    returns (ret: nat)
    requires e.Valid() && {a, b, c} !! e.Ram()
    requires 0 < n <= 8 && n <= aWordLen <= 2 * n && aWordLen <= a.Length && n <= b.Length && n <= c.Length
    requires bh != null ==> n <= bh.Length
    requires bn1 != null ==> 1 <= bn1.Length
    requires c !in {a, b} && b[n - 1] != 0
    modifies e`runs, e`width, e`montgomery, e.Ram(), c
    ensures forall k :: n <= k < c.Length ==> c[k] == old(c[k])
    ensures ret == CheckedCode(e.codes, old(e.runs), bh != null && bn1 != null)
    ensures Val(b[..n]) > 0
    ensures ret == PKE_SUCCESS && e.codes(IgnoredRun(old(e.runs), bh != null && bn1 != null)) == PKE_SUCCESS
            && Val(b[..n]) % 2 == 1 && Foldable(Val(a[..aWordLen]), Val(b[..n]), n)
            ==> Val(c[..n]) == Rem(Low(Val(a[..aWordLen]), Reach(Val(b[..n]), n)), Val(b[..n]))
  {
    ghost var s, t := a[..aWordLen], b[..n];
    CutAtBitLen(t, n);
    assert b[0..0 + n] == t && s[..n] == a[..n];
    var bits := ValidBitsGet(b, 0, n);
    var bitLen := bits % 32;
    ret := PrepareOperands(e, a, aWordLen, b, bh, bn1, n, bitLen, c);
    if ret != PKE_SUCCESS {
      return;
    }
    ghost var radix, ah := Val(e.b1[..n]), Val(c[..n]);
    ghost var al := HighOperand(Low(Val(s[..n]), Cut(n, bitLen)), Val(t), false);
    FoldIsRemainder(s, t, n, bitLen, radix, ah, al);
    ret := MultiplyAndAdd(e, a, b, c, n, bitLen);
  }

  /** c = a, padded with zeros, for an a below an n-word number. */
  method CopySmaller(a: array<word>, aWordLen: nat, c: array<word>, n: nat, ghost t: seq<word>)
    requires aWordLen <= a.Length && n <= c.Length && c != a
    requires |t| == n && Val(a[..aWordLen]) < Val(t)
    modifies c
    ensures Val(c[..n]) == Val(a[..aWordLen])
    ensures forall k :: n <= k < c.Length ==> c[k] == old(c[k])
  {
    ghost var s := a[..aWordLen];
    assert a[0..0 + aWordLen] == s;
    var len := ValidWordsGet(a, 0, aWordLen);
    ValRealLength(s, len);
    LengthOfSmaller(s, t);
    assert a[0..0 + len] == s[..len];
    CopyPadded(a, 0, len, c, n);
  }

  /** What the engine needs; it is used only for an a above b. */
  predicate EngineReady(aWordLen: nat, b: array<word>, bh: array?<word>, bn1: array?<word>, n: nat)
    reads b
  {
    && 0 < n <= 8 && aWordLen <= 2 * n && n <= b.Length && b[n - 1] != 0
    && (bh != null ==> n <= bh.Length) && (bn1 != null ==> 1 <= bn1.Length)
  }

  /**
    For an a of at most b, c = a mod b without the engine. Otherwise b is odd
    with a non-zero top word, and when every run stopped normally, the one whose
    stop code is ignored included, c is the remainder of the bits of a below
    bitlen(b) + 32 bWordLen, provided the bits between these and bitlen(b) make
    up at most 2 b. That is a mod b exactly when b divides what lies above.
   */
  method Mod(e: Pke, a: array<word>, aWordLen: nat, b: array<word>, bh: array?<word>, bn1: array?<word>,
             bWordLen: nat, c: array<word>)
    returns (ret: nat)
    requires e.Valid() && {a, b, c} !! e.Ram()
    requires aWordLen <= a.Length && bWordLen <= b.Length && bWordLen <= c.Length
    requires c !in {a, b}
    requires Val(a[..aWordLen]) > Val(b[..bWordLen]) ==> EngineReady(aWordLen, b, bh, bn1, bWordLen)
    modifies e`runs, e`width, e`montgomery, e.Ram(), c
    ensures forall k :: bWordLen <= k < c.Length ==> c[k] == old(c[k])
    ensures Val(a[..aWordLen]) <= Val(b[..bWordLen]) ==>
              ret == PKE_SUCCESS && e.runs == old(e.runs)
              && (Val(b[..bWordLen]) > 0 ==> Val(c[..bWordLen]) == Val(a[..aWordLen]) % Val(b[..bWordLen]))
    ensures Val(a[..aWordLen]) > Val(b[..bWordLen]) ==>
              ret == CheckedCode(e.codes, old(e.runs), bh != null && bn1 != null)
    ensures Val(a[..aWordLen]) > Val(b[..bWordLen])
            && ret == PKE_SUCCESS && e.codes(IgnoredRun(old(e.runs), bh != null && bn1 != null)) == PKE_SUCCESS
            && Val(b[..bWordLen]) % 2 == 1 && Foldable(Val(a[..aWordLen]), Val(b[..bWordLen]), bWordLen)
            ==> RemainderWithin(Val(c[..bWordLen]), Val(a[..aWordLen]), Val(b[..bWordLen]), bWordLen)
  {
    ghost var s, t := a[..aWordLen], b[..bWordLen];
    assert a[0..0 + aWordLen] == s && b[0..0 + bWordLen] == t;
    var r := BigIntegerCompare(a, 0, aWordLen, b, 0, bWordLen);
    if r < 0 {
      CopySmaller(a, aWordLen, c, bWordLen, t);
      ModUnique(Val(s), Val(t), 0, Val(s));
      return PKE_SUCCESS;
    } else if r == 0 {
      Clear(c, 0, bWordLen);
      ValZeros(c[..bWordLen]);
      if Val(t) > 0 {
        ModUnique(Val(s), Val(t), 1, 0);
      }
      return PKE_SUCCESS;
    }
    CutAtBitLen(t, bWordLen);
    if aWordLen < bWordLen {
      ShorterIsLess(s, t);
    }
    ret := FoldAll(e, a, aWordLen, b, bh, bn1, bWordLen, c);
    if Val(t) % 2 == 1 {
      RemainderOfKept(Val(s), Val(t), bWordLen);
    }
  }

  lemma LengthOfSmaller(s: seq<word>, t: seq<word>)
    requires Val(s) < Val(t)
    ensures WordLen(s) <= |t|
  {
    if WordLen(s) > |t| {
      LongerIsGreater(s, t);
    }
  }

  /** The driver on that input: 0 where 2^34 mod 3 is 1, although every run stops normally. */
  method TruncatedRun(e: Pke) returns (ret: nat, c: array<word>)
    requires e.Valid()
    modifies e`runs, e`width, e`montgomery, e.Ram()
    ensures fresh(c) && c.Length == 1
    ensures ret == PKE_SUCCESS && e.codes(IgnoredRun(old(e.runs), false)) == PKE_SUCCESS ==> c[0] == 0
  {
    var a, b := new word[] [0, 4], new word[] [3];
    c := new word[1];
    assert a[..2] == [0, 4] && b[..1] == [3];
    TruncationInstance();
    ret := Mod(e, a, 2, b, null, null, 1, c);
    assert c[..1] == [c[0]];
    ValOne(c[0]);
  }
}
