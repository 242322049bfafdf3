/** `div2n_u32` of pke.c: dividing a multi-word number by a power of two in place. */
module RightShift {
  import opened Bits
  import opened Words
  import opened BigInteger

  lemma Pow2Complement(m: nat)
    requires m <= 32
    ensures Pow2(m) * Pow2(32 - m) == U32
  {
    Pow2Add(m, 32 - m);
    Pow2At32();
  }

  lemma ProductKeepsLow(y: nat, d: nat, p: nat, u: nat, q: nat, l: nat)
    requires y == d * q + l && l < d && u == d * p && p > 0
    ensures u > 0 && (y * p) % u == p * l
  {
    MulMonotone(p, l + 1, d);
    MulMonotone(p, 0, l);
    assert y * p == u * q + p * l;
    ModUnique(y * p, u, q, p * l);
  }

  /** What is left of y after a left shift by 32 - m are its m low bits, at the top. */
  lemma ShlKeepsLow(y: word, m: nat)
    requires m <= 32
    ensures Shl(y, 32 - m) == Pow2(32 - m) * Low(y, m)
  {
    ShlIsProduct(y, 32 - m);
    CutBits(y, m);
    Pow2Complement(m);
    ProductKeepsLow(y, Pow2(m), Pow2(32 - m), U32, Shr(y, m), Low(y, m));
  }

  lemma ShrFits(x: word, m: nat)
    requires m <= 32
    ensures Shr(x, m) < Pow2(32 - m)
  {
    CutBits(x, m);
    Pow2Complement(m);
    if Shr(x, m) >= Pow2(32 - m) {
      MulMonotone(Pow2(m), Pow2(32 - m), Shr(x, m));
    }
  }

  lemma StackedBound(x: nat, p: nat, l: nat, d: nat)
    requires x < p && l < d
    ensures 0 <= x + p * l < d * p
  {
    MulMonotone(p, l + 1, d);
    MulMonotone(p, 0, l);
  }

  /** The low bits of y stand above what is left of x. */
  lemma FunnelVal(x: word, y: word, m: nat)
    requires m <= 32
    ensures Or(Shr(x, m), Shl(y, 32 - m)) == Shr(x, m) + Pow2(32 - m) * Low(y, m) < U32
  {
    ShrFits(x, m);
    ShlKeepsLow(y, m);
    CutBits(y, m);
    Pow2Complement(m);
    StackedBound(Shr(x, m), Pow2(32 - m), Low(y, m), Pow2(m));
    CutUnique(Shl(y, 32 - m), 32 - m, Low(y, m), 0);
    OrDisjoint(Shr(x, m), Shl(y, 32 - m), 32 - m);
  }

  /** `x >> m | y << (32 - m)`: x shifted right by m, the low bits of the next word y moved in. */
  function Funnel(x: word, y: word, m: nat): word
    requires m <= 32
  {
    FunnelVal(x, y, m);
    Or(Shr(x, m), Shl(y, 32 - m))
  }

  /** The whole number shifted right by m bits, word by word. */
  function ShiftWords(s: seq<word>, m: nat): (r: seq<word>)
    requires m <= 32
    ensures |r| == |s|
  {
    if s == [] then []
    else if |s| == 1 then [Shr(s[0], m)]
    else [Funnel(s[0], s[1], m)] + ShiftWords(s[1..], m)
  }

  lemma {:induction false} ShiftWordsAt(s: seq<word>, m: nat, k: nat)
    requires m <= 32 && k < |s|
    ensures ShiftWords(s, m)[k] == if k + 1 < |s| then Funnel(s[k], s[k + 1], m) else Shr(s[k], m)
    decreases k
  {
    if k > 0 {
      assert s[1..][k - 1] == s[k];
      if k + 1 < |s| {
        assert s[1..][k] == s[k + 1];
      }
      ShiftWordsAt(s[1..], m, k - 1);
    }
  }

  lemma LowOfTwo(x: word, v: nat, m: nat)
    requires m <= 32
    ensures Low(x + U32 * v, m) == Low(x, m)
  {
    var d, p := Pow2(m), Pow2(32 - m);
    CutBits(x, m);
    Pow2Complement(m);
    FactorOut(d, p, v, Shr(x, m));
    CutUnique(x + U32 * v, m, Shr(x, m) + p * v, Low(x, m));
  }

  lemma FactorOut(d: nat, p: nat, v: nat, h: nat)
    ensures d * h + (d * p) * v == d * (h + p * v)
  {
    MulAssociate(d, p, v);
  }

  lemma LowOfFirstWord(s: seq<word>, m: nat)
    requires s != [] && m <= 32
    ensures Low(Val(s), m) == Low(s[0], m)
  {
    LowOfTwo(s[0], Val(s[1..]), m);
  }

  /** A two-part number cut at d: the parts above the cut, and the low part below it. */
  lemma RegroupCut(d: nat, p: nat, u: nat, h0: nat, l0: nat, h1: nat, l1: nat) returns (high: nat)
    requires u == d * p
    ensures high == h0 + p * l1 + u * h1
    ensures (d * h0 + l0) + u * (d * h1 + l1) == d * high + l0
  {
    MulMonotone(p, 0, l1);
    high := h0 + p * l1 + u * h1;
    Distribute(d, h0, p * l1, u * h1);
    MulAssociate(d, p, l1);
    Distribute(u, d * h1, l1, 0);
    Rotate(u, d, h1);
  }

  lemma Distribute(d: int, x: int, y: int, z: int)
    ensures d * (x + y + z) == d * x + d * y + d * z
  {
  }

  lemma Rotate(u: int, d: int, h: int)
    ensures u * (d * h) == d * (u * h)
  {
  }

  /** Shifting a number whose lowest word is x. */
  lemma ShrOfTwo(x: word, v: nat, m: nat)
    requires m <= 32
    ensures Shr(x + U32 * v, m) == Shr(x, m) + Pow2(32 - m) * Low(v, m) + U32 * Shr(v, m)
  {
    CutBits(x, m);
    CutBits(v, m);
    Pow2Complement(m);
    var high := RegroupCut(Pow2(m), Pow2(32 - m), U32, Shr(x, m), Low(x, m), Shr(v, m), Low(v, m));
    CutUnique(x + U32 * v, m, high, Low(x, m));
  }

  lemma ShiftWordsHead(s: seq<word>, m: nat)
    requires |s| > 1 && m <= 32
    ensures Val(ShiftWords(s, m)) == Funnel(s[0], s[1], m) + U32 * Val(ShiftWords(s[1..], m))
  {
    assert ShiftWords(s, m)[1..] == ShiftWords(s[1..], m);
  }

  /** Shifting word by word is shifting the number. */
  lemma {:induction false} ShiftWordsVal(s: seq<word>, m: nat)
    requires m <= 32
    ensures Val(ShiftWords(s, m)) == Shr(Val(s), m)
  {
    if s == [] {
      CutUnique(0, m, 0, 0);
    } else if |s| == 1 {
      ValOne(s[0]);
      ValOne(Shr(s[0], m));
      assert s == [s[0]];
    } else {
      var x, v := s[0], Val(s[1..]);
      calc {
        Val(ShiftWords(s, m));
        { ShiftWordsHead(s, m); ShiftWordsVal(s[1..], m); }
        Funnel(x, s[1], m) + U32 * Shr(v, m);
        { FunnelVal(x, s[1], m); LowOfFirstWord(s[1..], m); }
        Shr(x, m) + Pow2(32 - m) * Low(v, m) + U32 * Shr(v, m);
        { ShrOfTwo(x, v, m); }
        Shr(x + U32 * v, m);
      }
    }
  }

  /** Two successive right shifts are one. */
  lemma {:induction false} ShrShr(x: nat, m: nat, n: nat)
    ensures Shr(Shr(x, m), n) == Shr(x, m + n)
    decreases m
  {
    if m > 0 {
      ShrShr(x / 2, m - 1, n);
      assert Shr(x, m + n) == Shr(x / 2, m - 1 + n);
    }
  }

  /** Dropping j words shifts by 32 j bits. */
  lemma DropVal(s: seq<word>, j: nat)
    requires j <= |s|
    ensures Val(s[j..]) == Shr(Val(s), 32 * j)
  {
    ValSplit(s, j);
    ValBound(s[..j]);
    WeightIsPow2(j);
    CutUnique(Val(s), 32 * j, Val(s[j..]), Val(s[..j]));
  }

  /** Dropping whole words and shifting the rest shifts the number. */
  lemma DropAndShiftVal(s: seq<word>, j: nat, m: nat)
    requires j <= |s| && m <= 32
    ensures Val(ShiftWords(s[j..], m)) == Shr(Val(s), 32 * j + m)
  {
    DropVal(s, j);
    ShiftWordsVal(s[j..], m);
    ShrShr(Val(s), 32 * j, m);
  }

  /** Shifting by fewer bits than a non-zero word has moves its bits to this word or the next. */
  lemma FunnelKeepsBits(w: word, x: word, m: nat)
    requires m < 32 && x != 0
    ensures Shr(x, m) == 0 ==> Funnel(w, x, m) != 0
  {
    CutBits(x, m);
    FunnelVal(w, x, m);
    if Shr(x, m) == 0 {
      MulMonotone(Pow2(32 - m), 1, Low(x, m));
    }
  }

  /** t is s shifted right by n, and only zeros stand from word r on. */
  ghost predicate ShiftedRight(s: seq<word>, n: nat, t: seq<word>, r: nat) {
    && |t| == |s|
    && Val(t) == Shr(Val(s), n)
    && r <= |t|
    && (forall k :: r <= k < |t| ==> t[k] == 0)
    && (s != [] && s[|s| - 1] != 0 ==> r == WordLen(t))
  }

  /** What the loops leave: the shifted words, and zeros in the vacated ones. */
  ghost predicate ShiftedAndCleared(s: seq<word>, j: nat, m: nat, t: seq<word>) {
    && j < |s| == |t| && m < 32
    && t[..|s| - j] == ShiftWords(s[j..], m)
    && forall k :: |s| - j <= k < |t| ==> t[k] == 0
  }

  lemma ClearedVal(s: seq<word>, j: nat, m: nat, t: seq<word>)
    requires ShiftedAndCleared(s, j, m, t)
    ensures Val(t) == Shr(Val(s), 32 * j + m)
  {
    DropAndShiftVal(s, j, m);
    ValRealLength(t, |s| - j);
  }

  /** Only the top shifted word can be zero when s had its real length. */
  lemma ClearedLength(s: seq<word>, j: nat, m: nat, t: seq<word>)
    requires ShiftedAndCleared(s, j, m, t)
    requires s[|s| - 1] != 0
    ensures var i := |s| - j - 1; WordLen(t) == if t[i] == 0 then i else i + 1
  {
    var i, x := |s| - j - 1, s[|s| - 1];
    ShiftedWord(s, j, m, i);
    assert t[i] == t[..i + 1][i] == Shr(x, m);
    if i > 0 {
      ShiftedWord(s, j, m, i - 1);
      assert t[i - 1] == t[..i + 1][i - 1] == Funnel(s[i - 1 + j], x, m);
      FunnelKeepsBits(s[i - 1 + j], x, m);
    }
    WordLenUnique(t, if t[i] == 0 then i else i + 1);
  }

  lemma NothingShifted(n: nat)
    ensures ShiftedRight([], n, [], 0)
  {
    assert Shr(0, n) == 0;
  }

  lemma ShiftedWordsLength(s: seq<word>, j: nat, m: nat, t: seq<word>, n: nat, r: nat)
    requires ShiftedAndCleared(s, j, m, t) && n == 32 * j + m
    requires var i := |s| - j - 1; r == if t[i] == 0 then i else i + 1
    ensures ShiftedRight(s, n, t, r)
  {
    ClearedVal(s, j, m, t);
    if s[|s| - 1] != 0 {
      ClearedLength(s, j, m, t);
    }
  }

  /**
    a = a / 2^n in place. The shift by 32 - n % 32 must be below 32 where it is
    reached, which C demands of its callers. The word length returned is the
    real one if the word length passed in was.
   */
  method Div2nU32(a: array<word>, aWordLen: nat, n: nat) returns (r: nat)
    requires aWordLen <= a.Length
    requires aWordLen == 0 || n / 32 < aWordLen
    requires n % 32 == 0 ==> aWordLen <= n / 32 + 1
    modifies a
    ensures ShiftedRight(old(a[..aWordLen]), n, a[..aWordLen], r)
    ensures forall k :: aWordLen <= k < a.Length ==> a[k] == old(a[k])
  {
    if aWordLen == 0 {
      NothingShifted(n);
      assert a[..aWordLen] == [];
      return 0;
    }
    ghost var s := a[..aWordLen];
    if n < 32 {
      var i := ShiftDown(a, aWordLen, 0, n);
      if a[i] == 0 {
        r := i;
      } else {
        r := aWordLen;
      }
      ShiftedWordsLength(s, 0, n, a[..aWordLen], n, r);
    } else {
      DivModSplit(n, 32);
      r := Div2nGeneral(a, aWordLen, n / 32, n % 32, n);
    }
  }

  /** The branch that also moves whole words, for n = 32 j + m. */
  method Div2nGeneral(a: array<word>, aWordLen: nat, j: nat, m: nat, ghost n: nat) returns (r: nat)
    requires aWordLen <= a.Length
    requires j < aWordLen && m < 32 && n == 32 * j + m
    requires m == 0 ==> aWordLen <= j + 1
    modifies a
    ensures ShiftedRight(old(a[..aWordLen]), n, a[..aWordLen], r)
    ensures forall k :: aWordLen <= k < a.Length ==> a[k] == old(a[k])
  {
    ghost var s := a[..aWordLen];
    var i := ShiftDown(a, aWordLen, j, m);
    ghost var u := a[..aWordLen - j];
    Clear(a, aWordLen - j, j);
    assert a[..aWordLen][..aWordLen - j] == u;
    if a[i] == 0 {
      r := i;
    } else {
      r := aWordLen - j;
    }
    ShiftedWordsLength(s, j, m, a[..aWordLen], n, r);
  }

  /** Word k of what is left after dropping j words. */
  lemma ShiftedWord(s: seq<word>, j: nat, m: nat, k: nat)
    requires j + k < |s| && m <= 32
    ensures ShiftWords(s[j..], m)[k] == if j + k + 1 < |s| then Funnel(s[k + j], s[k + j + 1], m) else Shr(s[k + j], m)
  {
    ShiftWordsAt(s[j..], m, k);
  }

  /** The loop of both branches, for n = 32 j + m; the first one has j = 0. */
  method ShiftDown(a: array<word>, aWordLen: nat, j: nat, m: nat) returns (i: nat)
    requires aWordLen <= a.Length
    requires j < aWordLen && m < 32
    requires m == 0 ==> aWordLen <= j + 1
    modifies a
    ensures i == aWordLen - j - 1
    ensures a[..aWordLen - j] == ShiftWords(old(a[..aWordLen])[j..], m)
    ensures forall k :: aWordLen <= k < a.Length ==> a[k] == old(a[k])
  {
    ghost var s := a[..aWordLen];
    ghost var u := ShiftWords(s[j..], m);
    i := 0;
    while i < aWordLen - j - 1
      invariant 0 <= i <= aWordLen - j - 1
      invariant forall k :: aWordLen <= k < a.Length ==> a[k] == old(a[k])
      invariant forall k :: i + j <= k < aWordLen ==> a[k] == s[k]
      invariant forall k :: 0 <= k < i ==> a[k] == u[k]
    {
      ShiftedWord(s, j, m, i);
      a[i] := Funnel(a[i + j], a[i + j + 1], m);
      i := i + 1;
    }
    ShiftedWord(s, j, m, i);
    a[i] := Shr(a[i + j], m);
    assert forall k :: 0 <= k < |u| ==> a[k] == u[k];
  }
}
