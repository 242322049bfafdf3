/**
  The multi-word integer routines of pke.c. A C pointer into a buffer is an
  array together with the offset of its first word.
 */
module BigInteger {
  import opened Bits
  import opened Words

  // ------------------------------------------------------- memset and memcpy

  method Clear(a: array<word>, ao: nat, n: nat)
    requires ao + n <= a.Length
    modifies a
    ensures forall k :: 0 <= k < a.Length ==> a[k] == if ao <= k < ao + n then 0 else old(a[k])
  {
    forall k | ao <= k < ao + n {
      a[k] := 0;
    }
  }

  method Copy(dst: array<word>, src: array<word>, so: nat, n: nat)
    requires dst != src
    requires n <= dst.Length && so + n <= src.Length
    modifies dst
    ensures forall k :: 0 <= k < dst.Length ==> dst[k] == if k < n then src[so + k] else old(dst[k])
  {
    forall k | 0 <= k < n {
      dst[k] := src[so + k];
    }
  }

  // ---------------------------------------------------------------- lengths

  lemma {:induction false} WordLenUnique(s: seq<word>, r: nat)
    requires r <= |s|
    requires r > 0 ==> s[r - 1] != 0
    requires forall i :: r <= i < |s| ==> s[i] == 0
    ensures WordLen(s) == r
  {
  }

  method ValidWordsGet(a: array<word>, ao: nat, maxWords: nat) returns (r: nat)
    requires ao + maxWords <= a.Length
    ensures r == WordLen(a[ao..ao + maxWords])
  {
    var i := maxWords;
    ghost var s := a[ao..ao + maxWords];
    while i > 0
      invariant 0 <= i <= maxWords
      invariant forall k :: i <= k < maxWords ==> s[k] == 0
    {
      if a[ao + i - 1] != 0 {
        assert s[i - 1] != 0;
        WordLenUnique(s, i);
        return i;
      }
      assert s[i - 1] == 0;
      i := i - 1;
    }
    WordLenUnique(s, 0);
    return 0;
  }

  /** Testing the bit above which a value is known to be zero. */
  lemma {:induction false} AndTopBit(x: nat, k: nat)
    requires x < Pow2(k + 1)
    ensures And(x, Pow2(k)) != 0 <==> x >= Pow2(k)
  {
    if k == 0 {
      assert Pow2(1) == 2 && Pow2(0) == 1;
      assert x == 1 ==> And(1, 1) == 1;
    } else if x != 0 {
      AndTopBit(x / 2, k - 1);
      assert Pow2(k) == 2 * Pow2(k - 1);
    }
  }

  lemma WeightTimesPow2(i: nat, j: nat)
    ensures Weight(i) * Pow2(j) == Pow2(32 * i + j)
  {
    WeightIsPow2(i);
    Pow2Add(32 * i, j);
  }

  lemma ScaledBounds(w: nat, low: nat, x: nat, p: nat, q: nat)
    requires low < w && p <= x < q
    ensures w * p <= low + w * x < w * q
  {
    MulMonotone(w, p, x);
    MulMonotone(w, x + 1, q);
  }

  /** Where the top word x at position i sits, the whole number's bit length follows. */
  lemma BitLenOfTop(low: nat, i: nat, x: nat, j: nat)
    requires low < Weight(i)
    requires j > 0 && Pow2(j - 1) <= x < Pow2(j)
    ensures BitLen(low + Weight(i) * x) == 32 * i + j
  {
    ScaledBounds(Weight(i), low, x, Pow2(j - 1), Pow2(j));
    WeightTimesPow2(i, j - 1);
    WeightTimesPow2(i, j);
    BitLenUnique(low + Weight(i) * x, 32 * i + j);
  }

  lemma BitLenAt(s: seq<word>, i: nat, j: nat)
    requires i < |s| && forall k :: i < k < |s| ==> s[k] == 0
    requires j > 0 && Pow2(j - 1) <= s[i] < Pow2(j)
    ensures BitLen(Val(s)) == 32 * i + j
  {
    ValRealLength(s, i + 1);
    ValPrefixStep(s, i);
    ValBound(s[..i]);
    BitLenOfTop(Val(s[..i]), i, s[i], j);
  }

  /** The search for the most significant bit of a non-zero word. */
  method TopBit(top: word) returns (j: nat)
    requires top != 0
    ensures 0 < j <= 32 && Pow2(j - 1) <= top < Pow2(j)
  {
    j := 32;
    Pow2At32();
    assert Pow2(0) == 1;
    while j > 0
      invariant 0 <= j <= 32
      invariant top < Pow2(j)
    {
      AndTopBit(top, j - 1);
      if And(top, Pow2(j - 1)) != 0 {
        break;
      }
      j := j - 1;
    }
  }

  method ValidBitsGet(a: array<word>, ao: nat, wordLen: nat) returns (r: nat)
    requires ao + wordLen <= a.Length
    ensures r == BitLen(Val(a[ao..ao + wordLen]))
  {
    if wordLen == 0 {
      return 0;
    }
    ghost var s := a[ao..ao + wordLen];
    var i := wordLen;
    while i > 0
      invariant 0 <= i <= wordLen
      invariant forall k :: i <= k < wordLen ==> s[k] == 0
    {
      if a[ao + i - 1] != 0 {
        break;
      }
      assert s[i - 1] == 0;
      i := i - 1;
    }
    if i == 0 {
      ValZeros(s);
      return 0;
    }
    assert a[ao + i - 1] == s[i - 1];
    var j := TopBit(a[ao + i - 1]);
    BitLenAt(s, i - 1, j);
    return (i - 1) * 32 + j;
  }

  // ------------------------------------------------------------- comparison

  lemma {:induction false} WeightMonotone(m: nat, n: nat)
    requires m <= n
    ensures Weight(m) <= Weight(n)
  {
    if m < n {
      WeightMonotone(m, n - 1);
    }
  }

  /** Prefix, word i, and the rest above it. */
  lemma ValAt(s: seq<word>, i: nat)
    requires i < |s|
    ensures Val(s) == Val(s[..i]) + Weight(i) * s[i] + Weight(i + 1) * Val(s[i + 1..])
  {
    ValSplit(s, i + 1);
    ValPrefixStep(s, i);
  }

  lemma HigherDigitWins(w: nat, x: nat, y: nat, low: nat)
    requires x > y && low < w
    ensures w * x > low + w * y
  {
    MulMonotone(w, y + 1, x);
  }

  /** The most significant differing word decides. */
  lemma CompareAt(s: seq<word>, t: seq<word>, i: nat)
    requires |s| == |t| && i < |s|
    requires s[i] > t[i]
    requires forall k :: i < k < |s| ==> s[k] == t[k]
    ensures Val(s) > Val(t)
  {
    assert s[i + 1..] == t[i + 1..];
    ValAt(s, i);
    ValAt(t, i);
    ValBound(t[..i]);
    HigherDigitWins(Weight(i), s[i], t[i], Val(t[..i]));
  }

  lemma LongerIsGreater(s: seq<word>, t: seq<word>)
    requires WordLen(s) > WordLen(t)
    ensures Val(s) > Val(t)
  {
    var m, n := WordLen(s), WordLen(t);
    ValRealLength(s, m);
    ValRealLength(t, n);
    ValTopWord(s[..m]);
    ValBound(t[..n]);
    WeightMonotone(n, m - 1);
  }

  /** r is the sign of x - y. */
  ghost predicate Compared(r: int, x: int, y: int) {
    (r == 1 <==> x > y) && (r == -1 <==> x < y) && (r == 0 <==> x == y)
  }

  /** The loop of big_integer_compare, from the most significant word down. */
  method CompareWords(a: array<word>, ao: nat, b: array<word>, bo: nat, m: nat) returns (r: int)
    requires ao + m <= a.Length && bo + m <= b.Length
    ensures Compared(r, Val(a[ao..ao + m]), Val(b[bo..bo + m]))
  {
    ghost var s, t := a[ao..ao + m], b[bo..bo + m];
    var i := m - 1;
    while i >= 0
      invariant -1 <= i < m
      invariant forall k :: i < k < m ==> s[k] == t[k]
    {
      assert a[ao + i] == s[i] && b[bo + i] == t[i];
      if a[ao + i] > b[bo + i] {
        CompareAt(s, t, i);
        return 1;
      }
      if a[ao + i] < b[bo + i] {
        CompareAt(t, s, i);
        return -1;
      }
      i := i - 1;
    }
    assert s == t;
    return 0;
  }

  method BigIntegerCompare(a: array<word>, ao: nat, aWordLen: nat, b: array<word>, bo: nat, bWordLen: nat)
    returns (r: int)
    requires ao + aWordLen <= a.Length && bo + bWordLen <= b.Length
    ensures Compared(r, Val(a[ao..ao + aWordLen]), Val(b[bo..bo + bWordLen]))
  {
    ghost var s, t := a[ao..ao + aWordLen], b[bo..bo + bWordLen];
    var m := ValidWordsGet(a, ao, aWordLen);
    var n := ValidWordsGet(b, bo, bWordLen);
    if m > n {
      LongerIsGreater(s, t);
      return 1;
    }
    if m < n {
      LongerIsGreater(t, s);
      return -1;
    }
    ValRealLength(s, m);
    ValRealLength(t, m);
    assert s[..m] == a[ao..ao + m] && t[..m] == b[bo..bo + m];
    r := CompareWords(a, ao, b, bo, m);
  }

  // ------------------------------------------------------------ subtraction

  /** z holds the difference of the first |z| words, borrowing `carry` from above. */
  ghost predicate Difference(s: seq<word>, t: seq<word>, z: seq<word>, carry: int) {
    |s| == |t| && |z| <= |s| && Val(z) - carry * Weight(|z|) == Val(s[..|z|]) - Val(t[..|z|])
  }

  /** The comparison of temp and z with the words they came from finds every borrow. */
  lemma BorrowWord(x: word, y: word, carry: int)
    requires 0 <= carry <= 1
    ensures var temp := (x - y) % U32; var z := (temp - carry) % U32;
            z - U32 * (if temp > x || z > temp then 1 else 0) == x - y - carry
  {
    var temp := (x - y) % U32;
    ModUnique(x - y, U32, if x < y then -1 else 0, if x < y then x - y + U32 else x - y);
    var borrow := if temp < carry then 1 else 0;
    ModUnique(temp - carry, U32, 0 - borrow, temp - carry + U32 * borrow);
  }

  lemma DifferenceArithmetic(w: int, vs: int, vt: int, vz: int, x: int, y: int, carry: int, zi: int, carry': int)
    requires vz - carry * w == vs - vt
    requires zi - U32 * carry' == x - y - carry
    ensures (vz + w * zi) - carry' * (U32 * w) == (vs + w * x) - (vt + w * y)
  {
    assert w * (zi - U32 * carry') == w * zi - carry' * (U32 * w);
    assert w * (x - y - carry) == w * x - w * y - carry * w;
  }

  lemma DifferenceStep(s: seq<word>, t: seq<word>, z: seq<word>, carry: int, zi: word, carry': int)
    requires Difference(s, t, z, carry) && |z| < |s|
    requires zi - U32 * carry' == s[|z|] - t[|z|] - carry
    ensures Difference(s, t, z + [zi], carry')
  {
    var i := |z|;
    assert |z + [zi]| == i + 1;
    ValPrefixStep(s, i);
    ValPrefixStep(t, i);
    ValSnoc(z, zi);
    DifferenceArithmetic(Weight(i), Val(s[..i]), Val(t[..i]), Val(z), s[i], t[i], carry, zi, carry');
  }

  lemma DifferenceIsModular(s: seq<word>, t: seq<word>, z: seq<word>, carry: int)
    requires Difference(s, t, z, carry) && |z| == |s| && 0 <= carry <= 1
    ensures Val(z) == SubWrap(Val(s), Val(t), |s|)
  {
    assert s[..|z|] == s && t[..|z|] == t;
    ValBound(s);
    ValBound(t);
    ValBound(z);
    BorrowOut(Val(s), Val(t), Val(z), carry, |s|);
  }

  lemma BorrowOut(x: nat, y: nat, z: nat, carry: int, n: nat)
    requires x < Weight(n) && y < Weight(n) && z < Weight(n)
    requires 0 <= carry <= 1 && z - carry * Weight(n) == x - y
    ensures z == SubWrap(x, y, n)
  {
  }

  /** What is known of the words written so far, with and without an overwritten minuend. */
  ghost predicate Subtracted(s: seq<word>, t: seq<word>, z: seq<word>, carry: int, inPlace: bool) {
    |s| == |t| && |z| <= |s| && 0 <= carry <= 1 &&
    if inPlace then carry == 0 && WordwiseSub(s[..|z|], t[..|z|], z) else Difference(s, t, z, carry)
  }

  /** What one pass of the loop makes of two words and a borrow. */
  predicate OneWord(x: word, y: word, carry: int, inPlace: bool, zi: word, carry': int) {
    var temp := (x - y) % U32;
    && zi == (temp - carry) % U32
    && carry' == if temp > (if inPlace then zi else x) || zi > temp then 1 else 0
  }

  lemma SubtractedStep(s: seq<word>, t: seq<word>, z: seq<word>, carry: int, inPlace: bool,
                       zi: word, carry': int)
    requires Subtracted(s, t, z, carry, inPlace) && |z| < |s|
    requires OneWord(s[|z|], t[|z|], carry, inPlace, zi, carry')
    ensures Subtracted(s, t, z + [zi], carry', inPlace)
  {
    BorrowWord(s[|z|], t[|z|], carry);
    if !inPlace {
      DifferenceStep(s, t, z, carry, zi, carry');
    }
  }

  /** z comes about word by word, with cs the borrows passed on. */
  ghost predicate Passes(s: seq<word>, t: seq<word>, z: seq<word>, cs: seq<word>, inPlace: bool) {
    |s| == |t| && |z| <= |s| && |cs| == |z| + 1 && cs[0] == 0 &&
    forall k :: 0 <= k < |z| ==> OneWord(s[k], t[k], cs[k], inPlace, z[k], cs[k + 1])
  }

  lemma PassesStep(s: seq<word>, t: seq<word>, z: seq<word>, cs: seq<word>, inPlace: bool, zi: word, carry: word)
    requires Passes(s, t, z, cs, inPlace) && |z| < |s|
    requires OneWord(s[|z|], t[|z|], cs[|z|], inPlace, zi, carry)
    ensures Passes(s, t, z + [zi], cs + [carry], inPlace)
  {
  }

  lemma {:induction false} PassesSubtract(s: seq<word>, t: seq<word>, z: seq<word>, cs: seq<word>, inPlace: bool)
    requires Passes(s, t, z, cs, inPlace)
    ensures Subtracted(s, t, z, cs[|z|], inPlace)
    decreases |z|
  {
    if z != [] {
      var i := |z| - 1;
      PassesSubtract(s, t, z[..i], cs[..i + 1], inPlace);
      assert OneWord(s[i], t[i], cs[i], inPlace, z[i], cs[i + 1]);
      SubtractedStep(s, t, z[..i], cs[i], inPlace, z[i], cs[i + 1]);
      assert z[..i] + [z[i]] == z;
    }
  }

  lemma SubtractedAll(s: seq<word>, t: seq<word>, z: seq<word>, cs: seq<word>, inPlace: bool)
    requires Passes(s, t, z, cs, inPlace) && |z| == |s|
    ensures if inPlace then WordwiseSub(s, t, z) else Val(z) == SubWrap(Val(s), Val(t), |s|)
  {
    PassesSubtract(s, t, z, cs, inPlace);
    assert s[..|z|] == s && t[..|z|] == t;
    if !inPlace {
      DifferenceIsModular(s, t, z, cs[|z|]);
    }
  }

  /** The destination begins inside an operand, past its first word, and runs over words not read yet. */
  predicate Overtakes(c: array<word>, co: nat, x: array<word>, xo: nat, n: nat) {
    c == x && xo < co < xo + n
  }

  /** One pass of the loop of sub_u32. The test for a borrow reads the minuend after the write. */
  method SubWord(a: array<word>, i: nat, y: word, c: array<word>, j: nat, carry: word) returns (carry': word)
    requires i < a.Length && j < c.Length && carry <= 1
    modifies c
    ensures carry' <= 1
    ensures forall k :: 0 <= k < c.Length && k != j ==> c[k] == old(c[k])
    ensures OneWord(old(a[i]), y, carry, c == a && i == j, c[j], carry')
  {
    var temp := (a[i] - y) % U32;
    c[j] := (temp - carry) % U32;
    carry' := if temp > a[i] || c[j] > temp then 1 else 0;
  }

  /**
    c = a - b. The destination may be the subtrahend, or start below an operand
    it overlaps. When it is the minuend, no borrow is ever passed on;
    `InPlaceSubCorrect` says when that is harmless. Where it overtakes an operand,
    words are read that were already written.
   */
  method SubU32(a: array<word>, ao: nat, b: array<word>, bo: nat, c: array<word>, co: nat, wordLen: nat)
    requires ao + wordLen <= a.Length && bo + wordLen <= b.Length && co + wordLen <= c.Length
    modifies c
    ensures forall k :: 0 <= k < c.Length && !(co <= k < co + wordLen) ==> c[k] == old(c[k])
    ensures !Overtakes(c, co, a, ao, wordLen) && !Overtakes(c, co, b, bo, wordLen) ==>
              if c == a && co == ao
              then WordwiseSub(old(a[ao..ao + wordLen]), old(b[bo..bo + wordLen]), c[co..co + wordLen])
              else Val(c[co..co + wordLen])
                   == SubWrap(old(Val(a[ao..ao + wordLen])), old(Val(b[bo..bo + wordLen])), wordLen)
  {
    ghost var s, t := a[ao..ao + wordLen], b[bo..bo + wordLen];
    ghost var behind := !Overtakes(c, co, a, ao, wordLen) && !Overtakes(c, co, b, bo, wordLen);
    ghost var inPlace := c == a && co == ao;
    var carry: word := 0;
    ghost var cs: seq<word>, z: seq<word> := [carry], [];
    var i := 0;
    while i < wordLen
      invariant 0 <= i <= wordLen && |cs| == i + 1 && cs[i] == carry <= 1
      invariant forall k :: 0 <= k < c.Length && !(co <= k < co + i) ==> c[k] == old(c[k])
      invariant |z| == i && forall k :: 0 <= k < i ==> c[co + k] == z[k]
      invariant behind ==> Passes(s, t, z, cs, inPlace)
    {
      assert behind ==> a[ao + i] == s[i] && b[bo + i] == t[i];
      carry := SubWord(a, ao + i, b[bo + i], c, co + i, carry);
      if behind {
        PassesStep(s, t, z, cs, inPlace, c[co + i], carry);
      }
      cs, z := cs + [carry], z + [c[co + i]];
      i := i + 1;
    }
    assert c[co..co + wordLen] == z;
    if behind {
      SubtractedAll(s, t, z, cs, inPlace);
    }
  }

  ghost predicate WordwiseSub(s: seq<word>, t: seq<word>, z: seq<word>) {
    |s| == |t| == |z| && forall k :: 0 <= k < |s| ==> z[k] == (s[k] - t[k]) % U32
  }

  /** The positions at which a borrow is due. */
  ghost function Borrows(s: seq<word>, t: seq<word>): (r: seq<word>)
    requires |s| == |t|
    ensures |r| == |s|
    ensures forall k :: 0 <= k < |s| ==> r[k] == if s[k] < t[k] then 1 else 0
  {
    if s == [] then [] else [if s[0] < t[0] then 1 else 0] + Borrows(s[1..], t[1..])
  }

  lemma OneBorrow(x: word, y: word)
    ensures (x - y) % U32 == x - y + U32 * (if x < y then 1 else 0)
  {
    ModUnique(x - y, U32, if x < y then -1 else 0, x - y + U32 * (if x < y then 1 else 0));
  }

  lemma {:induction false} WordwiseVal(s: seq<word>, t: seq<word>, z: seq<word>)
    requires WordwiseSub(s, t, z)
    ensures Val(z) == Val(s) - Val(t) + U32 * Val(Borrows(s, t))
  {
    if s != [] {
      assert Borrows(s, t)[1..] == Borrows(s[1..], t[1..]);
      WordwiseVal(s[1..], t[1..], z[1..]);
      OneBorrow(s[0], t[0]);
    }
  }

  lemma {:induction false} ValZeroOnly(s: seq<word>)
    requires Val(s) == 0
    ensures forall i :: 0 <= i < |s| ==> s[i] == 0
  {
    if s != [] {
      ValZeroOnly(s[1..]);
      assert forall i :: 1 <= i < |s| ==> s[i] == s[1..][i - 1];
    }
  }

  /** Shifted up by one word, the borrows below the top fit; the top one falls out. */
  lemma BorrowsSplit(d: seq<word>, n: nat)
    requires |d| == n > 0
    ensures U32 * Val(d) == U32 * Val(d[..n - 1]) + Weight(n) * d[n - 1]
    ensures U32 * Val(d[..n - 1]) < Weight(n)
  {
    ValPrefixStep(d, n - 1);
    assert d[..n] == d;
    MulAssociate(U32, Weight(n - 1), d[n - 1]);
    ValBound(d[..n - 1]);
  }

  /** x - y differs from z by the missing borrows, of which `top` fell out at weight w. */
  lemma MissingBorrow(x: nat, y: nat, z: nat, low: nat, top: nat, n: nat)
    requires x < Weight(n) && y < Weight(n) && z < Weight(n) && low < Weight(n)
    requires x - y == z - low - Weight(n) * top && top <= 1
    ensures z == SubWrap(x, y, n) <==> low == 0
  {
  }

  /** Every word below the top one covers the word taken from it. */
  ghost predicate NoBorrowBelowTop(s: seq<word>, t: seq<word>)
    requires |s| == |t|
  {
    forall k :: 0 <= k < |s| - 1 ==> s[k] >= t[k]
  }

  lemma NoBorrowsVal(s: seq<word>, t: seq<word>, n: nat)
    requires |s| == |t| == n > 0
    ensures Val(Borrows(s, t)[..n - 1]) == 0 <==> NoBorrowBelowTop(s, t)
  {
    var d := Borrows(s, t)[..n - 1];
    if Val(d) == 0 {
      ValZeroOnly(d);
      assert forall k :: 0 <= k < |d| ==> d[k] == 0;
    } else if NoBorrowBelowTop(s, t) {
      ValZeros(d);
    }
  }

  /** Subtracting in place is right exactly when no word below the top one needs a borrow. */
  lemma InPlaceSubCorrect(s: seq<word>, t: seq<word>, z: seq<word>, n: nat)
    requires WordwiseSub(s, t, z) && |s| == n > 0
    ensures Val(z) == SubWrap(Val(s), Val(t), n) <==> NoBorrowBelowTop(s, t)
  {
    var d := Borrows(s, t);
    WordwiseVal(s, t, z);
    BorrowsSplit(d, n);
    ValBound(s);
    ValBound(t);
    ValBound(z);
    MissingBorrow(Val(s), Val(t), Val(z), U32 * Val(d[..n - 1]), d[n - 1], n);
    NoBorrowsVal(s, t, n);
  }

  /** 2^32 - 1 in place: the low word wraps, the high word does not notice. */
  lemma InPlaceInstance()
    ensures Val([0, 1]) - Val([1, 0]) == 0xffff_ffff
    ensures WordwiseSub([0, 1], [1, 0], [0xffff_ffff, 1]) && Val([0xffff_ffff, 1]) == 0x1_ffff_ffff
  {
    TwoWords(0, 1);
    TwoWords(1, 0);
    TwoWords(0xffff_ffff, 1);
  }

  lemma TwoWords(x: word, y: word)
    ensures Val([x, y]) == x + U32 * y
  {
    assert [x, y][1..] == [y];
    ValOne(y);
  }
}
