/**
  Little-endian multi-word numbers: word 0 is the least significant 32 bits.
  `Val` is the number an array of words stands for.
 */
module Words {
  import opened Bits

  function Val(s: seq<word>): nat {
    if s == [] then 0 else s[0] + U32 * Val(s[1..])
  }

  /** The weight of word position n. */
  function Weight(n: nat): (r: nat)
    ensures r > 0
  {
    if n == 0 then 1 else U32 * Weight(n - 1)
  }

  lemma {:induction false} WeightIsPow2(n: nat)
    ensures Weight(n) == Pow2(32 * n)
  {
    if n > 0 {
      WeightIsPow2(n - 1);
      Pow2At32();
      Pow2Add(32, 32 * (n - 1));
    }
  }

  lemma {:induction false} ValAppend(s: seq<word>, t: seq<word>)
    ensures Val(s + t) == Val(s) + Weight(|s|) * Val(t)
  {
    if s == [] {
      assert s + t == t;
    } else {
      ValAppend(s[1..], t);
      assert (s + t)[1..] == s[1..] + t;
      MulAssociate(U32, Weight(|s| - 1), Val(t));
    }
  }

  lemma ValSplit(s: seq<word>, k: nat)
    requires k <= |s|
    ensures Val(s) == Val(s[..k]) + Weight(k) * Val(s[k..])
  {
    assert s[..k] + s[k..] == s;
    ValAppend(s[..k], s[k..]);
  }

  lemma ValOne(w: word)
    ensures Val([w]) == w
  {
    assert [w][1..] == [];
  }

  /** One more word on top adds its value times the weight of its position. */
  lemma ValSnoc(s: seq<word>, w: word)
    ensures Val(s + [w]) == Val(s) + Weight(|s|) * w
  {
    ValAppend(s, [w]);
    ValOne(w);
  }

  lemma ValPrefixStep(s: seq<word>, k: nat)
    requires k < |s|
    ensures Val(s[..k + 1]) == Val(s[..k]) + Weight(k) * s[k]
  {
    assert s[..k + 1] == s[..k] + [s[k]];
    ValSnoc(s[..k], s[k]);
  }

  lemma {:induction false} ValBound(s: seq<word>)
    ensures Val(s) < Weight(|s|)
  {
    if s != [] {
      ValBound(s[1..]);
      MulMonotone(U32, Val(s[1..]) + 1, Weight(|s| - 1));
    }
  }

  lemma {:induction false} ValZeros(s: seq<word>)
    requires forall i :: 0 <= i < |s| ==> s[i] == 0
    ensures Val(s) == 0
  {
    if s != [] {
      ValZeros(s[1..]);
    }
  }

  /** Number of words up to and including the most significant non-zero one. */
  function WordLen(s: seq<word>): (r: nat)
    ensures r <= |s|
    ensures r > 0 ==> s[r - 1] != 0
    ensures forall i :: r <= i < |s| ==> s[i] == 0
  {
    if s == [] then 0
    else if s[|s| - 1] != 0 then |s|
    else WordLen(s[..|s| - 1])
  }

  lemma ValRealLength(s: seq<word>, k: nat)
    requires k <= |s|
    requires forall i :: k <= i < |s| ==> s[i] == 0
    ensures Val(s) == Val(s[..k])
  {
    ValSplit(s, k);
    ValZeros(s[k..]);
    assert Weight(k) * 0 == 0;
  }

  /** A number whose top word is non-zero is at least the weight of that word. */
  lemma ValTopWord(s: seq<word>)
    requires s != [] && s[|s| - 1] != 0
    ensures Val(s) >= Weight(|s| - 1) * s[|s| - 1] >= Weight(|s| - 1)
  {
    ValPrefixStep(s, |s| - 1);
    assert s[..|s|] == s;
    MulMonotone(Weight(|s| - 1), 1, s[|s| - 1]);
  }

  /** The least number of bits that can hold v. */
  function BitLen(v: nat): nat {
    if v == 0 then 0 else 1 + BitLen(v / 2)
  }

  lemma {:induction false} BitLenBounds(v: nat)
    ensures v < Pow2(BitLen(v))
    ensures v > 0 ==> BitLen(v) > 0 && Pow2(BitLen(v) - 1) <= v
  {
    if v > 1 {
      BitLenBounds(v / 2);
      assert Pow2(BitLen(v)) == 2 * Pow2(BitLen(v / 2));
      assert Pow2(BitLen(v) - 1) == 2 * Pow2(BitLen(v / 2) - 1);
    } else if v == 1 {
      assert BitLen(1) == 1 + BitLen(0);
    }
  }

  /** The bit length is the only n with 2^(n-1) <= v < 2^n. */
  lemma BitLenUnique(v: nat, n: nat)
    requires n > 0 && Pow2(n - 1) <= v < Pow2(n)
    ensures BitLen(v) == n
  {
    BitLenBounds(v);
    if BitLen(v) < n {
      Pow2Monotone(BitLen(v), n - 1);
    } else if n < BitLen(v) {
      Pow2Monotone(n, BitLen(v) - 1);
    }
  }

  /** The n-word representation of v modulo 2^(32 n). */
  function Digits(v: nat, n: nat): (s: seq<word>)
    ensures |s| == n
    decreases n
  {
    if n == 0 then [] else [v % U32] + Digits(v / U32, n - 1)
  }

  /** The n-word difference of two n-word numbers: a borrow out of the top is dropped. */
  function SubWrap(x: nat, y: nat, n: nat): int {
    if x >= y then x - y else x - y + Weight(n)
  }

  lemma SubWrapIsMod(x: nat, y: nat, n: nat)
    requires x < Weight(n) && y < Weight(n)
    ensures SubWrap(x, y, n) == (x - y) % Weight(n)
  {
    ModUnique(x - y, Weight(n), if x >= y then 0 else -1, SubWrap(x, y, n));
  }

  lemma {:induction false} DigitsVal(v: nat, n: nat)
    requires v < Weight(n)
    ensures Val(Digits(v, n)) == v
  {
    if n > 0 {
      DivModSplit(v, U32);
      DigitsVal(v / U32, n - 1);
      assert Digits(v, n)[1..] == Digits(v / U32, n - 1);
    }
  }
}
