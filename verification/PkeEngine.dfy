/**
  The public-key engine of pke.c: operand RAM, and the microcode runs the driver
  relies on. What a run promises is a contract on the hardware; its body here is
  one engine that keeps the contract. The stop code of the k-th run comes from
  `codes`, so nothing is assumed about which runs fail.
 */
module PkeEngine {
  import opened Bits
  import opened Words
  import opened BigInteger

  const PKE_SUCCESS: nat := 0
  const SLOT_WORDS: nat := 9

  class Pke {
    const a0: array<word>
    const a1: array<word>
    const a3: array<word>
    const b0: array<word>
    const b1: array<word>
    const b3: array<word>
    const b4: array<word>
    const codes: nat -> nat
    var runs: nat
    var width: nat
    // The modulus that the Montgomery parameters in A3 and B4 belong to, 0 if unknown.
    ghost var montgomery: nat

    constructor (codes: nat -> nat)
      ensures Valid() && this.codes == codes && runs == 0
      ensures fresh(Ram())
    {
      a0, a1, a3 := new word[SLOT_WORDS], new word[SLOT_WORDS], new word[SLOT_WORDS];
      b0, b1, b3, b4 := new word[SLOT_WORDS], new word[SLOT_WORDS], new word[SLOT_WORDS], new word[SLOT_WORDS];
      this.codes := codes;
      runs, width, montgomery := 0, 0, 0;
    }

    /** All operand slots. */
    ghost function Ram(): set<array<word>> {
      {a0, a1, a3, b0, b1, b3, b4}
    }

    /** Every slot but B1, which CAL_PRE_MON leaves alone. */
    ghost function RamButB1(): set<array<word>> {
      {a0, a1, a3, b0, b3, b4}
    }

    ghost predicate Valid() {
      && (forall s :: s in Ram() ==> s.Length == SLOT_WORDS)
      && b1 !in RamButB1()
      && a1 !in {a0, b0, b3}
      && a0 !in {b0, b3} && b0 != b3
    }

    /** Words in slot, zero padded; a slot loaded from itself stays as it is. */
    static method LoadOperand(slot: array<word>, data: array<word>, wordLen: nat)
      requires wordLen <= SLOT_WORDS == slot.Length && wordLen <= data.Length
      modifies slot
      ensures slot[..wordLen] == old(data[..wordLen])
      ensures slot != data ==> forall k :: wordLen <= k < SLOT_WORDS ==> slot[k] == 0
    {
      if slot != data {
        var i := 0;
        while i < wordLen
          invariant i <= wordLen
          invariant slot[..i] == data[..i]
        {
          slot[i] := data[i];
          i := i + 1;
        }
        while i < SLOT_WORDS
          invariant wordLen <= i <= SLOT_WORDS
          invariant slot[..wordLen] == data[..wordLen]
          invariant forall k :: wordLen <= k < i ==> slot[k] == 0
        {
          slot[i] := 0;
          i := i + 1;
        }
      }
    }

    static method ReadOperand(slot: array<word>, data: array<word>, wordLen: nat)
      requires wordLen <= slot.Length && wordLen <= data.Length
      modifies data
      ensures data[..wordLen] == old(slot[..wordLen])
      ensures forall k :: wordLen <= k < data.Length ==> data[k] == old(data[k])
    {
      if slot != data {
        var i := 0;
        while i < wordLen
          invariant i <= wordLen
          invariant data[..i] == slot[..i]
          invariant forall k :: i <= k < data.Length ==> data[k] == old(data[k])
        {
          data[i] := slot[i];
          i := i + 1;
        }
      }
    }

    method SetOperandWidth(bitLen: nat)
      modifies this`width
      ensures width == (bitLen + 31) / 32
    {
      width := (bitLen + 31) / 32;
    }

    /** The hardware writes v, which fits, into the low words of a slot. */
    static method Deposit(slot: array<word>, v: nat, n: nat)
      requires n <= slot.Length && v < Weight(n)
      modifies slot
      ensures Val(slot[..n]) == v
    {
      var d := Digits(v, n);
      forall k | 0 <= k < n {
        slot[k] := d[k];
      }
      DigitsVal(v, n);
      assert slot[..n] == d;
    }

    /** Microcode CAL_PRE_MON: parameters for the odd modulus in B3. */
    method RunCalPreMont() returns (ret: nat)
      requires Valid() && width <= SLOT_WORDS
      modifies this`runs, this`montgomery, RamButB1()
      ensures runs == old(runs) + 1 && ret == codes(old(runs))
      ensures ret == PKE_SUCCESS && old(Val(b3[..width])) % 2 == 1 ==> montgomery == old(Val(b3[..width]))
    {
      ret := codes(runs);
      runs := runs + 1;
      montgomery := if ret == PKE_SUCCESS then Val(b3[..width]) else 0;
    }

    /** Microcode MODMUL: A0 = A0 * B0 mod B3, for operands up to and including the modulus. */
    method RunModMul() returns (ret: nat)
      requires Valid() && width <= SLOT_WORDS
      modifies this`runs, this`montgomery, Ram()
      ensures runs == old(runs) + 1 && ret == codes(old(runs))
      ensures ret == PKE_SUCCESS && 0 < old(Val(b3[..width])) == old(montgomery)
              && old(Val(a0[..width])) <= old(montgomery) && old(Val(b0[..width])) <= old(montgomery)
              ==> Val(a0[..width]) == MulRem(old(Val(a0[..width])), old(Val(b0[..width])), old(montgomery))
    {
      ret := codes(runs);
      runs := runs + 1;
      var x, y, m := Val(a0[..width]), Val(b0[..width]), Val(b3[..width]);
      if m > 0 {
        ValBound(b3[..width]);
        Deposit(a0, MulRem(x, y, m), width);
      }
    }

    /** Microcode MODADD: A0 = A0 + B0 mod B3, for reduced operands. */
    method RunModAdd() returns (ret: nat)
      requires Valid() && width <= SLOT_WORDS
      modifies this`runs, this`montgomery, Ram()
      ensures runs == old(runs) + 1 && ret == codes(old(runs))
      ensures ret == PKE_SUCCESS
              && old(Val(a0[..width])) < old(Val(b3[..width])) && old(Val(b0[..width])) < old(Val(b3[..width]))
              ==> Val(a0[..width]) == Rem(old(Val(a0[..width])) + old(Val(b0[..width])), old(Val(b3[..width])))
    {
      ret := codes(runs);
      runs := runs + 1;
      var x, y, m := Val(a0[..width]), Val(b0[..width]), Val(b3[..width]);
      if m > 0 {
        ValBound(b3[..width]);
        Deposit(a0, Rem(x + y, m), width);
      }
    }

    /** Caller's parameters; nothing is assumed about their values. */
    method LoadPreCalcMont(h: array<word>, n1: array<word>, wordLen: nat)
      requires Valid() && 0 < wordLen <= 8 && wordLen <= h.Length && 1 <= n1.Length
      modifies this`width, this`montgomery, a3, b4
      ensures width == wordLen
    {
      SetOperandWidth(wordLen * 32);
      montgomery := 0;
      LoadOperand(a3, h, wordLen);
      LoadOperand(b4, n1, 1);
    }

    method CalcPreMont(modulus: array<word>, wordLen: nat) returns (ret: nat)
      requires Valid() && 0 < wordLen <= 8 && wordLen <= modulus.Length
      modifies this`runs, this`width, this`montgomery, RamButB1()
      ensures width == wordLen
      ensures runs == old(runs) + 1 && ret == codes(old(runs))
      ensures ret == PKE_SUCCESS && old(Val(modulus[..wordLen])) % 2 == 1
              ==> montgomery == old(Val(modulus[..wordLen]))
    {
      SetOperandWidth(wordLen * 32);
      LoadOperand(b3, modulus, wordLen);
      ret := RunCalPreMont();
    }

    /** B3 modulus, A0 x, B0 y. */
    method LoadOperands(modulus: array<word>, x: array<word>, y: array<word>, wordLen: nat)
      requires Valid() && 0 < wordLen <= 8
      requires wordLen <= modulus.Length && wordLen <= x.Length && wordLen <= y.Length
      requires x != b3 && y !in {b3, a0}
      modifies this`width, a0, b0, b3
      ensures width == wordLen
      ensures b3[..wordLen] == old(modulus[..wordLen])
      ensures a0[..wordLen] == old(x[..wordLen]) && b0[..wordLen] == old(y[..wordLen])
    {
      SetOperandWidth(wordLen * 32);
      LoadOperand(b3, modulus, wordLen);
      LoadOperand(a0, x, wordLen);
      LoadOperand(b0, y, wordLen);
    }

    /** out = x * y mod modulus; x and out may be the slot B1. */
    method ModMul(modulus: array<word>, x: array<word>, y: array<word>, out: array<word>, wordLen: nat)
      returns (ret: nat)
      requires Valid() && 0 < wordLen <= 8
      requires wordLen <= modulus.Length && wordLen <= x.Length && wordLen <= y.Length && wordLen <= out.Length
      requires x != b3 && y !in {b3, a0}
      modifies this`runs, this`width, this`montgomery, Ram(), out
      ensures width == wordLen
      ensures runs == old(runs) + 1 && ret == codes(old(runs))
      ensures ret == PKE_SUCCESS && 0 < old(Val(modulus[..wordLen])) == old(montgomery)
              && old(Val(x[..wordLen])) <= old(montgomery) && old(Val(y[..wordLen])) <= old(montgomery)
              ==> Val(out[..wordLen]) == MulRem(old(Val(x[..wordLen])), old(Val(y[..wordLen])), old(montgomery))
    {
      LoadOperands(modulus, x, y, wordLen);
      ret := RunModMul();
      if ret != PKE_SUCCESS {
        return;
      }
      ReadOperand(a0, out, wordLen);
    }

    /** out = x + y mod modulus, into the caller's memory. */
    method ModAdd(modulus: array<word>, x: array<word>, y: array<word>, out: array<word>, wordLen: nat)
      returns (ret: nat)
      requires Valid() && 0 < wordLen <= 8
      requires wordLen <= modulus.Length && wordLen <= x.Length && wordLen <= y.Length && wordLen <= out.Length
      requires x != b3 && y !in {b3, a0} && out !in Ram()
      modifies this`runs, this`width, this`montgomery, Ram(), out
      ensures runs == old(runs) + 1 && ret == codes(old(runs))
      ensures forall k :: wordLen <= k < out.Length ==> out[k] == old(out[k])
      ensures ret == PKE_SUCCESS
              && old(Val(x[..wordLen])) < old(Val(modulus[..wordLen]))
              && old(Val(y[..wordLen])) < old(Val(modulus[..wordLen]))
              ==> Val(out[..wordLen])
                  == Rem(old(Val(x[..wordLen])) + old(Val(y[..wordLen])), old(Val(modulus[..wordLen])))
    {
      LoadOperands(modulus, x, y, wordLen);
      ret := RunModAdd();
      if ret != PKE_SUCCESS {
        return;
      }
      ReadOperand(a0, out, wordLen);
    }
  }
}
