/**
  The ring FIFO of utility.c: slots of `size` bytes, free-running 8-bit counters,
  and the counter masked to find its slot. A pointer into the buffer is the
  offset of its first byte.
 */
module RingFifo {
  import opened Bits

  datatype Option<T> = None | Some(value: T)

  /** The fields of my_fifo_t, with the buffer p points to. */
  datatype Ring = Ring(size: nat, num: nat, wptr: byte, rptr: byte, mem: seq<byte>)

  predicate PowerOfTwo(num: nat) {
    num in {1, 2, 4, 8, 16, 32, 64, 128}
  }

  predicate Shaped(f: Ring) {
    PowerOfTwo(f.num) && f.size > 0 && Times(f.num, f.size) <= |f.mem|
  }

  function Used(f: Ring): nat {
    (f.wptr - f.rptr) % 0x100
  }

  /** `(c & (num - 1)) * size`. */
  function SlotStart(f: Ring, c: byte): nat
    requires f.num > 0
  {
    Times(And(c, f.num - 1), f.size)
  }

  function WPtr(f: Ring): Option<nat>
    requires f.num > 0
  {
    if Used(f) < f.num then Some(SlotStart(f, f.wptr)) else None
  }

  /** Refuses when fewer than four slots are free. */
  function WPtrV2(f: Ring): Option<nat>
    requires f.num > 0
  {
    if Used(f) < f.num - 3 then Some(SlotStart(f, f.wptr)) else None
  }

  function Next(f: Ring): Ring {
    f.(wptr := (f.wptr + 1) % 0x100)
  }

  function Pop(f: Ring): Ring {
    f.(rptr := (f.rptr + 1) % 0x100)
  }

  function Get(f: Ring): Option<nat>
    requires f.num > 0
  {
    if f.rptr != f.wptr then Some(SlotStart(f, f.rptr)) else None
  }

  /** The length in two bytes, low one first, then the data. */
  function Encode(p: seq<byte>): (r: seq<byte>)
    ensures |r| == |p| + 2
  {
    [|p| % 0x100, (|p| / 0x100) % 0x100] + p
  }

  function WriteAt(mem: seq<byte>, at: nat, s: seq<byte>): (r: seq<byte>)
    requires at + |s| <= |mem|
    ensures |r| == |mem|
    ensures forall k :: 0 <= k < |mem| ==> r[k] == if at <= k < at + |s| then s[k - at] else mem[k]
  {
    mem[..at] + s + mem[at + |s|..]
  }

  /** my_fifo_push refuses when the ring is full or the data is not shorter than a slot. */
  predicate Accepts(f: Ring, n: nat) {
    Used(f) < f.num && n < f.size
  }

  /** All bytes my_fifo_push writes are inside the buffer. */
  predicate WritesInside(f: Ring, n: nat)
    requires f.num > 0
  {
    SlotStart(f, f.wptr) + n + 2 <= |f.mem|
  }

  /** What a push does to the ring. A write past the buffer has no meaning in C and is not modelled. */
  function Push(f: Ring, p: seq<byte>): Ring
    requires f.num > 0
  {
    if Accepts(f, |p|) && WritesInside(f, |p|)
    then Next(f.(mem := WriteAt(f.mem, SlotStart(f, f.wptr), Encode(p)))) else f
  }

  // ------------------------------------------------------------ slots of counters

  /** Start of the slot of the k-th entry ever committed. */
  function At(f: Ring, k: nat): nat
    requires f.num > 0
  {
    SlotStart(f, k % 0x100)
  }

  lemma PowerOfTwoExponent(num: nat) returns (e: nat)
    requires PowerOfTwo(num)
    ensures num == Pow2(e) && num * (0x100 / num) == 0x100
  {
    e := if num == 1 then 0 else if num == 2 then 1 else if num == 4 then 2 else if num == 8 then 3
      else if num == 16 then 4 else if num == 32 then 5 else if num == 64 then 6 else 7;
    assert Pow2(3) == 8;
    assert Pow2(5) == 32;
    assert Pow2(7) == 128;
  }

  /** Masking an 8-bit counter is the unbounded counter modulo the number of slots. */
  lemma MaskIsMod(k: nat, num: nat)
    requires PowerOfTwo(num)
    ensures And(k % 0x100, num - 1) == k % num < num
  {
    var e := PowerOfTwoExponent(num);
    AndMask(k % 0x100, e);
    ModOfMod(k, num, 0x100 / num);
  }

  lemma ResidueDistinct(j: nat, k: nat, num: nat)
    requires j < k < j + num
    ensures j % num != k % num
  {
    DivModSplit(j, num);
    DivModSplit(k, num);
    if j / num < k / num {
      MulMonotone(num, j / num + 1, k / num);
    } else {
      MulMonotone(num, k / num, j / num);
    }
  }

  lemma AtInside(f: Ring, k: nat)
    requires Shaped(f)
    ensures At(f, k) + f.size <= Times(f.num, f.size) <= |f.mem|
  {
    MaskIsMod(k, f.num);
    TimesMonotone(And(k % 0x100, f.num - 1) + 1, f.num, f.size);
  }

  /** Slots of counters less than num apart do not overlap, however often the counters wrapped. */
  lemma AtDisjoint(f: Ring, j: nat, k: nat)
    requires Shaped(f) && j != k && j < k + f.num && k < j + f.num
    ensures At(f, j) + f.size <= At(f, k) || At(f, k) + f.size <= At(f, j)
  {
    MaskIsMod(j, f.num);
    MaskIsMod(k, f.num);
    if j < k {
      ResidueDistinct(j, k, f.num);
    } else {
      ResidueDistinct(k, j, f.num);
    }
    var x, y := And(j % 0x100, f.num - 1), And(k % 0x100, f.num - 1);
    if x < y {
      TimesMonotone(x + 1, y, f.size);
    } else {
      TimesMonotone(y + 1, x, f.size);
    }
  }

  /**
    In a buffer of exactly num slots the only accepted message that is written
    past the end is one of size - 1 bytes for the last slot.
   */
  lemma PushLeavesBuffer(f: Ring, n: nat)
    requires Shaped(f) && |f.mem| == Times(f.num, f.size) && Accepts(f, n)
    ensures !WritesInside(f, n) <==> n == f.size - 1 && f.wptr % f.num == f.num - 1
  {
    MaskIsMod(f.wptr, f.num);
    SmallMod(f.wptr, 0x100);
    var x := And(f.wptr, f.num - 1);
    assert Times(x + 1, f.size) == f.size + Times(x, f.size);
    if x < f.num - 1 {
      assert Times(x + 2, f.size) == f.size + Times(x + 1, f.size);
      TimesMonotone(x + 2, f.num, f.size);
    }
  }

  lemma SmallMod(x: nat, m: nat)
    requires x < m
    ensures x % m == x
  {
  }

  /** The bytes of the slot of the k-th entry. */
  function Image(f: Ring, k: nat): (r: seq<byte>)
    requires Shaped(f)
    ensures |r| == f.size
  {
    AtInside(f, k);
    f.mem[At(f, k)..At(f, k) + f.size]
  }

  /** A write that does not touch the k-th slot leaves its image alone. */
  lemma ImageKept(f: Ring, g: Ring, k: nat)
    requires Shaped(f) && Shaped(g) && f.num == g.num && f.size == g.size && |f.mem| == |g.mem|
    requires forall i :: At(f, k) <= i < At(f, k) + f.size && i < |f.mem| ==> g.mem[i] == f.mem[i]
    ensures Image(g, k) == Image(f, k)
  {
    AtInside(f, k);
    assert At(g, k) == At(f, k);
  }

  /** 8-bit counters hold the unbounded ones modulo 256, and at most num entries are in the ring. */
  predicate Counts(f: Ring, r: nat, w: nat) {
    f.rptr == r % 0x100 && f.wptr == w % 0x100 && r <= w <= r + f.num
  }

  lemma UsedIsDifference(f: Ring, r: nat, w: nat)
    requires Shaped(f) && Counts(f, r, w)
    ensures Used(f) == w - r
    ensures f.rptr == f.wptr <==> r == w
  {
    DifferenceOfCounters(r, w);
  }

  lemma DifferenceOfCounters(r: nat, w: nat)
    requires r <= w < r + 0x100
    ensures (w % 0x100 - r % 0x100) % 0x100 == w - r
    ensures r % 0x100 == w % 0x100 <==> r == w
  {
    DivModSplit(r, 0x100);
    DivModSplit(w, 0x100);
    ModUnique(w % 0x100 - r % 0x100, 0x100, r / 0x100 - w / 0x100, w - r);
  }

  lemma Successor(k: nat)
    ensures (k % 0x100 + 1) % 0x100 == (k + 1) % 0x100
  {
    DivModSplit(k, 0x100);
    ModShift(k % 0x100 + 1, 0x100, k / 0x100);
  }

  lemma NextCounts(f: Ring, g: Ring, r: nat, w: nat)
    requires Counts(f, r, w) && w - r < f.num
    requires g.num == f.num && g.rptr == f.rptr && g.wptr == (f.wptr + 1) % 0x100
    ensures Counts(g, r, w + 1)
  {
    Successor(w);
  }

  lemma PopCounts(f: Ring, r: nat, w: nat)
    requires Counts(f, r, w) && r < w
    ensures Counts(Pop(f), r + 1, w)
  {
    Successor(r);
  }

  /** Moving the counters moves no slot. */
  lemma CountersOnly(f: Ring, g: Ring, k: nat)
    requires Shaped(f) && g == f.(wptr := g.wptr, rptr := g.rptr)
    ensures At(g, k) == At(f, k) && Image(g, k) == Image(f, k)
  {
  }
}
