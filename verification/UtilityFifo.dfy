/** The functions of utility.c as methods on the object the C code passes around. */
module UtilityFifo {
  import opened Bits
  import opened FifoQueue
  import opened RingFifo
  import Spec = RingFifo

  /** What a push means for the queue the ring holds, whichever that is. */
  lemma PushMeansAppend(f: Ring, p: seq<byte>)
    requires f.num > 0 && (Accepts(f, |p|) ==> WritesInside(f, |p|))
    ensures forall first: nat, last: nat, q :: Holds(f, first, last, q) ==>
              && (Accepts(f, |p|) <==> |q| < f.num && |p| < f.size)
              && (Accepts(f, |p|) ==> (Holds(Spec.Push(f, p), first, last + 1, q + [p]) <==> Fits(f.size, p)))
  {
    forall first: nat, last: nat, q | Holds(f, first, last, q)
      ensures Accepts(f, |p|) <==> |q| < f.num && |p| < f.size
      ensures Accepts(f, |p|) ==> (Holds(Spec.Push(f, p), first, last + 1, q + [p]) <==> Fits(f.size, p))
    {
      PushHolds(f, first, last, q, p);
    }
  }

  /** The int n compared with an unsigned number. */
  function Unsigned(n: int): word
    requires -0x8000_0000 <= n < 0x8000_0000
  {
    if n < 0 then n + U32 else n
  }

  class MyFifo {
    var size: nat
    var num: nat
    var wptr: byte
    var rptr: byte
    var p: array<byte>

    constructor (s: nat, n: nat, p: array<byte>)
      ensures State() == Ring(s, n, 0, 0, p[..]) && this.p == p
    {
      size, num, wptr, rptr := s, n, 0, 0;
      this.p := p;
    }

    function State(): Ring
      reads this, p
    {
      Ring(size, num, wptr, rptr, p[..])
    }

    /** The offset of the slot a counter selects. */
    function SlotOf(c: byte): (r: nat)
      requires num > 0
      reads this, p
      ensures r == SlotStart(State(), c)
    {
      TimesIsProduct(And(c, num - 1), size);
      And(c, num - 1) * size
    }

    method WPtr() returns (r: Option<nat>)
      requires num > 0
      ensures r == Spec.WPtr(State())
      ensures forall first: nat, last: nat :: Shaped(State()) && Counts(State(), first, last) ==>
                r == if last - first == num then None else Some(At(State(), last))
    {
      forall first: nat, last: nat | Shaped(State()) && Counts(State(), first, last)
        ensures Used(State()) == last - first
      {
        UsedIsDifference(State(), first, last);
      }
      if (wptr - rptr) % 0x100 < num {
        return Some(SlotOf(wptr));
      }
      return None;
    }

    method WPtrV2() returns (r: Option<nat>)
      requires num > 0
      ensures r == Spec.WPtrV2(State())
      ensures forall first: nat, last: nat :: Shaped(State()) && Counts(State(), first, last) ==>
                r == if last - first + 3 < num then Some(At(State(), last)) else None
    {
      forall first: nat, last: nat | Shaped(State()) && Counts(State(), first, last)
        ensures Used(State()) == last - first
      {
        UsedIsDifference(State(), first, last);
      }
      if (wptr - rptr) % 0x100 < num - 3 {
        return Some(SlotOf(wptr));
      }
      return None;
    }

    method Next()
      modifies this`wptr
      ensures State() == Spec.Next(old(State()))
      ensures forall first: nat, last: nat :: Counts(old(State()), first, last) && last - first < num ==>
                Counts(State(), first, last + 1)
    {
      forall first: nat, last: nat | Counts(State(), first, last) && last - first < num
        ensures Counts(Spec.Next(State()), first, last + 1)
      {
        NextCounts(State(), Spec.Next(State()), first, last);
      }
      wptr := (wptr + 1) % 0x100;
    }

    method Pop()
      modifies this`rptr
      ensures State() == Spec.Pop(old(State()))
      ensures forall first: nat, last: nat, q :: Holds(old(State()), first, last, q) && q != [] ==>
                Holds(State(), first + 1, last, q[1..])
    {
      forall first: nat, last: nat, q | Holds(State(), first, last, q) && q != []
        ensures Holds(Spec.Pop(State()), first + 1, last, q[1..])
      {
        PopHolds(State(), first, last, q);
      }
      rptr := (rptr + 1) % 0x100;
    }

    method Get() returns (r: Option<nat>)
      requires num > 0
      ensures r == Spec.Get(State())
      ensures forall first: nat, last: nat, q :: Holds(State(), first, last, q) ==>
                ReadSlot(State(), r) == if q == [] then None else Some(q[0])
    {
      forall first: nat, last: nat, q | Holds(State(), first, last, q)
        ensures ReadSlot(State(), Spec.Get(State())) == if q == [] then None else Some(q[0])
      {
        GetHolds(State(), first, last, q);
        AtInside(State(), first);
      }
      if rptr != wptr {
        return Some(SlotOf(rptr));
      }
      return None;
    }

    /** Length bytes and data at offset pd. */
    method Store(pd: nat, d: array<byte>, n: nat)
      requires d != p && n <= d.Length && pd + n + 2 <= p.Length
      modifies p
      ensures p[..] == WriteAt(old(p[..]), pd, Encode(d[..n]))
    {
      p[pd] := n % 0x100;
      p[pd + 1] := (n / 0x100) % 0x100;
      forall k | 0 <= k < n {
        p[pd + 2 + k] := d[k];
      }
      ghost var written := Encode(d[..n]);
      assert forall k :: 2 <= k < n + 2 ==> written[k] == d[k - 2];
      assert forall k :: 0 <= k < n + 2 ==> p[pd + k] == written[k];
    }

    /** The length n is the caller's int; a negative one compares as a large unsigned number. */
    method Push(d: array<byte>, n: int) returns (ret: int)
      requires num > 0 && size < 0x8000_0000 && d != p
      requires -0x8000_0000 <= n < 0x8000_0000 && n <= d.Length
      requires 0 <= n && Accepts(State(), n) ==> WritesInside(State(), n)
      modifies this`wptr, p
      ensures n < 0 ==> ret == -1 && State() == old(State())
      ensures n >= 0 ==>
                && ret == (if Accepts(old(State()), n) then 0 else -1)
                && State() == Spec.Push(old(State()), d[..n])
      ensures n >= 0 ==> forall first: nat, last: nat, q :: Holds(old(State()), first, last, q) ==>
                && (ret == 0 <==> |q| < num && n < size)
                && (ret == 0 ==> (Holds(State(), first, last + 1, q + [d[..n]]) <==> Fits(size, d[..n])))
    {
      if n >= 0 {
        PushMeansAppend(State(), d[..n]);
      }
      if (wptr - rptr) % 0x100 >= num {
        return -1;
      }
      if Unsigned(n) >= size {
        return -1;
      }
      var pd := SlotOf(wptr);
      wptr := (wptr + 1) % 0x100;
      Store(pd, d, n);
      return 0;
    }
  }
}
