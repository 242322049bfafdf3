/** The ring FIFO with whole pushes, as a bounded queue of byte strings. */
module FifoQueue {
  import opened Bits
  import opened RingFifo

  // -------------------------------------------------------- one message in a slot

  /** What a reader makes of a slot: a two-byte length, then that many bytes. */
  function Decode(image: seq<byte>): (r: seq<byte>) {
    if |image| < 2 then []
    else
      var len := (image[0] as int) + 0x100 * (image[1] as int);
      if len + 2 <= |image| then image[2..2 + len] else []
  }

  /** The length header gives the message back exactly when its length fits in sixteen bits. */
  lemma DecodeEncode(p: seq<byte>, rest: seq<byte>)
    ensures Decode(Encode(p) + rest) == p <==> |p| < 0x1_0000
  {
    var image := Encode(p) + rest;
    var len := (image[0] as int) + 0x100 * (image[1] as int);
    if |p| < 0x1_0000 {
      assert len == |p|;
      assert image[2..2 + len] == p;
    } else {
      assert len < |p|;
    }
  }

  /** The byte behind the slot already is the last one the push writes. */
  predicate SpillsTheSame(f: Ring, p: seq<byte>)
    requires f.num > 0
  {
    var next := SlotStart(f, f.wptr) + f.size;
    |p| + 2 == f.size + 1 && next < |f.mem| && f.mem[next] == Encode(p)[f.size]
  }

  /**
    The push stays inside the buffer and everything outside its slot survives
    exactly when the message leaves room for its header, or the one byte that
    spills over happens to be there already.
   */
  lemma PushStaysInSlot(f: Ring, p: seq<byte>)
    requires Shaped(f) && Accepts(f, |p|)
    ensures var s := SlotStart(f, f.wptr);
            WritesInside(f, |p|)
            && (forall k :: 0 <= k < |f.mem| && !(s <= k < s + f.size) ==> Push(f, p).mem[k] == f.mem[k])
            <==> |p| + 2 <= f.size || SpillsTheSame(f, p)
  {
    var s := SlotStart(f, f.wptr);
    SmallMod(f.wptr, 0x100);
    AtInside(f, f.wptr);
    if |p| + 2 > f.size && WritesInside(f, |p|) {
      assert Push(f, p).mem[s + f.size] == Encode(p)[f.size];
    }
  }

  // ------------------------------------------------------------ the ring as a queue

  /** A message that leaves room for its header, and whose length the header can hold. */
  predicate Fits(size: nat, p: seq<byte>) {
    |p| + 2 <= size && |p| < 0x1_0000
  }

  /** The slot of the k-th entry holds the whole message behind a header that gives its length. */
  predicate Stored(f: Ring, k: nat, p: seq<byte>)
    requires Shaped(f)
  {
    |p| < 0x1_0000 && Encode(p) <= Image(f, k)
  }

  /** Entries r up to w hold the messages of q, oldest first. */
  ghost predicate Holds(f: Ring, r: nat, w: nat, q: seq<seq<byte>>) {
    Shaped(f) && Counts(f, r, w) && |q| == w - r && forall i :: 0 <= i < |q| ==> Stored(f, r + i, q[i])
  }

  /** A push that fits writes the new slot and no other. */
  lemma PushStores(f: Ring, r: nat, w: nat, p: seq<byte>)
    requires Shaped(f) && Counts(f, r, w) && w - r < f.num && Fits(f.size, p)
    ensures Accepts(f, |p|) && WritesInside(f, |p|) && Shaped(Push(f, p))
    ensures Stored(Push(f, p), w, p)
  {
    UsedIsDifference(f, r, w);
    AtInside(f, w);
    var g, e := Push(f, p), Encode(p);
    AtInside(g, w);
    assert At(g, w) == At(f, w) == SlotStart(f, f.wptr);
    var image := Image(g, w);
    forall i | 0 <= i < |e|
      ensures image[..|p| + 2][i] == e[i]
    {
      assert image[i] == g.mem[At(f, w) + i];
    }
    assert image[..|p| + 2] == e;
  }

  lemma PushKeepsOthers(f: Ring, r: nat, w: nat, p: seq<byte>, k: nat, m: seq<byte>)
    requires Shaped(f) && Counts(f, r, w) && w - r < f.num && Fits(f.size, p)
    requires Accepts(f, |p|) && WritesInside(f, |p|) && Shaped(Push(f, p))
    requires r <= k < w && Stored(f, k, m)
    ensures Stored(Push(f, p), k, m)
  {
    AtInside(f, w);
    AtDisjoint(f, k, w);
    ImageKept(f, Push(f, p), k);
  }

  lemma PushAppends(f: Ring, r: nat, w: nat, q: seq<seq<byte>>, p: seq<byte>)
    requires Holds(f, r, w, q) && w - r < f.num && Fits(f.size, p)
    ensures Accepts(f, |p|) && WritesInside(f, |p|) && Holds(Push(f, p), r, w + 1, q + [p])
  {
    PushStores(f, r, w, p);
    var g, q' := Push(f, p), q + [p];
    NextCounts(f, g, r, w);
    forall i | 0 <= i < |q'|
      ensures Stored(g, r + i, q'[i])
    {
      if i < |q| {
        PushKeepsOthers(f, r, w, p, r + i, q[i]);
      }
    }
  }

  /** What a ring holds fits its slots. */
  lemma NewestFits(f: Ring, r: nat, w: nat, q: seq<seq<byte>>, p: seq<byte>)
    requires Holds(f, r, w, q + [p])
    ensures Fits(f.size, p)
  {
    assert Stored(f, r + |q|, (q + [p])[|q|]);
  }

  /**
    A push is accepted exactly when the queue is not full and the message is
    shorter than a slot. It then stays in the buffer and appends the message
    exactly when the message fits.
   */
  lemma PushHolds(f: Ring, r: nat, w: nat, q: seq<seq<byte>>, p: seq<byte>)
    requires Holds(f, r, w, q)
    ensures Accepts(f, |p|) <==> |q| < f.num && |p| < f.size
    ensures Accepts(f, |p|) ==>
              (WritesInside(f, |p|) && Holds(Push(f, p), r, w + 1, q + [p]) <==> Fits(f.size, p))
  {
    UsedIsDifference(f, r, w);
    if Accepts(f, |p|) {
      if Fits(f.size, p) {
        PushAppends(f, r, w, q, p);
      }
      if Holds(Push(f, p), r, w + 1, q + [p]) {
        NewestFits(Push(f, p), r, w + 1, q, p);
      }
    }
  }

  lemma GetHolds(f: Ring, r: nat, w: nat, q: seq<seq<byte>>)
    requires Holds(f, r, w, q)
    ensures q == [] <==> Get(f) == None
    ensures q != [] ==> Get(f) == Some(At(f, r)) && Decode(Image(f, r)) == q[0]
  {
    UsedIsDifference(f, r, w);
    if q != [] {
      var image, p := Image(f, r), q[0];
      assert Stored(f, r + 0, p);
      assert image == Encode(p) + image[|p| + 2..];
      DecodeEncode(p, image[|p| + 2..]);
    }
  }

  lemma PopHolds(f: Ring, r: nat, w: nat, q: seq<seq<byte>>)
    requires Holds(f, r, w, q) && q != []
    ensures Holds(Pop(f), r + 1, w, q[1..])
  {
    var g := Pop(f);
    PopCounts(f, r, w);
    forall i | 0 <= i < |q| - 1
      ensures Stored(g, r + 1 + i, q[1..][i])
    {
      assert Stored(f, r + (1 + i), q[1 + i]);
      CountersOnly(f, g, r + 1 + i);
    }
  }

  /** Popping leaves a ring that can be counted exactly when there was something to pop. */
  lemma PopNeedsAnEntry(f: Ring)
    requires Shaped(f) && Used(f) <= f.num
    ensures Used(Pop(f)) <= f.num <==> Used(f) > 0
  {
  }

  // ------------------------------------------------------------------------ runs

  datatype Call = DoPush(p: seq<byte>) | DoGet | DoPop

  datatype Seen = Pushed(ok: bool) | Got(head: Option<seq<byte>>) | Popped

  /** The slot a returned pointer leads to, read as a message. */
  function ReadSlot(f: Ring, at: Option<nat>): Option<seq<byte>> {
    if at.Some? && at.value + f.size <= |f.mem| then Some(Decode(f.mem[at.value..at.value + f.size])) else None
  }

  function RingStep(f: Ring, c: Call): (Ring, Seen)
    requires Shaped(f)
  {
    match c
    case DoPush(p) =>
      if Accepts(f, |p|) && WritesInside(f, |p|) then (Push(f, p), Pushed(true)) else (f, Pushed(false))
    case DoGet => (f, Got(ReadSlot(f, Get(f))))
    case DoPop => (Pop(f), Popped)
  }

  /** The bounded queue: it takes a message if it is not full and the message is short enough. */
  function QueueStep(q: seq<seq<byte>>, size: nat, num: nat, c: Call): (seq<seq<byte>>, Seen) {
    match c
    case DoPush(p) => if |q| < num && |p| < size then (q + [p], Pushed(true)) else (q, Pushed(false))
    case DoGet => (q, Got(if q == [] then None else Some(q[0])))
    case DoPop => (if q == [] then q else q[1..], Popped)
  }

  function RingRun(f: Ring, calls: seq<Call>): seq<Seen>
    requires Shaped(f)
    decreases calls
  {
    if calls == [] then [] else var (g, seen) := RingStep(f, calls[0]); [seen] + RingRun(g, calls[1..])
  }

  function QueueRun(q: seq<seq<byte>>, size: nat, num: nat, calls: seq<Call>): seq<Seen>
    decreases calls
  {
    if calls == [] then []
    else var (q', seen) := QueueStep(q, size, num, calls[0]); [seen] + QueueRun(q', size, num, calls[1..])
  }

  /** Where the oldest and the next entry stand after a call. */
  function NextFirst(r: nat, c: Call): nat {
    if c.DoPop? then r + 1 else r
  }

  function NextLast(w: nat, q: seq<seq<byte>>, size: nat, num: nat, c: Call): nat {
    if Taken(q, size, num, c) then w + 1 else w
  }

  /** A push that the queue takes. */
  predicate Taken(q: seq<seq<byte>>, size: nat, num: nat, c: Call) {
    c.DoPush? && |q| < num && |c.p| < size
  }

  /**
    One call on the ring keeps the correspondence exactly when what it pushes
    fits, and then answers as the queue does.
   */
  lemma StepRefines(f: Ring, r: nat, w: nat, q: seq<seq<byte>>, c: Call)
    requires Holds(f, r, w, q)
    requires c.DoPop? ==> q != []
    ensures var ((g, a), (q', b)) := (RingStep(f, c), QueueStep(q, f.size, f.num, c));
            && (Holds(g, NextFirst(r, c), NextLast(w, q, f.size, f.num, c), q')
                <==> (Taken(q, f.size, f.num, c) ==> Fits(f.size, c.p)))
            && (Holds(g, NextFirst(r, c), NextLast(w, q, f.size, f.num, c), q') ==> a == b)
            && g.size == f.size && g.num == f.num
  {
    match c
    case DoPush(p) =>
      PushHolds(f, r, w, q, p);
      if Taken(q, f.size, f.num, c) && !WritesInside(f, |p|) {
        StuckCounter(f, r, w);
      }
    case DoGet =>
      GetHolds(f, r, w, q);
      AtInside(f, r);
    case DoPop =>
      PopHolds(f, r, w, q);
  }

  lemma StuckCounter(f: Ring, r: nat, w: nat)
    requires Counts(f, r, w)
    ensures !Counts(f, r, w + 1)
  {
    Successor(w);
  }

  /** Callers pop only what is there. */
  predicate PopsMeetEntries(q: seq<seq<byte>>, size: nat, num: nat, calls: seq<Call>)
    decreases calls
  {
    calls == [] ||
    ((calls[0].DoPop? ==> q != []) && PopsMeetEntries(QueueStep(q, size, num, calls[0]).0, size, num, calls[1..]))
  }

  /** Every message that is taken fits its slot. */
  predicate PushesFit(q: seq<seq<byte>>, size: nat, num: nat, calls: seq<Call>)
    decreases calls
  {
    calls == [] ||
    ((Taken(q, size, num, calls[0]) ==> Fits(size, calls[0].p))
     && PushesFit(QueueStep(q, size, num, calls[0]).0, size, num, calls[1..]))
  }

  /** After each call the ring holds what the queue holds. */
  ghost predicate KeepsHolding(f: Ring, r: nat, w: nat, q: seq<seq<byte>>, calls: seq<Call>)
    decreases calls
  {
    Holds(f, r, w, q) &&
    (calls == [] ||
     KeepsHolding(RingStep(f, calls[0]).0, NextFirst(r, calls[0]), NextLast(w, q, f.size, f.num, calls[0]),
                  QueueStep(q, f.size, f.num, calls[0]).0, calls[1..]))
  }

  /** Over a whole run the ring holds the queue exactly when every message it takes fits. */
  lemma {:induction false} RunHoldsExactly(f: Ring, r: nat, w: nat, q: seq<seq<byte>>, calls: seq<Call>)
    requires Holds(f, r, w, q) && PopsMeetEntries(q, f.size, f.num, calls)
    ensures KeepsHolding(f, r, w, q, calls) <==> PushesFit(q, f.size, f.num, calls)
    decreases calls
  {
    if calls != [] {
      var c := calls[0];
      StepRefines(f, r, w, q, c);
      var g, q' := RingStep(f, c).0, QueueStep(q, f.size, f.num, c).0;
      var r', w' := NextFirst(r, c), NextLast(w, q, f.size, f.num, c);
      if Holds(g, r', w', q') {
        RunHoldsExactly(g, r', w', q', calls[1..]);
      }
    }
  }

  /** Whatever is called, in whatever order and however often the counters wrap, the ring answers as the queue does. */
  lemma {:induction false} RunRefines(f: Ring, r: nat, w: nat, q: seq<seq<byte>>, calls: seq<Call>)
    requires Holds(f, r, w, q)
    requires PopsMeetEntries(q, f.size, f.num, calls) && PushesFit(q, f.size, f.num, calls)
    ensures RingRun(f, calls) == QueueRun(q, f.size, f.num, calls)
    decreases calls
  {
    if calls != [] {
      var c := calls[0];
      StepRefines(f, r, w, q, c);
      RunRefines(RingStep(f, c).0, NextFirst(r, c), NextLast(w, q, f.size, f.num, c),
                 QueueStep(q, f.size, f.num, c).0, calls[1..]);
    }
  }

  // Two slots of four bytes; the second one holds the message [7, 8].
  const ONE_WAITING := Ring(4, 2, 2, 1, [0, 0, 0, 0, 2, 0, 7, 8])

  /** A message of three bytes is accepted, and its last byte becomes the length of the message that is waiting. */
  lemma SpillInstance()
    ensures Holds(ONE_WAITING, 1, 2, [[7, 8]]) && Accepts(ONE_WAITING, 3)
    ensures var g := Push(ONE_WAITING, [1, 1, 1]); Get(g) == Some(4) && Decode(g.mem[4..]) == [7]
  {
    SlotsOfTwo();
    assert Push(ONE_WAITING, [1, 1, 1]).mem == [3, 0, 1, 1, 1, 0, 7, 8];
  }

  lemma SlotsOfTwo()
    ensures Holds(ONE_WAITING, 1, 2, [[7, 8]])
    ensures SlotStart(ONE_WAITING, 2) == 0 && SlotStart(ONE_WAITING, 1) == 4
  {
    assert And(2, 1) == 0 && And(1, 1) == 1 && Times(1, 4) == 4 && Times(2, 4) == 8;
    assert At(ONE_WAITING, 1) == 4;
    assert Image(ONE_WAITING, 1) == ONE_WAITING.mem[4..8] == [2, 0, 7, 8];
    assert Encode([7, 8]) == [2, 0] + [7, 8] == [2, 0, 7, 8];
  }
}
