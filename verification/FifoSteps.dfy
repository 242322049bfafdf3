/**
  The ring FIFO between one producer that reserves a slot, fills it and commits
  it, and one consumer that looks at the oldest entry, reads it and pops it. The
  steps of the two interleave freely.
 */
module FifoSteps {
  import opened Bits
  import opened RingFifo

  datatype Reading = Reading(entry: nat, offset: nat, value: byte)

  /**
    producer and consumer: the slot pointers the two sides hold. The rest is
    history: the images of the slots as they were committed and as they were
    popped, and the bytes the consumer read.
   */
  datatype System = System(
    f: Ring, producer: Option<nat>, consumer: Option<nat>,
    committed: seq<seq<byte>>, popped: seq<seq<byte>>, seen: seq<Reading>)

  datatype Step =
    | Reserve(keepThree: bool)
    | Fill(offset: nat, value: byte)
    | Commit
    | Peek
    | Read(offset: nat)
    | Release

  /** The bytes of the slot a pointer leads to. */
  function SlotBytes(f: Ring, at: nat): seq<byte> {
    if at + f.size <= |f.mem| then f.mem[at..at + f.size] else []
  }

  /**
    A side without a pointer, or an offset outside the slot, has nothing to do.
    The consumer may pop any entry there is, looked at or not.
   */
  function Do(s: System, step: Step): System
    requires Shaped(s.f)
  {
    match step
    case Reserve(keepThree) => s.(producer := if keepThree then WPtrV2(s.f) else WPtr(s.f))
    case Fill(offset, value) =>
      if s.producer.Some? && offset < s.f.size && s.producer.value + offset < |s.f.mem|
      then s.(f := s.f.(mem := s.f.mem[s.producer.value + offset := value])) else s
    case Commit =>
      if s.producer.Some?
      then s.(f := Next(s.f), producer := None, committed := s.committed + [SlotBytes(s.f, s.producer.value)]) else s
    case Peek => s.(consumer := Get(s.f))
    case Read(offset) =>
      if s.consumer.Some? && offset < s.f.size && s.consumer.value + offset < |s.f.mem|
      then s.(seen := s.seen + [Reading(|s.popped|, offset, s.f.mem[s.consumer.value + offset])]) else s
    case Release =>
      if Get(s.f).Some?
      then s.(f := Pop(s.f), consumer := None, popped := s.popped + [SlotBytes(s.f, Get(s.f).value)]) else s
  }

  /** What every step keeps. */
  ghost predicate Inv(s: System) {
    Shaped(s.f) && Placed(s) && Intact(s) && SeenRight(s)
  }

  /** The counters count what was committed and popped, and the pointers lead to the next slot and the oldest. */
  ghost predicate Placed(s: System)
    requires Shaped(s.f)
  {
    var r, w := |s.popped|, |s.committed|;
    && Counts(s.f, r, w)
    && (s.producer.Some? ==> s.producer.value == At(s.f, w) && w - r < s.f.num)
    && (s.consumer.Some? ==> s.consumer.value == At(s.f, r) && r < w)
  }

  /** Entries in the ring are as they were committed, and so were those that were popped. */
  ghost predicate Intact(s: System)
    requires Shaped(s.f)
  {
    && (forall k :: |s.popped| <= k < |s.committed| ==> Image(s.f, k) == s.committed[k])
    && s.popped <= s.committed
  }

  /** Every byte read is the one that was committed at its place. */
  ghost predicate SeenRight(s: System) {
    forall i :: 0 <= i < |s.seen| ==>
      var x := s.seen[i]; x.entry < |s.committed| && x.offset < |s.committed[x.entry]|
                           && s.committed[x.entry][x.offset] == x.value
  }

  /** The slot being filled is none of those the consumer can see. */
  lemma FilledSlotIsHidden(s: System, k: nat)
    requires Inv(s) && s.producer.Some? && |s.popped| <= k < |s.committed|
    ensures s.producer.value + s.f.size <= At(s.f, k) || At(s.f, k) + s.f.size <= s.producer.value
  {
    AtDisjoint(s.f, k, |s.committed|);
  }

  lemma ReserveKeeps(s: System, keepThree: bool)
    requires Inv(s)
    ensures Inv(Do(s, Reserve(keepThree)))
  {
    UsedIsDifference(s.f, |s.popped|, |s.committed|);
  }

  lemma FillKeeps(s: System, offset: nat, value: byte)
    requires Inv(s)
    ensures Inv(Do(s, Fill(offset, value)))
  {
    var s' := Do(s, Fill(offset, value));
    if s' != s {
      forall k | |s.popped| <= k < |s.committed|
        ensures Image(s'.f, k) == s.committed[k]
      {
        FilledSlotIsHidden(s, k);
        ImageKept(s.f, s'.f, k);
      }
    }
  }

  lemma SeenStaysRight(s: System, s': System)
    requires SeenRight(s) && s'.seen == s.seen && s.committed <= s'.committed
    ensures SeenRight(s')
  {
  }

  lemma CommitPlaces(s: System)
    requires Inv(s) && s.producer.Some?
    ensures Placed(Do(s, Commit))
  {
    var g := Next(s.f);
    NextCounts(s.f, g, |s.popped|, |s.committed|);
    CountersOnly(s.f, g, |s.popped|);
  }

  lemma CommitLeavesIntact(s: System)
    requires Inv(s) && s.producer.Some?
    ensures Intact(Do(s, Commit))
  {
    var s', w := Do(s, Commit), |s.committed|;
    AtInside(s.f, w);
    forall k | |s.popped| <= k < w + 1
      ensures Image(s'.f, k) == s'.committed[k]
    {
      CountersOnly(s.f, s'.f, k);
    }
  }

  lemma CommitKeeps(s: System)
    requires Inv(s)
    ensures Inv(Do(s, Commit))
  {
    if s.producer.Some? {
      CommitPlaces(s);
      CommitLeavesIntact(s);
      SeenStaysRight(s, Do(s, Commit));
    }
  }

  lemma PeekKeeps(s: System)
    requires Inv(s)
    ensures Inv(Do(s, Peek))
  {
    UsedIsDifference(s.f, |s.popped|, |s.committed|);
  }

  lemma ReadKeeps(s: System, offset: nat)
    requires Inv(s)
    ensures Inv(Do(s, Read(offset)))
  {
    var s', r := Do(s, Read(offset)), |s.popped|;
    if s' != s {
      AtInside(s.f, r);
      assert Image(s.f, r)[offset] == s.f.mem[s.consumer.value + offset];
    }
  }

  lemma ReleasePlaces(s: System)
    requires Inv(s) && |s.popped| < |s.committed| && Get(s.f).Some?
    ensures Placed(Do(s, Release))
  {
    PopCounts(s.f, |s.popped|, |s.committed|);
    CountersOnly(s.f, Pop(s.f), |s.committed|);
  }

  lemma ReleaseLeavesIntact(s: System)
    requires Inv(s) && |s.popped| < |s.committed| && Get(s.f).Some?
    ensures Intact(Do(s, Release))
  {
    var s', r := Do(s, Release), |s.popped|;
    AtInside(s.f, r);
    Longer(s.committed, r);
    forall k | r + 1 <= k < |s.committed|
      ensures Image(s'.f, k) == s.committed[k]
    {
      CountersOnly(s.f, s'.f, k);
    }
  }

  lemma ReleaseKeeps(s: System)
    requires Inv(s)
    ensures Inv(Do(s, Release))
  {
    UsedIsDifference(s.f, |s.popped|, |s.committed|);
    if Get(s.f).Some? {
      ReleasePlaces(s);
      ReleaseLeavesIntact(s);
      SeenStaysRight(s, Do(s, Release));
    }
  }

  lemma Longer(q: seq<seq<byte>>, r: nat)
    requires r < |q|
    ensures q[..r + 1] == q[..r] + [q[r]]
  {
  }

  lemma StepKeeps(s: System, step: Step)
    requires Inv(s)
    ensures Inv(Do(s, step))
  {
    match step
    case Reserve(keepThree) => ReserveKeeps(s, keepThree);
    case Fill(offset, value) => FillKeeps(s, offset, value);
    case Commit => CommitKeeps(s);
    case Peek => PeekKeeps(s);
    case Read(offset) => ReadKeeps(s, offset);
    case Release => ReleaseKeeps(s);
  }

  /**
    my_fifo_push advances wptr before it fills the slot. A consumer that looks in
    between is led to that slot exactly when the ring was empty.
   */
  lemma PushPublishesEarly(f: Ring, r: nat, w: nat)
    requires Shaped(f) && Counts(f, r, w) && w - r < f.num
    ensures Get(Next(f)) == Some(At(f, w)) <==> r == w
  {
    assert SlotStart(Next(f), f.rptr) == At(f, r);
    if r < w {
      AtDisjoint(f, r, w);
    }
  }

  // ------------------------------------------------------------------------ runs

  /** s' comes about from s by the steps, in their order. */
  ghost predicate Reaches(s: System, steps: seq<Step>, s': System)
    decreases steps
  {
    if steps == [] then s' == s
    else Shaped(s.f) && Reaches(Do(s, steps[0]), steps[1..], s')
  }

  lemma {:induction false} RunKeeps(s: System, steps: seq<Step>, s': System)
    requires Inv(s) && Reaches(s, steps, s')
    ensures Inv(s')
    decreases steps
  {
    if steps != [] {
      StepKeeps(s, steps[0]);
      RunKeeps(Do(s, steps[0]), steps[1..], s');
    }
  }

  function Start(f: Ring): System {
    System(f, None, None, [], [], [])
  }

  /**
    From an empty ring, after any interleaving and any number of counter wraps:
    what was popped is what was committed first, in order and unchanged; what is
    still in the ring is the rest; and every byte read was a committed one.
   */
  lemma Delivery(f: Ring, steps: seq<Step>, s: System)
    requires Shaped(f) && f.wptr == 0 && f.rptr == 0 && Reaches(Start(f), steps, s)
    ensures s.popped <= s.committed && |s.committed| - |s.popped| <= s.f.num && Shaped(s.f)
    ensures forall k :: |s.popped| <= k < |s.committed| ==> Image(s.f, k) == s.committed[k]
    ensures SeenRight(s)
  {
    RunKeeps(Start(f), steps, s);
  }

  /** The producer holds a slot only while three more stay free. */
  ghost predicate ThreeFree(s: System) {
    var used := |s.committed| - |s.popped|;
    (used > 0 ==> used + 3 <= s.f.num) && (s.producer.Some? ==> used + 3 < s.f.num)
  }

  lemma StepKeepsThree(s: System, step: Step)
    requires Inv(s) && ThreeFree(s)
    requires step.Reserve? ==> step.keepThree
    ensures ThreeFree(Do(s, step))
  {
    UsedIsDifference(s.f, |s.popped|, |s.committed|);
  }

  /** If all producers use the variant that keeps three slots, three slots are always free for others. */
  lemma {:induction false} ThreeStayFree(s: System, steps: seq<Step>, s': System)
    requires Inv(s) && ThreeFree(s) && Reaches(s, steps, s')
    requires forall i :: 0 <= i < |steps| && steps[i].Reserve? ==> steps[i].keepThree
    ensures ThreeFree(s')
    decreases steps
  {
    if steps != [] {
      StepKeeps(s, steps[0]);
      StepKeepsThree(s, steps[0]);
      ThreeStayFree(Do(s, steps[0]), steps[1..], s');
    }
  }
}
