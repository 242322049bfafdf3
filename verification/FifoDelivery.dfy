/**
  What the steps of FifoSteps amount to: a queue of entries, without counters,
  masks or addresses. The producer works on the cell of the next entry, and the
  consumer sees entries as they were committed.
 */
module FifoDelivery {
  import opened Bits
  import opened FifoSteps
  import opened RingFifo

  /** cells: what each of the num slots holds. */
  datatype Queue = Queue(
    size: nat, num: nat, cells: seq<seq<byte>>,
    committed: seq<seq<byte>>, popped: seq<seq<byte>>,
    reserved: bool, looking: bool, seen: seq<Reading>)

  predicate Formed(q: Queue) {
    && 0 < q.num == |q.cells| && |q.popped| <= |q.committed|
    && (forall c :: 0 <= c < q.num ==> |q.cells[c]| == q.size)
    && (forall k :: |q.popped| <= k < |q.committed| ==> |q.committed[k]| == q.size)
    && (q.looking ==> |q.popped| < |q.committed|)
  }

  /** The cell of the next entry. */
  function Current(q: Queue): nat
    requires q.num > 0
  {
    |q.committed| % q.num
  }

  function QueueDo(q: Queue, step: Step): Queue
    requires Formed(q)
  {
    var used := |q.committed| - |q.popped|;
    match step
    case Reserve(keepThree) => q.(reserved := used + (if keepThree then 3 else 0) < q.num)
    case Fill(offset, value) =>
      var c := Current(q);
      if q.reserved && offset < q.size then
        var bytes: seq<byte> := q.cells[c][offset := value];
        q.(cells := q.cells[c := bytes])
      else q
    case Commit =>
      if q.reserved then q.(committed := q.committed + [q.cells[Current(q)]], reserved := false) else q
    case Peek => q.(looking := used > 0)
    case Read(offset) =>
      if q.looking && offset < q.size
      then q.(seen := q.seen + [Reading(|q.popped|, offset, q.committed[|q.popped|][offset])]) else q
    case Release =>
      if used > 0 then q.(popped := q.popped + [q.committed[|q.popped|]], looking := false) else q
  }

  lemma QueueStaysFormed(q: Queue, step: Step)
    requires Formed(q)
    ensures Formed(QueueDo(q, step))
  {
  }

  // ------------------------------------------------------------------- refinement

  /** The bytes of the c-th slot of the ring. */
  function Cell(f: Ring, c: nat): (r: seq<byte>)
    requires Shaped(f) && c < f.num
    ensures |r| == f.size
  {
    TimesMonotone(c + 1, f.num, f.size);
    f.mem[Times(c, f.size)..Times(c, f.size) + f.size]
  }

  ghost predicate SameCells(f: Ring, cells: seq<seq<byte>>)
    requires Shaped(f)
  {
    |cells| == f.num && forall c :: 0 <= c < f.num ==> Cell(f, c) == cells[c]
  }

  ghost predicate Refines(s: System, q: Queue) {
    && Inv(s) && Formed(q) && q.size == s.f.size && q.num == s.f.num && SameCells(s.f, q.cells)
    && q.committed == s.committed && q.popped == s.popped && q.seen == s.seen
    && (s.producer.Some? <==> q.reserved) && (s.consumer.Some? <==> q.looking)
  }

  /** The slot of the k-th entry is the cell k mod num. */
  lemma ImageIsCell(f: Ring, k: nat)
    requires Shaped(f)
    ensures k % f.num < f.num && At(f, k) == Times(k % f.num, f.size)
    ensures Image(f, k) == Cell(f, k % f.num)
  {
    MaskIsMod(k, f.num);
    AtInside(f, k);
  }

  lemma ReserveRefines(s: System, q: Queue, keepThree: bool)
    requires Refines(s, q)
    ensures Refines(Do(s, Reserve(keepThree)), QueueDo(q, Reserve(keepThree)))
  {
    ReserveKeeps(s, keepThree);
    UsedIsDifference(s.f, |s.popped|, |s.committed|);
  }

  lemma CellWritten(mem: seq<byte>, start: nat, size: nat, offset: nat, value: byte)
    requires start + size <= |mem| && offset < size
    ensures mem[start + offset := value][start..start + size] == mem[start..start + size][offset := value]
  {
  }

  lemma CellMissed(mem: seq<byte>, start: nat, size: nat, at: nat, value: byte)
    requires start + size <= |mem| && at < |mem| && !(start <= at < start + size)
    ensures mem[at := value][start..start + size] == mem[start..start + size]
  {
  }

  /** Where slots c and d of a buffer of num slots lie. */
  lemma SlotsApart(num: nat, size: nat, c: nat, d: nat)
    requires c < num && d < num && c != d
    ensures Times(d, size) + size <= Times(num, size)
    ensures Times(c, size) + size <= Times(d, size) || Times(d, size) + size <= Times(c, size)
  {
    TimesMonotone(d + 1, num, size);
    if d < c {
      TimesMonotone(d + 1, c, size);
    } else {
      TimesMonotone(c + 1, d, size);
    }
  }

  lemma SlotInside(num: nat, size: nat, c: nat)
    requires c < num
    ensures Times(c, size) + size <= Times(num, size)
  {
    TimesMonotone(c + 1, num, size);
  }

  /** Writing one byte of a cell leaves the other cells alone. */
  lemma CellsAfterFill(f: Ring, g: Ring, c: nat, start: nat, offset: nat, value: byte, d: nat)
    requires Shaped(f) && c < f.num && d < f.num && offset < f.size
    requires start == Times(c, f.size) && start + offset < |f.mem|
    requires g == f.(mem := f.mem[start + offset := value])
    ensures Cell(g, d) == if d == c then Cell(f, c)[offset := value] else Cell(f, d)
  {
    SlotInside(f.num, f.size, d);
    if d == c {
      CellWritten(f.mem, start, f.size, offset, value);
    } else {
      SlotsApart(f.num, f.size, c, d);
      CellMissed(f.mem, Times(d, f.size), f.size, start + offset, value);
    }
  }

  lemma FillRefines(s: System, q: Queue, offset: nat, value: byte)
    requires Refines(s, q)
    ensures Refines(Do(s, Fill(offset, value)), QueueDo(q, Fill(offset, value)))
  {
    FillKeeps(s, offset, value);
    QueueStaysFormed(q, Fill(offset, value));
    if s.producer.Some? && offset < s.f.size {
      var c, g := Current(q), Do(s, Fill(offset, value)).f;
      ImageIsCell(s.f, |s.committed|);
      AtInside(s.f, |s.committed|);
      forall d | 0 <= d < s.f.num
        ensures Cell(g, d) == QueueDo(q, Fill(offset, value)).cells[d]
      {
        CellsAfterFill(s.f, g, c, Times(c, s.f.size), offset, value, d);
      }
    }
  }

  lemma CellsKept(f: Ring, g: Ring, cells: seq<seq<byte>>)
    requires Shaped(f) && SameCells(f, cells) && g == f.(wptr := g.wptr, rptr := g.rptr)
    ensures SameCells(g, cells)
  {
    forall c | 0 <= c < g.num
      ensures Cell(g, c) == Cell(f, c)
    {
    }
  }

  lemma CommitRefines(s: System, q: Queue)
    requires Refines(s, q)
    ensures Refines(Do(s, Commit), QueueDo(q, Commit))
  {
    CommitKeeps(s);
    QueueStaysFormed(q, Commit);
    if s.producer.Some? {
      ImageIsCell(s.f, |s.committed|);
      AtInside(s.f, |s.committed|);
      CellsKept(s.f, Next(s.f), q.cells);
    }
  }

  lemma PeekRefines(s: System, q: Queue)
    requires Refines(s, q)
    ensures Refines(Do(s, Peek), QueueDo(q, Peek))
  {
    PeekKeeps(s);
    UsedIsDifference(s.f, |s.popped|, |s.committed|);
  }

  lemma ReadRefines(s: System, q: Queue, offset: nat)
    requires Refines(s, q)
    ensures Refines(Do(s, Read(offset)), QueueDo(q, Read(offset)))
  {
    ReadKeeps(s, offset);
    if s.consumer.Some? && offset < s.f.size {
      var r := |s.popped|;
      AtInside(s.f, r);
      assert Image(s.f, r)[offset] == s.f.mem[At(s.f, r) + offset];
      assert Image(s.f, r) == s.committed[r];
    }
  }

  lemma ReleaseRefines(s: System, q: Queue)
    requires Refines(s, q)
    ensures Refines(Do(s, Release), QueueDo(q, Release))
  {
    var r := |s.popped|;
    ReleaseKeeps(s);
    QueueStaysFormed(q, Release);
    UsedIsDifference(s.f, r, |s.committed|);
    if r < |s.committed| {
      AtInside(s.f, r);
      assert Image(s.f, r) == s.committed[r];
      CellsKept(s.f, Pop(s.f), q.cells);
    }
  }

  lemma StepRefines(s: System, q: Queue, step: Step)
    requires Refines(s, q)
    ensures Refines(Do(s, step), QueueDo(q, step))
  {
    match step
    case Reserve(keepThree) => ReserveRefines(s, q, keepThree);
    case Fill(offset, value) => FillRefines(s, q, offset, value);
    case Commit => CommitRefines(s, q);
    case Peek => PeekRefines(s, q);
    case Read(offset) => ReadRefines(s, q, offset);
    case Release => ReleaseRefines(s, q);
  }

  function QueueRun(q: Queue, steps: seq<Step>): Queue
    requires Formed(q)
    decreases steps
  {
    if steps == [] then q
    else
      QueueStaysFormed(q, steps[0]);
      QueueRun(QueueDo(q, steps[0]), steps[1..])
  }

  /** Every interleaving does on the ring what it does on the queue. */
  lemma {:induction false} RunRefines(s: System, q: Queue, steps: seq<Step>, s': System)
    requires Refines(s, q) && Reaches(s, steps, s')
    ensures Refines(s', QueueRun(q, steps))
    decreases steps
  {
    if steps != [] {
      StepRefines(s, q, steps[0]);
      QueueStaysFormed(q, steps[0]);
      RunRefines(Do(s, steps[0]), QueueDo(q, steps[0]), steps[1..], s');
    }
  }

  /** The queue a ring stands for. */
  function AsQueue(s: System): Queue
    requires Shaped(s.f)
  {
    Queue(s.f.size, s.f.num, seq(s.f.num, c requires 0 <= c < s.f.num => Cell(s.f, c)),
          s.committed, s.popped, s.producer.Some?, s.consumer.Some?, s.seen)
  }

  lemma StandsForQueue(s: System)
    requires Inv(s)
    ensures Refines(s, AsQueue(s))
  {
    forall k | |s.popped| <= k < |s.committed|
      ensures |s.committed[k]| == s.f.size
    {
      assert Image(s.f, k) == s.committed[k];
    }
  }

  /** From an empty ring: what is committed, popped and read, and what either side holds, is what the queue says. */
  lemma DeliversAsQueue(f: Ring, steps: seq<Step>, s: System)
    requires Shaped(f) && f.wptr == 0 && f.rptr == 0 && Reaches(Start(f), steps, s)
    ensures Formed(AsQueue(Start(f)))
    ensures var q := QueueRun(AsQueue(Start(f)), steps);
            && s.committed == q.committed && s.popped == q.popped && s.seen == q.seen
            && (s.producer.Some? <==> q.reserved) && (s.consumer.Some? <==> q.looking)
  {
    StandsForQueue(Start(f));
    RunRefines(Start(f), AsQueue(Start(f)), steps, s);
  }

  // -------------------------------------------------------- what a commit publishes

  /** The producer neither reserves nor commits; the consumer does what it likes. */
  predicate OnlyFills(steps: seq<Step>) {
    forall i :: 0 <= i < |steps| ==> !steps[i].Reserve? && !steps[i].Commit?
  }

  /** The bytes of a slot after the fills among the steps; a later fill of an offset wins. */
  function Overwritten(bytes: seq<byte>, steps: seq<Step>): (r: seq<byte>)
    ensures |r| == |bytes|
    decreases steps
  {
    if steps == [] then bytes
    else
      var b: seq<byte> :=
        if steps[0].Fill? && steps[0].offset < |bytes| then bytes[steps[0].offset := steps[0].value] else bytes;
      Overwritten(b, steps[1..])
  }

  /** Offset i holds the value of the last fill of it, and without one what was there before. */
  lemma {:induction false} OverwrittenAt(bytes: seq<byte>, steps: seq<Step>, i: nat, last: int)
    requires i < |bytes| && -1 <= last < |steps|
    requires last >= 0 ==> steps[last].Fill? && steps[last].offset == i
    requires forall j :: last < j < |steps| ==> !(steps[j].Fill? && steps[j].offset == i)
    ensures Overwritten(bytes, steps)[i] == if last >= 0 then steps[last].value else bytes[i]
    decreases steps
  {
    if steps != [] {
      var b: seq<byte> :=
        if steps[0].Fill? && steps[0].offset < |bytes| then bytes[steps[0].offset := steps[0].value] else bytes;
      OverwrittenAt(b, steps[1..], i, if last > 0 then last - 1 else -1);
    }
  }

  lemma {:induction false} FillsLand(q: Queue, steps: seq<Step>)
    requires Formed(q) && q.reserved && OnlyFills(steps)
    ensures var q' := QueueRun(q, steps);
            && Formed(q') && q'.reserved && q'.committed == q.committed && q'.num == q.num
            && q'.cells[Current(q)] == Overwritten(q.cells[Current(q)], steps)
    decreases steps
  {
    if steps != [] {
      QueueStaysFormed(q, steps[0]);
      FillsLand(QueueDo(q, steps[0]), steps[1..]);
    }
  }

  lemma {:induction false} QueueRunAppend(q: Queue, before: seq<Step>, after: seq<Step>)
    requires Formed(q)
    ensures Formed(QueueRun(q, before))
    ensures QueueRun(q, before + after) == QueueRun(QueueRun(q, before), after)
    decreases before
  {
    if before == [] {
      assert before + after == after;
    } else {
      QueueStaysFormed(q, before[0]);
      assert (before + after)[1..] == before[1..] + after;
      QueueRunAppend(QueueDo(q, before[0]), before[1..], after);
    }
  }

  /**
    A reservation that is granted, fills with the consumer at work in between,
    and a commit add exactly one entry: the old bytes of its slot, overwritten by
    the fills.
   */
  lemma FilledIsCommitted(s: System, keepThree: bool, fills: seq<Step>, s': System)
    requires Inv(s) && OnlyFills(fills)
    requires |s.committed| - |s.popped| + (if keepThree then 3 else 0) < s.f.num
    requires Reaches(s, [Reserve(keepThree)] + (fills + [Commit]), s')
    ensures s'.committed == s.committed + [Overwritten(Image(s.f, |s.committed|), fills)]
  {
    var q := AsQueue(s);
    var reserve, commit := Reserve(keepThree), [Commit];
    var steps := [reserve] + (fills + commit);
    StandsForQueue(s);
    RunRefines(s, q, steps, s');
    QueueStaysFormed(q, reserve);
    assert steps[1..] == fills + commit;
    var held := QueueDo(q, reserve);
    FillsLand(held, fills);
    QueueRunAppend(held, fills, commit);
    var filled := QueueRun(held, fills);
    QueueStaysFormed(filled, Commit);
    assert commit[1..] == [] && QueueRun(filled, commit) == QueueDo(filled, Commit);
    ImageIsCell(s.f, |s.committed|);
  }
}
