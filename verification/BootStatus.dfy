/**
  Why the chip booted: pm_update_status_info and the reboot branch of sys_init,
  over the analog registers that survive some kinds of reset and not others.
 */
module BootStatus {
  import opened Bits

  datatype Status = POWER_ON | REBOOT_BACK | DEEPRET_BACK | DEEP_BACK | REBOOT_DEEP_BACK

  /**
    r38 returns to 0xff at a power cycle or any reboot; r39 returns to 0x00 at a
    power cycle only; r7f marks a sleep with retention by a cleared bit 0.
   */
  datatype Regs = Regs(r38: byte, r39: byte, r7f: byte)

  predicate Bit0(x: byte) { x % 2 == 1 }

  predicate Bit1(x: byte) { x / 2 % 2 == 1 }

  function SetBit0(x: byte): byte { if Bit0(x) then x else x + 1 }

  function ClearBit0(x: byte): byte { if Bit0(x) then x - 1 else x }

  function SetBit1(x: byte): byte { if Bit1(x) then x else x + 2 }

  function ClearBit1(x: byte): byte { if Bit1(x) then x - 2 else x }

  function UpdateStatus(r: Regs): (Status, Regs) {
    var (st, r') :=
      if Bit0(r.r38) then
        if Bit0(r.r39) then (REBOOT_BACK, r.(r38 := ClearBit0(r.r38)))
        else (POWER_ON, r.(r38 := ClearBit0(r.r38), r39 := SetBit0(r.r39)))
      else if !Bit0(r.r7f) then (DEEPRET_BACK, r)
      else if Bit1(r.r39) then (REBOOT_DEEP_BACK, r.(r39 := ClearBit1(r.r39)))
      else (DEEP_BACK, r);
    (st, r'.(r7f := 0x01))
  }

  /** A reboot is marked and followed by a forced deep sleep. */
  function SysInit(r: Regs): (Status, Regs) {
    var (st, r') := UpdateStatus(r);
    (st, if st == REBOOT_BACK then r'.(r39 := SetBit1(r'.r39)) else r')
  }

  // -------------------------------------------------------------------- what can happen

  datatype Cause = PowerCycle(left7f: byte) | Reboot | DeepWake | RetentionWake

  /** A boot for some cause, or the application rewriting its share of the two registers. */
  datatype Event = Boot(cause: Cause) | AppWrite(r38: byte, r39: byte)

  /** What the cause has done to the registers when the program starts again. */
  function Arrive(r: Regs, c: Cause): Regs {
    match c
    case PowerCycle(left) => Regs(0xff, 0x00, left)
    case Reboot => r.(r38 := 0xff)
    case DeepWake => r.(r7f := 0x01)
    case RetentionWake => r.(r7f := 0x00)
  }

  /** The application leaves bit 0 of r38 and bits 0 and 1 of r39 alone. */
  predicate AppMayWrite(r: Regs, r38: byte, r39: byte) {
    (Bit0(r38) <==> Bit0(r.r38)) && (Bit0(r39) <==> Bit0(r.r39)) && (Bit1(r39) <==> Bit1(r.r39))
  }

  /** After a reboot the chip is asleep: nothing runs, and it does not wake with retention. */
  predicate Possible(last: Status, r: Regs, e: Event) {
    match e
    case AppWrite(r38, r39) => last != REBOOT_BACK && AppMayWrite(r, r38, r39)
    case Boot(c) => last == REBOOT_BACK ==> c != RetentionWake
  }

  /** What should be reported. */
  function Expected(last: Status, c: Cause): Status {
    match c
    case PowerCycle(_) => POWER_ON
    case Reboot => REBOOT_BACK
    case RetentionWake => DEEPRET_BACK
    case DeepWake => if last == REBOOT_BACK then REBOOT_DEEP_BACK else DEEP_BACK
  }

  /** The registers between boots, after a boot that reported `last`. */
  ghost predicate Settled(last: Status, r: Regs) {
    !Bit0(r.r38) && Bit0(r.r39) && (Bit1(r.r39) <==> last == REBOOT_BACK)
  }

  function After(last: Status, r: Regs, e: Event): (Status, Regs) {
    match e
    case Boot(c) => SysInit(Arrive(r, c))
    case AppWrite(r38, r39) => (last, r.(r38 := r38, r39 := r39))
  }

  function Reports(last: Status, r: Regs, events: seq<Event>): seq<Status>
    decreases events
  {
    if events == [] then []
    else
      var (st, r') := After(last, r, events[0]);
      (if events[0].Boot? then [st] else []) + Reports(st, r', events[1..])
  }

  function ExpectedReports(last: Status, events: seq<Event>): seq<Status>
    decreases events
  {
    if events == [] then []
    else if events[0].Boot? then
      var st := Expected(last, events[0].cause);
      [st] + ExpectedReports(st, events[1..])
    else ExpectedReports(last, events[1..])
  }

  predicate AllPossible(last: Status, r: Regs, events: seq<Event>)
    decreases events
  {
    events == [] ||
    (Possible(last, r, events[0]) &&
     var (st, r') := After(last, r, events[0]); AllPossible(st, r', events[1..]))
  }

  /** A boot leaves the application's bits as the cause left them. */
  predicate SameShare(r: Regs, r': Regs) {
    r.r38 / 2 == r'.r38 / 2 && r.r39 / 4 == r'.r39 / 4
  }

  lemma BootKeepsShare(r: Regs)
    ensures SameShare(r, SysInit(r).1)
  {
    LowBitsOnly(r.r38);
    LowBitsOnly(r.r39);
  }

  lemma LowBitsOnly(x: byte)
    ensures ClearBit0(x) / 2 == x / 2
    ensures SetBit0(x) / 4 == x / 4 && ClearBit1(x) / 4 == x / 4
    ensures SetBit1(x) / 4 == x / 4 && SetBit1(SetBit0(x)) / 4 == x / 4
  {
  }

  lemma BootReportsCause(last: Status, r: Regs, c: Cause)
    requires Settled(last, r) && Possible(last, r, Boot(c))
    ensures var (st, r') := SysInit(Arrive(r, c)); st == Expected(last, c) && Settled(st, r')
  {
  }

  lemma {:induction false} RunReportsCauses(last: Status, r: Regs, events: seq<Event>)
    requires Settled(last, r) && AllPossible(last, r, events)
    ensures Reports(last, r, events) == ExpectedReports(last, events)
    decreases events
  {
    if events != [] {
      match events[0]
      case Boot(c) =>
        BootReportsCause(last, r, c);
        var (st, r') := SysInit(Arrive(r, c));
        RunReportsCauses(st, r', events[1..]);
      case AppWrite(r38, r39) =>
        RunReportsCauses(last, r.(r38 := r38, r39 := r39), events[1..]);
    }
  }

  /** From the first power-up on, whatever the registers held: every boot reports what brought it about. */
  lemma EveryBootReported(r: Regs, left7f: byte, events: seq<Event>)
    requires var (st, r') := After(POWER_ON, r, Boot(PowerCycle(left7f))); AllPossible(st, r', events)
    ensures Reports(POWER_ON, r, [Boot(PowerCycle(left7f))] + events) == [POWER_ON] + ExpectedReports(POWER_ON, events)
  {
    var all := [Boot(PowerCycle(left7f))] + events;
    var (st, r') := After(POWER_ON, r, all[0]);
    assert all[1..] == events;
    RunReportsCauses(st, r', events);
  }

  // ------------------------------------------------------------------------ the object

  /** The analog registers and the global status. */
  class Chip {
    var r38: byte
    var r39: byte
    var r7f: byte
    var mcuStatus: Status

    function State(): Regs
      reads this
    {
      Regs(r38, r39, r7f)
    }

    method PmUpdateStatusInfo()
      modifies this
      ensures (mcuStatus, State()) == UpdateStatus(old(State()))
      ensures SameShare(old(State()), State()) && r7f == 0x01
    {
      var analog38, analog39 := r38, r39;
      if Bit0(analog38) {
        if Bit0(analog39) {
          mcuStatus := REBOOT_BACK;
          r38 := ClearBit0(analog38);
        } else {
          mcuStatus := POWER_ON;
          r38 := ClearBit0(analog38);
          r39 := SetBit0(analog39);
        }
      } else {
        if !Bit0(r7f) {
          mcuStatus := DEEPRET_BACK;
        } else if Bit1(analog39) {
          mcuStatus := REBOOT_DEEP_BACK;
          r39 := ClearBit1(analog39);
        } else {
          mcuStatus := DEEP_BACK;
        }
      }
      r7f := 0x01;
    }

    /** Returns whether sys_init puts the chip into a forced deep sleep. */
    method SysInitStatus() returns (forcedSleep: bool)
      modifies this
      ensures (mcuStatus, State()) == SysInit(old(State()))
      ensures SameShare(old(State()), State()) && r7f == 0x01
      ensures forcedSleep <==> mcuStatus == REBOOT_BACK
    {
      PmUpdateStatusInfo();
      forcedSleep := false;
      if mcuStatus == REBOOT_BACK {
        r39 := SetBit1(r39);
        forcedSleep := true;
      }
    }
  }
}
