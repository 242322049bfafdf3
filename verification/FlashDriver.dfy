/**
  The flash driver of flash.c on top of the memory SPI controller of mspi.h.
  Waiting for the controller and the interrupt bookkeeping around each operation
  have no effect on the state modelled here.
 */
module FlashDriver {
  import opened Bits
  import opened NorDevice

  const POLL_BOUND: nat := 10_000_000

  /** The controller, with the device behind it. */
  class Mspi {
    var dev: Nor
    var csHigh: bool
    var rdTrig: bool
    var data: byte
    // flash_cnt, which counts the finished waits modulo 256.
    var flashCnt: byte
    // The operations the array has carried out, oldest first.
    var log: seq<Op>
    // For how many status reads the k-th operation keeps the device busy.
    const latency: nat -> nat

    constructor (dev: Nor, latency: nat -> nat)
      requires Sound(dev)
      ensures this.dev == dev && this.latency == latency
      ensures csHigh && !rdTrig && log == [] && flashCnt == 1
    {
      this.dev, this.latency := dev, latency;
      csHigh, rdTrig, data, flashCnt, log := true, false, 0, 1, [];
    }

    ghost predicate Valid()
      reads this
    {
      Sound(dev)
    }

    /** The device once chip select is high. */
    function Risen(): (r: Nor)
      requires Valid()
      reads this
      ensures Sound(r)
    {
      if csHigh then dev else Rise(dev, latency(|log|))
    }

    function LogRisen(): seq<Op>
      reads this
    {
      if csHigh then log else match Started(dev) case Run(op) => log + [op] case Nothing => log
    }

    method High()
      requires Valid()
      modifies this`dev, this`csHigh, this`log
      ensures Valid() && csHigh && dev == old(Risen()) && log == old(LogRisen())
    {
      if !csHigh {
        var start := Started(dev);
        dev := Rise(dev, latency(|log|));
        if start.Run? {
          log := log + [start.op];
        }
        csHigh := true;
      }
    }

    method Low()
      requires Valid()
      modifies this`dev, this`csHigh
      ensures Valid() && !csHigh && dev == if old(csHigh) then old(dev).(rx := []) else old(dev)
    {
      if csHigh {
        csHigh := false;
        dev := dev.(rx := []);
      }
    }

    /** One byte out, one byte in; nothing moves while chip select is high. */
    method Write(c: byte)
      requires Valid()
      modifies this`dev, this`data
      ensures Valid()
      ensures !csHigh ==> data == Output(old(dev)) && dev == Clock(old(dev), c)
      ensures csHigh ==> data == old(data) && dev == old(dev)
    {
      if !csHigh {
        data := Output(dev);
        dev := Clock(dev, c);
      }
    }

    /** Reading the data register; in automatic mode the read clocks in the next byte. */
    method Get() returns (c: byte)
      requires Valid()
      modifies this`dev, this`data
      ensures Valid() && c == old(data)
      ensures rdTrig && !csHigh ==> data == Output(old(dev)) && dev == Clock(old(dev), 0)
      ensures !rdTrig || csHigh ==> data == old(data) && dev == old(dev)
    {
      c := data;
      if rdTrig {
        Write(0);
      }
    }

    method SetReadTrigger(on: bool)
      modifies this`rdTrig
      ensures rdTrig == on
    {
      rdTrig := on;
    }

    /** mspi_read: a dummy write, then the data register. */
    method Read() returns (c: byte)
      requires Valid() && !rdTrig
      modifies this`dev, this`data
      ensures Valid()
      ensures !csHigh ==> c == Output(old(dev)) && dev == Clock(old(dev), 0)
      ensures csHigh ==> c == old(data) && dev == old(dev)
    {
      Write(0);
      c := Get();
    }

    // ------------------------------------------------------------ the driver

    /** No operation is running, and if a transfer is open it is a read. */
    ghost predicate Idle()
      reads this
    {
      Valid() && dev.busyFor == 0 && !rdTrig && (!csHigh ==> dev.rx != [] && dev.rx[0] == READ_CMD)
    }

    /** Every operation ends within the driver's poll bound. */
    ghost predicate Prompt() {
      forall k: nat :: latency(k) < POLL_BOUND
    }

    method SendCmd(cmd: byte)
      requires Valid() && !rdTrig
      modifies this`dev, this`csHigh, this`log, this`data
      ensures Valid() && !csHigh
      ensures dev == old(Risen()).(rx := [cmd]) && log == old(LogRisen())
    {
      High();
      Low();
      Write(cmd);
    }

    method SendAddr(addr: nat)
      requires Valid() && !csHigh && |dev.rx| == 1 && dev.rx[0] != READ_STATUS_CMD
      modifies this`dev, this`data
      ensures Valid()
      ensures |dev.rx| == 4 && dev.rx[0] == old(dev.rx[0]) && Address(dev.rx) == addr % CAPACITY
      ensures dev == old(dev).(rx := dev.rx)
    {
      Write((addr / 0x1_0000) % 0x100);
      Write((addr / 0x100) % 0x100);
      Write(addr % 0x100);
      AddressOfBytes(addr, dev.rx);
    }

    /** Polls the busy bit; gives up after POLL_BOUND reads. */
    method WaitDone()
      requires Valid() && !rdTrig
      modifies this`dev, this`csHigh, this`log, this`data, this`flashCnt
      ensures Valid() && csHigh && log == old(LogRisen())
      ensures var d := old(Risen());
              dev == d.(rx := [], busyFor := if d.busyFor < POLL_BOUND then 0 else d.busyFor - POLL_BOUND)
      ensures flashCnt == if old(Risen()).busyFor < POLL_BOUND then (old(flashCnt) + 1) % 0x100 else old(flashCnt)
    {
      ghost var d, l := Risen(), LogRisen();
      SendCmd(READ_STATUS_CMD);
      var i := 0;
      while i < POLL_BOUND
        invariant 0 <= i <= POLL_BOUND && i <= d.busyFor
        invariant Valid() && !csHigh && log == l && flashCnt == old(flashCnt)
        invariant dev.rx != [] && dev.rx[0] == READ_STATUS_CMD
        invariant dev == d.(rx := dev.rx, busyFor := d.busyFor - i)
      {
        var status := Read();
        if status % 2 == 0 {
          flashCnt := (flashCnt + 1) % 0x100;
          break;
        }
        i := i + 1;
      }
      High();
    }

    /** Ends whatever transfer is open; a read has no effect on the array. */
    method StopXip()
      requires Idle()
      modifies this`dev, this`csHigh, this`log
      ensures Idle() && csHigh
      ensures dev.mem == old(dev.mem) && dev.wel == old(dev.wel) && log == old(log)
    {
      High();
    }

    /** Write enable, then the command with its address: how erasing and programming begin. */
    method BeginModify(cmd: byte, addr: nat)
      requires Idle() && cmd != READ_STATUS_CMD
      modifies this`dev, this`csHigh, this`log, this`data
      ensures Valid() && !csHigh && log == old(log)
      ensures |dev.rx| == 4 && dev.rx[0] == cmd && Address(dev.rx) == addr % CAPACITY
      ensures dev == old(dev).(wel := true, rx := dev.rx)
    {
      StopXip();
      SendCmd(WRITE_ENABLE_CMD);
      SendCmd(cmd);
      SendAddr(addr);
    }

    /** Chip select up, and wait for what that started. */
    method EndModify()
      requires Valid() && !csHigh && !rdTrig && dev.busyFor == 0 && Prompt()
      modifies this`dev, this`csHigh, this`log, this`data, this`flashCnt
      ensures Idle() && csHigh && log == old(LogRisen())
      ensures dev.mem == old(Risen()).mem && dev.wel == old(Risen()).wel
    {
      High();
      WaitDone();
    }

    /** flash_erase_sector_ram and its siblings, which differ in the command only. */
    method EraseRam(cmd: byte, addr: nat)
      requires Idle() && Prompt() && EraseSpan(cmd) > 0
      modifies this`dev, this`csHigh, this`log, this`data, this`flashCnt
      ensures Idle() && csHigh && !dev.wel
      ensures BlockBase(addr % CAPACITY, EraseSpan(cmd)) + EraseSpan(cmd) <= CAPACITY
      ensures dev.mem == EraseBlock(old(dev.mem), BlockBase(addr % CAPACITY, EraseSpan(cmd)), EraseSpan(cmd))
      ensures log == old(log) + [Erase(BlockBase(addr % CAPACITY, EraseSpan(cmd)), EraseSpan(cmd))]
    {
      BeginModify(cmd, addr);
      StartedInRange(dev);
      EndModify();
    }

    /** Everything in the aligned block of `span` bytes around addr is erased, and nothing else changes. */
    static ghost predicate BlockErased(before: seq<byte>, after: seq<byte>, addr: nat, span: nat)
      requires span > 0
    {
      var start := addr % CAPACITY - addr % CAPACITY % span;
      |before| == |after| == CAPACITY &&
      forall k :: 0 <= k < CAPACITY ==> after[k] == if start <= k < start + span then 0xff else before[k]
    }

    method EraseSectorRam(addr: nat)
      requires Idle() && Prompt()
      modifies this`dev, this`csHigh, this`log, this`data, this`flashCnt
      ensures Idle() && BlockErased(old(dev.mem), dev.mem, addr, 0x1000)
    {
      EraseRam(SECT_ERASE_CMD, addr);
    }

    method ErasePageRam(addr: nat)
      requires Idle() && Prompt()
      modifies this`dev, this`csHigh, this`log, this`data, this`flashCnt
      ensures Idle() && BlockErased(old(dev.mem), dev.mem, addr, 0x100)
    {
      EraseRam(PAGE_ERASE_CMD, addr);
    }

    method Erase32kBlockRam(addr: nat)
      requires Idle() && Prompt()
      modifies this`dev, this`csHigh, this`log, this`data, this`flashCnt
      ensures Idle() && BlockErased(old(dev.mem), dev.mem, addr, 0x8000)
    {
      EraseRam(BLOCK_32K_ERASE_CMD, addr);
    }

    method Erase64kBlockRam(addr: nat)
      requires Idle() && Prompt()
      modifies this`dev, this`csHigh, this`log, this`data, this`flashCnt
      ensures Idle() && BlockErased(old(dev.mem), dev.mem, addr, 0x1_0000)
    {
      EraseRam(BLOCK_64K_ERASE_CMD, addr);
    }

    /** One page program. Without data the device does nothing and stays write-enabled. */
    method WritePageRam(addr: nat, len: nat, buf: array<byte>, offset: nat)
      requires Idle() && Prompt() && offset + len <= buf.Length
      modifies this`dev, this`csHigh, this`log, this`data, this`flashCnt
      ensures Idle() && csHigh && dev.wel == (len == 0)
      ensures len > 0 ==>
                && dev.mem == PageProgram(old(dev.mem), addr % CAPACITY, buf[offset..offset + len])
                && log == old(log) + [Program(addr % CAPACITY, buf[offset..offset + len])]
      ensures len == 0 ==> dev.mem == old(dev.mem) && log == old(log)
    {
      BeginModify(WRITE_CMD, addr);
      ghost var d := dev;
      var i := 0;
      while i < len
        invariant i <= len
        invariant Valid() && !csHigh && log == old(log)
        invariant dev == d.(rx := d.rx + buf[offset..offset + i])
      {
        Write(buf[offset + i]);
        i := i + 1;
      }
      assert dev.rx[4..] == buf[offset..offset + len];
      assert Address(dev.rx) == Address(d.rx);
      EndModify();
    }

    /** Part of a write is done: what is left to do would complete it. */
    static ghost predicate Underway(mem0: seq<byte>, a0: nat, all: seq<byte>,
                                    mem: seq<byte>, a: nat, rest: seq<byte>, done: seq<Op>)
    {
      && |mem0| == CAPACITY == |mem| && a0 < CAPACITY && a < CAPACITY
      && FlatProgram(mem, a, rest) == FlatProgram(mem0, a0, all)
      && done + Chunks(a, rest) == Chunks(a0, all)
    }

    static lemma UnderwayStep(mem0: seq<byte>, a0: nat, all: seq<byte>,
                              mem: seq<byte>, a: nat, rest: seq<byte>, done: seq<Op>, mid: seq<byte>, n: nat)
      requires Underway(mem0, a0, all, mem, a, rest, done) && rest != []
      requires n == FirstChunk(a, |rest|)
      requires mid == PageProgram(mem, a, rest[..n])
      ensures Underway(mem0, a0, all, mid, (a + n) % CAPACITY, rest[n..], done + [Program(a, rest[..n])])
    {
      ChunkStep(mem, a, rest, n, mid);
      var later := Chunks((a + n) % CAPACITY, rest[n..]);
      assert done + ([Program(a, rest[..n])] + later) == done + [Program(a, rest[..n])] + later;
    }

    /** The address counter wraps at 2^32, a multiple of the capacity. */
    static lemma NextChunk(addr: nat, n: nat)
      ensures ((addr + n) % U32) % CAPACITY == (addr % CAPACITY + n) % CAPACITY
      ensures addr % PAGE_SIZE + n == PAGE_SIZE ==> ((addr + n) % U32) % PAGE_SIZE == 0
      ensures (addr % CAPACITY) % PAGE_SIZE == addr % PAGE_SIZE
    {
      ModOfMod(addr + n, CAPACITY, 0x100);
      DivModSplit(addr, CAPACITY);
      ModShift(addr % CAPACITY + n, CAPACITY, addr / CAPACITY);
      PageOffsets(addr, n);
    }

    static lemma PageOffsets(addr: nat, n: nat)
      ensures addr % PAGE_SIZE + n == PAGE_SIZE ==> ((addr + n) % U32) % PAGE_SIZE == 0
      ensures (addr % CAPACITY) % PAGE_SIZE == addr % PAGE_SIZE
    {
      ModOfMod(addr + n, PAGE_SIZE, 0x100_0000);
      ModOfMod(addr, PAGE_SIZE, 0x1_0000);
      DivModSplit(addr, PAGE_SIZE);
      if addr % PAGE_SIZE + n == PAGE_SIZE {
        ModUnique(addr + n, PAGE_SIZE, addr / PAGE_SIZE + 1, 0);
      }
    }

    static lemma LogTail(log: seq<Op>, from: nat, op: Op)
      requires from <= |log|
      ensures (log + [op])[from..] == log[from..] + [op]
    {
    }

    static lemma UnderwayChunk(mem0: seq<byte>, a0: nat, all: seq<byte>, mem: seq<byte>, a: nat, at: nat, n: nat,
                               log: seq<Op>, from: nat, mid: seq<byte>, log': seq<Op>, chunk: seq<byte>)
      requires at + n <= |all| && from <= |log| && n == FirstChunk(a, |all| - at) && chunk == all[at..at + n]
      requires Underway(mem0, a0, all, mem, a, all[at..], log[from..])
      requires mid == if n == 0 then mem else PageProgram(mem, a, chunk)
      requires log' == if n == 0 then log else log + [Program(a, chunk)]
      ensures Underway(mem0, a0, all, mid, (a + n) % CAPACITY, all[at + n..], log'[from..])
    {
      if n == 0 {
        InsideIsPlain(a);
      } else {
        var rest := all[at..];
        assert rest[..n] == chunk && rest[n..] == all[at + n..];
        LogTail(log, from, Program(a, chunk));
        UnderwayStep(mem0, a0, all, mem, a, rest, log[from..], mid, n);
      }
    }

    /** One pass of the loop of flash_write_page; the write began when the log had `from` entries. */
    method WriteChunk(addr: nat, nw: nat, buf: array<byte>, at: nat,
                      ghost mem0: seq<byte>, ghost a0: nat, ghost all: seq<byte>, ghost from: nat)
      requires Idle() && Prompt() && at + nw <= |all| <= buf.Length && all == buf[..|all|] && from <= |log|
      requires nw == FirstChunk(addr % CAPACITY, |all| - at)
      requires Underway(mem0, a0, all, dev.mem, addr % CAPACITY, all[at..], log[from..])
      modifies this`dev, this`csHigh, this`log, this`data, this`flashCnt
      ensures Idle() && csHigh && dev.wel == (nw == 0)
      ensures old(log) <= log
      ensures Underway(mem0, a0, all, dev.mem, (addr % CAPACITY + nw) % CAPACITY, all[at + nw..], log[from..])
    {
      ghost var mem, log0, chunk := dev.mem, log, buf[at..at + nw];
      WritePageRam(addr, nw, buf, at);
      assert chunk == all[at..at + nw];
      UnderwayChunk(mem0, a0, all, mem, addr % CAPACITY, at, nw, log0, from, dev.mem, log, chunk);
    }

    /** The loop of flash_write_page: any length, cut at page boundaries. */
    method WriteChunks(addr0: nat, len0: nat, buf: array<byte>)
      requires Idle() && Prompt() && len0 <= buf.Length && addr0 < U32 && len0 < U32
      modifies this`dev, this`csHigh, this`log, this`data, this`flashCnt
      ensures Idle() && csHigh && dev.wel == (len0 == 0)
      ensures dev.mem == FlatProgram(old(dev.mem), addr0 % CAPACITY, buf[..len0])
      ensures log == old(log) + Chunks(addr0 % CAPACITY, buf[..len0])
    {
      var addr: nat, len: nat, at: nat := addr0, len0, 0;
      var ns := PAGE_SIZE - addr % PAGE_SIZE;
      var more := true;
      ghost var all, mem0, log0 := buf[..len0], dev.mem, log;
      while more
        invariant Idle() && at + len == len0
        invariant more ==> ns == PAGE_SIZE - addr % PAGE_SIZE && (len > 0 || len0 == 0)
        invariant !more ==> len == 0 && csHigh && dev.wel == (len0 == 0)
        invariant log0 <= log
        invariant Underway(mem0, addr0 % CAPACITY, all, dev.mem, addr % CAPACITY, all[at..], log[|log0|..])
        decreases more, len
      {
        var nw := if len > ns then ns else len;
        NextChunk(addr, nw);
        WriteChunk(addr, nw, buf, at, mem0, addr0 % CAPACITY, all, |log0|);
        ns := PAGE_SIZE;
        addr := (addr + nw) % U32;
        at := at + nw;
        len := len - nw;
        more := len > 0;
      }
      assert all[at..] == [];
    }

    /** flash_write_page: one flat update of the array, and what becomes of every bit. */
    method WritePage(addr: nat, len: nat, buf: array<byte>)
      requires Idle() && Prompt() && len <= buf.Length && addr < U32 && len < U32
      modifies this`dev, this`csHigh, this`log, this`data, this`flashCnt
      ensures Idle() && csHigh && dev.wel == (len == 0)
      ensures dev.mem == FlatProgram(old(dev.mem), addr % CAPACITY, buf[..len])
      ensures BitsProgrammed(old(dev.mem), dev.mem, addr % CAPACITY, buf[..len])
      ensures log == old(log) + Chunks(addr % CAPACITY, buf[..len])
    {
      FlatProgramBits(dev.mem, addr % CAPACITY, buf[..len]);
      WriteChunks(addr, len, buf);
    }

    /** A streaming read through the automatic mode: one byte is always fetched ahead. */
    method ReadPageRam(addr: nat, len: nat, buf: array<byte>)
      requires Idle() && len <= buf.Length
      modifies this`dev, this`csHigh, this`log, this`data, this`rdTrig, buf
      ensures Idle() && csHigh && dev.mem == old(dev.mem) && dev.wel == old(dev.wel) && log == old(log)
      ensures forall k :: 0 <= k < len ==> buf[k] == dev.mem[(addr % CAPACITY + k) % CAPACITY]
      ensures forall k :: len <= k < buf.Length ==> buf[k] == old(buf[k])
    {
      StopXip();
      SendCmd(READ_CMD);
      SendAddr(addr);
      ghost var d := dev;
      Write(0);
      SetReadTrigger(true);
      var i := 0;
      while i < len
        invariant i <= len
        invariant Valid() && !csHigh && rdTrig && log == old(log)
        invariant |dev.rx| == 5 + i && dev.rx[..4] == d.rx && dev == d.(rx := dev.rx)
        invariant data == dev.mem[(addr % CAPACITY + i) % CAPACITY]
        invariant forall k :: 0 <= k < i ==> buf[k] == dev.mem[(addr % CAPACITY + k) % CAPACITY]
        invariant forall k :: len <= k < buf.Length ==> buf[k] == old(buf[k])
      {
        assert Address(dev.rx) == Address(dev.rx[..4]);
        buf[i] := Get();
        i := i + 1;
      }
      SetReadTrigger(false);
      High();
    }
  }

  /** Erase a sector, write inside it, read back: the buffer comes back for every length. */
  method EraseWriteReadBack(m: Mspi, addr: nat, len: nat, buf: array<byte>, out: array<byte>)
    requires m.Idle() && m.Prompt() && buf != out && len <= buf.Length && len <= out.Length
    requires addr < CAPACITY && addr + len <= BlockBase(addr, EraseSpan(SECT_ERASE_CMD)) + EraseSpan(SECT_ERASE_CMD)
    modifies m`dev, m`csHigh, m`log, m`data, m`flashCnt, m`rdTrig, out
    ensures m.Idle() && out[..len] == buf[..len]
  {
    var span := EraseSpan(SECT_ERASE_CMD);
    var base := BlockBase(addr, span);
    ghost var mem, data := m.dev.mem, buf[..len];
    InsideIsPlain(addr);
    m.EraseRam(SECT_ERASE_CMD, addr);
    ghost var erased := EraseBlock(mem, base, span);
    assert m.dev.mem == erased;
    m.WritePage(addr, len, buf);
    ghost var written := m.dev.mem;
    assert written == FlatProgram(erased, addr, data);
    m.ReadPageRam(addr, len, out);
    assert m.dev.mem == written;
    assert forall k :: 0 <= k < len ==> out[..len][k] == written[(addr + k) % CAPACITY];
    EraseWriteReadAll(mem, base, span, addr, data, out[..len]);
  }
}
