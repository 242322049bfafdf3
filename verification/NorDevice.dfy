/**
  A serial NOR flash as its datasheets describe it: commands are the bytes
  clocked in while chip select is low, and programming and erasing start on the
  rising edge of chip select, only with the write-enable latch set.
 */
module NorDevice {
  import opened Bits

  const CAPACITY: nat := 0x100_0000
  const PAGE_SIZE: nat := 256

  const WRITE_CMD: byte := 0x02
  const READ_CMD: byte := 0x03
  const READ_STATUS_CMD: byte := 0x05
  const WRITE_ENABLE_CMD: byte := 0x06
  const SECT_ERASE_CMD: byte := 0x20
  const BLOCK_32K_ERASE_CMD: byte := 0x52
  const PAGE_ERASE_CMD: byte := 0x81
  const BLOCK_64K_ERASE_CMD: byte := 0xD8

  /** What the array is made to do. */
  datatype Op =
    | Program(addr: nat, data: seq<byte>)
    | Erase(base: nat, span: nat)

  /**
    mem: the array; wel: the write-enable latch; busyFor: how many status reads
    will still report busy; rx: the bytes received since chip select fell.
   */
  datatype Nor = Nor(mem: seq<byte>, wel: bool, busyFor: nat, rx: seq<byte>)

  ghost predicate Sound(d: Nor) {
    |d.mem| == CAPACITY
  }

  /** The number of bytes an erase command clears, 0 for any other command. */
  function EraseSpan(cmd: byte): nat {
    if cmd == PAGE_ERASE_CMD then 0x100
    else if cmd == SECT_ERASE_CMD then 0x1000
    else if cmd == BLOCK_32K_ERASE_CMD then 0x8000
    else if cmd == BLOCK_64K_ERASE_CMD then 0x1_0000
    else 0
  }

  /** The start of the aligned block an address lies in. */
  function BlockBase(addr: nat, span: nat): nat
    requires span > 0
  {
    addr - addr % span
  }

  function Address(rx: seq<byte>): (r: nat)
    requires |rx| >= 4
    ensures r < CAPACITY
  {
    (rx[1] as int) * 0x1_0000 + (rx[2] as int) * 0x100 + rx[3]
  }

  /** The three address bytes a driver sends carry the address modulo the capacity. */
  lemma AddressOfBytes(addr: nat, rx: seq<byte>)
    requires |rx| >= 4
    requires rx[1] == (addr / 0x1_0000) % 0x100 && rx[2] == (addr / 0x100) % 0x100 && rx[3] == addr % 0x100
    ensures Address(rx) == addr % CAPACITY
  {
    var x, y := addr / 0x100, addr / 0x1_0000;
    assert addr == 0x100 * x + rx[3];
    assert x == 0x100 * y + rx[2] by { DivDiv(addr, 0x100, 0x100); }
    assert y == 0x100 * (y / 0x100) + rx[1];
    ModUnique(addr, CAPACITY, y / 0x100, Address(rx));
  }

  /** The operation that a rising edge of chip select starts, if any. */
  datatype Start = Nothing | Run(op: Op)

  function Started(d: Nor): Start {
    if d.busyFor > 0 || !d.wel || |d.rx| < 4 then Nothing
    else if d.rx[0] == WRITE_CMD && |d.rx| > 4 then Run(Program(Address(d.rx), d.rx[4..]))
    else if EraseSpan(d.rx[0]) > 0 && |d.rx| == 4 then
      Run(Erase(BlockBase(Address(d.rx), EraseSpan(d.rx[0])), EraseSpan(d.rx[0])))
    else Nothing
  }

  /** The page buffer: bytes are latched at rising offsets and wrap inside the page. */
  function LoadPage(buffer: seq<byte>, offset: nat, data: seq<byte>): (r: seq<byte>)
    requires |buffer| == PAGE_SIZE && offset < PAGE_SIZE
    ensures |r| == PAGE_SIZE
    decreases data
  {
    if data == [] then buffer
    else LoadPage(buffer[offset := data[0]], (offset + 1) % PAGE_SIZE, data[1..])
  }

  function AndByte(x: byte, y: byte): byte {
    AndBound(x, y);
    And(x, y)
  }

  function Ones(n: nat): (r: seq<byte>)
    ensures |r| == n
    ensures forall k :: 0 <= k < n ==> r[k] == 0xff
  {
    seq(n, _ => 0xff)
  }

  /** AND data into a flat, circular array, byte by byte; programming can only clear bits. */
  function FlatProgram(mem: seq<byte>, addr: nat, data: seq<byte>): (r: seq<byte>)
    requires |mem| == CAPACITY && addr < CAPACITY
    ensures |r| == CAPACITY
    decreases data
  {
    if data == [] then mem
    else FlatProgram(mem[addr := AndByte(mem[addr], data[0])], (addr + 1) % CAPACITY, data[1..])
  }

  /** The page buffer, erased bytes where nothing was loaded, goes into the page addr lies in. */
  function PageProgram(mem: seq<byte>, addr: nat, data: seq<byte>): (r: seq<byte>)
    requires |mem| == CAPACITY && addr < CAPACITY
    ensures |r| == CAPACITY
  {
    FlatProgram(mem, BlockBase(addr, PAGE_SIZE), LoadPage(Ones(PAGE_SIZE), addr % PAGE_SIZE, data))
  }

  function EraseBlock(mem: seq<byte>, base: nat, span: nat): (r: seq<byte>)
    requires |mem| == CAPACITY && base + span <= CAPACITY
    ensures |r| == CAPACITY
    ensures forall k :: 0 <= k < CAPACITY ==> r[k] == if base <= k < base + span then 0xff else mem[k]
  {
    mem[..base] + Ones(span) + mem[base + span..]
  }

  /** The operation stays inside the array. */
  predicate OpInRange(op: Op) {
    match op
    case Program(addr, data) => addr < CAPACITY
    case Erase(base, span) => base + span <= CAPACITY
  }

  function Apply(mem: seq<byte>, op: Op): (r: seq<byte>)
    requires |mem| == CAPACITY
    ensures |r| == CAPACITY
  {
    if !OpInRange(op) then mem else
    match op
    case Program(addr, data) => PageProgram(mem, addr, data)
    case Erase(base, span) => EraseBlock(mem, base, span)
  }

  /** Aligned blocks of the erase sizes never stick out of the array. */
  lemma StartedInRange(d: Nor)
    ensures Started(d).Run? ==> OpInRange(Started(d).op)
  {
  }

  /** Chip select rises. An operation started here keeps the device busy for `latency` status reads. */
  function Rise(d: Nor, latency: nat): (r: Nor)
    requires Sound(d)
    ensures Sound(r)
  {
    StartedInRange(d);
    match Started(d)
    case Run(op) => Nor(Apply(d.mem, op), false, latency, [])
    case Nothing => d.(wel := d.wel || (d.busyFor == 0 && d.rx == [WRITE_ENABLE_CMD]), rx := [])
  }

  /** One byte is clocked in; the device answers with one byte. */
  function Output(d: Nor): byte
    requires Sound(d)
  {
    if d.rx == [] then 0
    else if d.rx[0] == READ_STATUS_CMD then (if d.busyFor > 0 then 1 else 0) + (if d.wel then 2 else 0)
    else if d.rx[0] == READ_CMD && |d.rx| >= 4 && d.busyFor == 0 then
      d.mem[(Address(d.rx) + (|d.rx| - 4)) % CAPACITY]
    else 0
  }

  function Clock(d: Nor, c: byte): (r: Nor)
    ensures r.mem == d.mem && r.wel == d.wel && r.rx == d.rx + [c]
  {
    if d.rx != [] && d.rx[0] == READ_STATUS_CMD && d.busyFor > 0 then d.(busyFor := d.busyFor - 1, rx := d.rx + [c])
    else d.(rx := d.rx + [c])
  }

  // ------------------------------------------------------ the flat view of the array

  lemma NextAddress(addr: nat, n: nat)
    requires n > 0
    ensures ((addr + 1) % CAPACITY + (n - 1)) % CAPACITY == (addr + n) % CAPACITY
  {
    DivModSplit(addr + 1, CAPACITY);
    ModShift((addr + 1) % CAPACITY + (n - 1), CAPACITY, (addr + 1) / CAPACITY);
  }

  lemma {:induction false} FlatProgramAppend(mem: seq<byte>, addr: nat, d1: seq<byte>, d2: seq<byte>)
    requires |mem| == CAPACITY && addr < CAPACITY
    ensures FlatProgram(mem, addr, d1 + d2)
         == FlatProgram(FlatProgram(mem, addr, d1), (addr + |d1|) % CAPACITY, d2)
    decreases d1
  {
    if d1 == [] {
      InsideIsPlain(addr);
      assert d1 + d2 == d2;
    } else {
      assert (d1 + d2)[1..] == d1[1..] + d2;
      NextAddress(addr, |d1|);
      FlatProgramAppend(mem[addr := AndByte(mem[addr], d1[0])], (addr + 1) % CAPACITY, d1[1..], d2);
    }
  }

  /** Inside the array: old AND data where data was written, old elsewhere. */
  lemma {:induction false} FlatProgramAt(mem: seq<byte>, addr: nat, data: seq<byte>, k: nat)
    requires |mem| == CAPACITY && addr + |data| <= CAPACITY && addr < CAPACITY && k < CAPACITY
    ensures FlatProgram(mem, addr, data)[k]
         == if addr <= k < addr + |data| then AndByte(mem[k], data[k - addr]) else mem[k]
    decreases data
  {
    if data != [] {
      var mem' := mem[addr := AndByte(mem[addr], data[0])];
      if |data| == 1 {
        assert FlatProgram(mem', (addr + 1) % CAPACITY, data[1..]) == mem';
      } else {
        FlatProgramAt(mem', addr + 1, data[1..], k);
      }
    }
  }

  /** No byte of data that is written to position i clears bit k. */
  ghost predicate Spared(data: seq<byte>, addr: nat, i: nat, k: nat) {
    forall j :: 0 <= j < |data| && (addr + j) % CAPACITY == i ==> Bit(data[j], k)
  }

  /** A bit is set afterwards if it was set before and in all the data that was written over it. */
  ghost predicate BitsProgrammed(before: seq<byte>, after: seq<byte>, addr: nat, data: seq<byte>) {
    && |before| == |after| == CAPACITY
    && forall i, k: nat :: 0 <= i < CAPACITY ==> (Bit(after[i], k) <==> Bit(before[i], k) && Spared(data, addr, i, k))
  }

  lemma SparedSplit(data: seq<byte>, addr: nat, i: nat, k: nat)
    requires data != [] && addr < CAPACITY
    ensures Spared(data, addr, i, k)
       <==> (addr == i ==> Bit(data[0], k)) && Spared(data[1..], (addr + 1) % CAPACITY, i, k)
  {
    InsideIsPlain(addr);
    if Spared(data, addr, i, k) {
      assert (addr + 0) % CAPACITY == i ==> Bit(data[0], k);
      forall j | 0 <= j < |data[1..]| && ((addr + 1) % CAPACITY + j) % CAPACITY == i
        ensures Bit(data[1..][j], k)
      {
        NextAddress(addr, j + 1);
        assert Bit(data[j + 1], k);
      }
    }
    if (addr == i ==> Bit(data[0], k)) && Spared(data[1..], (addr + 1) % CAPACITY, i, k) {
      forall j | 0 <= j < |data| && (addr + j) % CAPACITY == i
        ensures Bit(data[j], k)
      {
        if j > 0 {
          NextAddress(addr, j);
          assert Bit(data[1..][j - 1], k);
        }
      }
    }
  }

  lemma {:induction false} FlatProgramBit(mem: seq<byte>, addr: nat, data: seq<byte>, i: nat, k: nat)
    requires |mem| == CAPACITY && addr < CAPACITY && i < CAPACITY
    ensures Bit(FlatProgram(mem, addr, data)[i], k) <==> Bit(mem[i], k) && Spared(data, addr, i, k)
    decreases data
  {
    if data != [] {
      AndBit(mem[addr], data[0], k);
      SparedSplit(data, addr, i, k);
      FlatProgramBit(mem[addr := AndByte(mem[addr], data[0])], (addr + 1) % CAPACITY, data[1..], i, k);
    }
  }

  /** Bit by bit, for every length and wherever the address wraps. */
  lemma FlatProgramBits(mem: seq<byte>, addr: nat, data: seq<byte>)
    requires |mem| == CAPACITY && addr < CAPACITY
    ensures BitsProgrammed(mem, FlatProgram(mem, addr, data), addr, data)
  {
    forall i, k: nat | 0 <= i < CAPACITY
      ensures Bit(FlatProgram(mem, addr, data)[i], k) <==> Bit(mem[i], k) && Spared(data, addr, i, k)
    {
      FlatProgramBit(mem, addr, data, i, k);
    }
  }

  lemma NextInPage(offset: nat)
    requires offset + 1 < PAGE_SIZE
    ensures (offset + 1) % PAGE_SIZE == offset + 1
  {
  }

  lemma {:induction false} LoadPageAt(buffer: seq<byte>, offset: nat, data: seq<byte>, k: nat)
    requires |buffer| == PAGE_SIZE && offset < PAGE_SIZE && offset + |data| <= PAGE_SIZE && k < PAGE_SIZE
    ensures LoadPage(buffer, offset, data)[k]
         == if offset <= k < offset + |data| then data[k - offset] else buffer[k]
    decreases data
  {
    if data != [] {
      var buffer' := buffer[offset := data[0]];
      if |data| == 1 {
        assert LoadPage(buffer', (offset + 1) % PAGE_SIZE, data[1..]) == buffer';
      } else {
        NextInPage(offset);
        LoadPageAt(buffer', offset + 1, data[1..], k);
      }
    }
  }

  /** A program that stays inside its page is a flat update. */
  lemma PageProgramIsFlat(mem: seq<byte>, addr: nat, data: seq<byte>)
    requires |mem| == CAPACITY && addr < CAPACITY
    requires addr % PAGE_SIZE + |data| <= PAGE_SIZE
    ensures PageProgram(mem, addr, data) == FlatProgram(mem, addr, data)
  {
    var base, offset := BlockBase(addr, PAGE_SIZE), addr % PAGE_SIZE;
    var buffer := LoadPage(Ones(PAGE_SIZE), offset, data);
    forall k | 0 <= k < CAPACITY
      ensures PageProgram(mem, addr, data)[k] == FlatProgram(mem, addr, data)[k]
    {
      FlatProgramAt(mem, addr, data, k);
      FlatProgramAt(mem, base, buffer, k);
      if base <= k < base + PAGE_SIZE {
        LoadPageAt(Ones(PAGE_SIZE), offset, data, k - base);
        AndOnes(mem[k]);
      }
    }
  }

  lemma ErasedTakesAll(x: byte)
    ensures AndByte(0xff, x) == x
  {
    AndSymmetric(0xff, x);
    AndOnes(x);
  }

  /** What is written into an erased block reads back. */
  lemma EraseWriteRead(mem: seq<byte>, base: nat, span: nat, addr: nat, data: seq<byte>, i: nat)
    requires |mem| == CAPACITY && base + span <= CAPACITY
    requires base <= addr && addr + |data| <= base + span && i < |data|
    ensures addr < CAPACITY
    ensures FlatProgram(EraseBlock(mem, base, span), addr, data)[addr + i] == data[i]
  {
    var erased := EraseBlock(mem, base, span);
    assert erased[addr + i] == 0xff;
    FlatProgramAt(erased, addr, data, addr + i);
    ErasedTakesAll(data[i]);
  }

  lemma InsideIsPlain(addr: nat)
    requires addr < CAPACITY
    ensures addr % CAPACITY == addr
  {
  }

  lemma EraseWriteReadAll(mem: seq<byte>, base: nat, span: nat, addr: nat, data: seq<byte>, out: seq<byte>)
    requires |mem| == CAPACITY && base + span <= CAPACITY && addr < CAPACITY
    requires base <= addr && addr + |data| <= base + span && |out| == |data|
    requires forall k :: 0 <= k < |out| ==>
               out[k] == FlatProgram(EraseBlock(mem, base, span), addr, data)[(addr + k) % CAPACITY]
    ensures out == data
  {
    forall i | 0 <= i < |data|
      ensures out[i] == data[i]
    {
      EraseWriteRead(mem, base, span, addr, data, i);
      InsideIsPlain(addr + i);
    }
  }

  // ----------------------------------------------------------- a run of page programs

  /** How much of n bytes goes into the page addr lies in. */
  function FirstChunk(addr: nat, n: nat): (r: nat)
    ensures r <= n && addr % PAGE_SIZE + r <= PAGE_SIZE
    ensures n > 0 ==> r > 0
  {
    var room := PAGE_SIZE - addr % PAGE_SIZE;
    if n > room then room else n
  }

  /** The page programs that together write data at addr: up to the page end, then whole pages. */
  function Chunks(addr: nat, data: seq<byte>): seq<Op>
    requires addr < CAPACITY
    decreases |data|
  {
    if data == [] then []
    else
      var n := FirstChunk(addr, |data|);
      [Program(addr, data[..n])] + Chunks((addr + n) % CAPACITY, data[n..])
  }

  function ApplyAll(mem: seq<byte>, ops: seq<Op>): (r: seq<byte>)
    requires |mem| == CAPACITY
    ensures |r| == CAPACITY
    decreases ops
  {
    if ops == [] then mem else ApplyAll(Apply(mem, ops[0]), ops[1..])
  }

  /** No chunk is empty or crosses a page boundary. */
  lemma {:induction false} ChunksStayInPage(addr: nat, data: seq<byte>)
    requires addr < CAPACITY
    ensures forall op :: op in Chunks(addr, data) ==>
              op.Program? && op.addr < CAPACITY && 0 < |op.data| && op.addr % PAGE_SIZE + |op.data| <= PAGE_SIZE
    decreases |data|
  {
    if data != [] {
      var n := FirstChunk(addr, |data|);
      ChunksStayInPage((addr + n) % CAPACITY, data[n..]);
    }
  }

  predicate EndsPage(op: Op) {
    op.Program? && op.addr % PAGE_SIZE + |op.data| == PAGE_SIZE
  }

  ghost predicate PagesFilled(ops: seq<Op>) {
    forall i :: 0 <= i < |ops| - 1 ==> EndsPage(ops[i])
  }

  lemma PagesFilledBefore(first: Op, later: seq<Op>)
    requires PagesFilled(later) && (later != [] ==> EndsPage(first))
    ensures PagesFilled([first] + later)
  {
  }

  /** Every chunk but the last goes up to the end of its page. */
  lemma {:induction false} ChunksFillPages(addr: nat, data: seq<byte>)
    requires addr < CAPACITY
    ensures PagesFilled(Chunks(addr, data))
    decreases |data|
  {
    if data != [] {
      var n := FirstChunk(addr, |data|);
      ChunksFillPages((addr + n) % CAPACITY, data[n..]);
      PagesFilledBefore(Program(addr, data[..n]), Chunks((addr + n) % CAPACITY, data[n..]));
    }
  }

  lemma PrefixThenRest(mem: seq<byte>, addr: nat, data: seq<byte>, n: nat, mid: seq<byte>)
    requires |mem| == CAPACITY && addr < CAPACITY && n <= |data|
    requires mid == FlatProgram(mem, addr, data[..n])
    ensures FlatProgram(mid, (addr + n) % CAPACITY, data[n..]) == FlatProgram(mem, addr, data)
  {
    FlatProgramAppend(mem, addr, data[..n], data[n..]);
    assert data[..n] + data[n..] == data;
  }

  /** One chunk of a write: what it programs, and what is left to do. */
  lemma ChunkStep(mem: seq<byte>, addr: nat, data: seq<byte>, n: nat, mid: seq<byte>)
    requires |mem| == CAPACITY && addr < CAPACITY && n == FirstChunk(addr, |data|)
    requires mid == if data == [] then mem else PageProgram(mem, addr, data[..n])
    ensures |mid| == CAPACITY
    ensures FlatProgram(mid, (addr + n) % CAPACITY, data[n..]) == FlatProgram(mem, addr, data)
  {
    if data == [] {
      assert data[n..] == [];
    } else {
      PageProgramIsFlat(mem, addr, data[..n]);
      PrefixThenRest(mem, addr, data, n, mid);
    }
  }

  lemma ApplyFirst(mem: seq<byte>, op: Op, ops: seq<Op>)
    requires |mem| == CAPACITY
    ensures ApplyAll(mem, [op] + ops) == ApplyAll(Apply(mem, op), ops)
  {
    assert ([op] + ops)[1..] == ops;
  }

  /** Running the chunks on the paged device is one flat update. */
  lemma {:induction false} ChunksAreFlat(mem: seq<byte>, addr: nat, data: seq<byte>)
    requires |mem| == CAPACITY && addr < CAPACITY
    ensures ApplyAll(mem, Chunks(addr, data)) == FlatProgram(mem, addr, data)
    decreases |data|
  {
    if data != [] {
      var n := FirstChunk(addr, |data|);
      ChunkStep(mem, addr, data, n, PageProgram(mem, addr, data[..n]));
      ApplyFirst(mem, Program(addr, data[..n]), Chunks((addr + n) % CAPACITY, data[n..]));
      ChunksAreFlat(PageProgram(mem, addr, data[..n]), (addr + n) % CAPACITY, data[n..]);
    }
  }
}
