/**
  The full-duplex transfer of spi.c. Every byte that goes out brings one byte
  from the slave. A byte put into the transmit FIFO waits there, is then shifted
  out while its reply is shifted in, and the reply stands in the receive FIFO
  until it is read.
 */
module SpiLoopback {
  import opened Bits

  const WINDOW: nat := 4

  /** What is left of the replies under way when the FIFOs are cleared and `arrived` of them had been received. */
  function Survivor(pending: seq<byte>, arrived: nat): seq<byte> {
    if arrived < |pending| then [pending[arrived]] else []
  }

  /** The bytes that were still in the transmit FIFO, behind the one in flight. */
  function Unsent(pending: seq<byte>, arrived: nat): nat {
    if arrived < |pending| then |pending| - arrived - 1 else 0
  }

  class Spi {
    // The reply to the k-th byte that goes out.
    const slave: nat -> byte
    // How many replies stand in the receive FIFO when the FIFOs are cleared for the k-th time.
    const arrived: nat -> nat
    // Every byte given to the transmit FIFO, less those that were cleared out of it.
    var sent: seq<byte>
    // The replies not read yet: arrived ones, then the one in flight, then those to bytes still waiting.
    var pending: seq<byte>
    var clears: nat

    constructor (slave: nat -> byte, arrived: nat -> nat)
      ensures this.slave == slave && this.arrived == arrived
      ensures Valid() && sent == [] && pending == []
    {
      this.slave, this.arrived := slave, arrived;
      sent, pending, clears := [], [], 0;
    }

    /** The replies under way are those to the last bytes sent. */
    ghost predicate Valid()
      reads this
    {
      |pending| <= |sent| && forall j :: 0 <= j < |pending| ==> pending[j] == slave(|sent| - |pending| + j)
    }

    /** Whenever the FIFOs are cleared the outstanding byte is still in flight: the clear spares it. */
    ghost predicate ClearSpares() {
      forall k: nat :: arrived(k) == 0
    }

    /** spi_write. */
    method SpiWrite(data: array<byte>, from: nat, len: nat)
      requires Valid() && from + len <= data.Length
      modifies this`sent, this`pending
      ensures Valid() && sent == old(sent) + data[from..from + len]
      ensures |pending| == |old(pending)| + len && old(pending) <= pending
    {
      var i := 0;
      while i < len
        invariant 0 <= i <= len && Valid()
        invariant sent == old(sent) + data[from..from + i]
        invariant |pending| == |old(pending)| + i && old(pending) <= pending
      {
        pending := pending + [slave(|sent|)];
        sent := sent + [data[from + i]];
        i := i + 1;
      }
    }

    /** spi_read. The wait for a byte ends because a reply to each is under way. */
    method SpiRead(data: array<byte>, from: nat, len: nat)
      requires Valid() && from + len <= data.Length && len <= |pending|
      modifies this`pending, data
      ensures Valid() && pending == old(pending)[len..]
      ensures forall k :: 0 <= k < data.Length ==>
                data[k] == if from <= k < from + len then old(pending)[k - from] else old(data[k])
    {
      var i := 0;
      while i < len
        invariant 0 <= i <= len && Valid()
        invariant pending == old(pending)[i..]
        invariant forall k :: 0 <= k < data.Length ==>
                    data[k] == if from <= k < from + i then old(pending)[k - from] else old(data[k])
      {
        data[from + i] := pending[0];
        pending := pending[1..];
        i := i + 1;
      }
    }

    /** spi_tx_fifo_clr and spi_rx_fifo_clr: only a byte in flight survives. */
    method ClearFifos()
      requires Valid()
      modifies this`sent, this`pending, this`clears
      ensures Valid() && clears == old(clears) + 1
      ensures pending == Survivor(old(pending), arrived(old(clears)))
      ensures sent == old(sent[..|sent| - Unsent(pending, arrived(clears))])
      ensures |old(pending)| == 1 ==> (pending == old(pending) <==> arrived(old(clears)) == 0)
    {
      var a := arrived(clears);
      clears := clears + 1;
      sent := sent[..|sent| - Unsent(pending, a)];
      pending := Survivor(pending, a);
    }

    /** How many bytes have been read once i are sent: exactly one is outstanding between chunks. */
    static function TakenAt(i: nat, len: nat): int {
      if i == 0 || i == len then i else i - 1
    }

    /** Reading back in a round: as many bytes as it takes to leave one outstanding, or none at the end. */
    method ReadBack(readData: array<byte>, len: nat, i: nat, chunkSize: nat)
      requires Valid() && i < len <= readData.Length
      requires chunkSize == if WINDOW > len - i then len - i else WINDOW
      requires i == 0 || WINDOW <= i
      requires |pending| == i + chunkSize - TakenAt(i, len)
      modifies this`pending, readData
      ensures Valid() && pending == old(pending)[TakenAt(i + chunkSize, len) - TakenAt(i, len)..]
      ensures forall k :: 0 <= k < readData.Length ==>
                readData[k] == if TakenAt(i, len) <= k < TakenAt(i + chunkSize, len)
                               then old(pending)[k - TakenAt(i, len)] else old(readData[k])
    {
      if len <= WINDOW {
        SpiRead(readData, 0, chunkSize);
      } else if i == 0 {
        SpiRead(readData, 0, chunkSize - 1);
      } else if len - i > WINDOW {
        SpiRead(readData, i - 1, chunkSize);
      } else {
        SpiRead(readData, i - 1, chunkSize + 1);
      }
    }

    /** One round of the loop: the chunk that starts at i, and the clearing of the FIFOs after it. */
    method Chunk(writeData: array<byte>, readData: array<byte>, len: nat, i: nat, chunkSize: nat)
      requires Valid() && (len > WINDOW ==> ClearSpares())
      requires i < len <= writeData.Length && len <= readData.Length && writeData != readData
      requires chunkSize == if WINDOW > len - i then len - i else WINDOW
      requires i == 0 || WINDOW <= i
      requires |sent| == i && |pending| == i - TakenAt(i, len)
      modifies this`sent, this`pending, this`clears, readData
      ensures Valid() && sent == old(sent) + writeData[i..i + chunkSize]
      ensures |pending| == i + chunkSize - TakenAt(i + chunkSize, len)
      ensures forall k :: 0 <= k < readData.Length ==>
                readData[k] == if TakenAt(i, len) <= k < TakenAt(i + chunkSize, len) then slave(k) else old(readData[k])
    {
      SpiWrite(writeData, i, chunkSize);
      ReadBack(readData, len, i, chunkSize);
      ClearFifos();
    }

    /**
      spi_master_write_read_loopback. For more than one window it needs the clear
      between the chunks to spare the byte in flight.
     */
    method MasterWriteReadLoopback(writeData: array<byte>, readData: array<byte>, len: nat)
      requires len <= writeData.Length && len <= readData.Length && len < 0x8000_0000
      requires writeData != readData && sent == [] && pending == []
      requires len > WINDOW ==> ClearSpares()
      modifies this`sent, this`pending, this`clears, readData
      ensures sent == writeData[..len] && pending == []
      ensures forall k :: 0 <= k < len ==> readData[k] == slave(k)
      ensures forall k :: len <= k < readData.Length ==> readData[k] == old(readData[k])
    {
      var chunkSize := WINDOW;
      ClearFifos();
      var i := 0;
      while i < len
        invariant Valid()
        invariant 0 <= i <= len && (i < len ==> chunkSize == WINDOW)
        invariant i == 0 || i == len || WINDOW <= i
        invariant sent == writeData[..i] && |pending| == i - TakenAt(i, len)
        invariant forall k :: 0 <= k < TakenAt(i, len) ==> readData[k] == slave(k)
        invariant forall k :: TakenAt(i, len) <= k < readData.Length ==> readData[k] == old(readData[k])
        decreases len - i
      {
        if chunkSize > len - i {
          chunkSize := len - i;
        }
        Chunk(writeData, readData, len, i, chunkSize);
        i := i + chunkSize;
      }
    }
  }
}
