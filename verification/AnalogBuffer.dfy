/**
  Buffer transfers through the four-byte window of the analog interface
  (analog.c). The transfer length and the loop counters are 8-bit; a counter
  tested with `while(n--)` ends at 255.
 */
module AnalogBuffer {
  import opened Bits

  const WINDOW: nat := 4

  class Analog {
    // Byte k of what the analog side delivers.
    const source: nat -> byte
    // The four data registers.
    var data: array<byte>
    // How many window interrupts have been waited for.
    var windows: nat
    // Every write to a data register: which one and what.
    var log: seq<(nat, byte)>
    // After how many of these writes the write cycle was started.
    var startedAt: nat
    // How many window interrupts a writer has waited for.
    var drained: nat

    constructor (source: nat -> byte)
      ensures this.source == source && windows == 0 && log == [] && drained == 0 && data.Length == WINDOW && fresh(data)
    {
      this.source := source;
      data := new byte[WINDOW](_ => 0);
      windows, log, startedAt, drained := 0, [], 0, 0;
    }

    /** Waiting for the receive interrupt or the end: the next window stands in the registers. */
    method NextWindow()
      requires data.Length == WINDOW
      modifies this`windows, data
      ensures windows == old(windows) + 1
      ensures forall j :: 0 <= j < WINDOW ==> data[j] == source(WINDOW * old(windows) + j)
    {
      forall j | 0 <= j < WINDOW {
        data[j] := source(WINDOW * windows + j);
      }
      windows := windows + 1;
    }

    /**
      The first loop of analog_read_buff, for more than four bytes: whole windows,
      up to the last one. It never runs its counter down to the wrap.
     */
    method ReadWholeWindows(buff: array<byte>, len: byte) returns (at: nat, left: byte)
      requires len > 4 && len <= buff.Length && data.Length == WINDOW && buff != data && windows == 0
      modifies this`windows, data, buff
      ensures 1 <= left <= 4 && at + left == len && at % WINDOW == 0 && windows == at / WINDOW
      ensures forall k :: 0 <= k < at ==> buff[k] == source(k)
      ensures forall k :: at <= k < buff.Length ==> buff[k] == old(buff[k])
    {
      at := 0;
      left := len;
      var rdIdx := 0;
      NextWindow();
      while left != 0
        invariant at + left == len && rdIdx == at % WINDOW && left > 4 - rdIdx
        invariant windows == at / WINDOW + 1
        invariant forall j :: 0 <= j < WINDOW ==> data[j] == source(at - rdIdx + j)
        invariant forall k :: 0 <= k < at ==> buff[k] == source(k)
        invariant forall k :: at <= k < buff.Length ==> buff[k] == old(buff[k])
        decreases left
      {
        left := left - 1;
        buff[at] := data[rdIdx];
        at := at + 1;
        rdIdx := rdIdx + 1;
        if rdIdx == 4 {
          rdIdx := 0;
          if left <= 4 {
            return;
          }
          NextWindow();
        }
      }
      assert false;
    }

    /** The second loop of analog_read_buff: what stands in the registers, from the first one on. */
    method ReadLastWindow(buff: array<byte>, start: nat, count: byte)
      requires count <= 4 && start + count <= buff.Length && data.Length == WINDOW && buff != data
      modifies buff
      ensures forall k :: start <= k < start + count ==> buff[k] == data[k - start]
      ensures forall k :: 0 <= k < buff.Length && !(start <= k < start + count) ==> buff[k] == old(buff[k])
    {
      var left: byte, at, rdIdx := count, start, 0;
      while left != 0
        invariant rdIdx + left == count && at == start + rdIdx
        invariant forall k :: start <= k < at ==> buff[k] == data[k - start]
        invariant forall k :: 0 <= k < buff.Length && !(start <= k < at) ==> buff[k] == old(buff[k])
      {
        left := left - 1;
        buff[at] := data[rdIdx];
        at := at + 1;
        rdIdx := rdIdx + 1;
      }
    }

    /** analog_read_buff: byte k of the buffer is byte k of the source, for every length of 8 bits. */
    method ReadBuff(buff: array<byte>, len: byte)
      requires len <= buff.Length && data.Length == WINDOW && buff != data && windows == 0
      modifies this`windows, data, buff
      ensures forall k :: 0 <= k < len ==> buff[k] == source(k)
      ensures forall k :: len <= k < buff.Length ==> buff[k] == old(buff[k])
    {
      var left, at := len, 0;
      if left > 4 {
        at, left := ReadWholeWindows(buff, len);
      }
      NextWindow();
      ReadLastWindow(buff, at, left);
    }

    /** Bytes k of the buffer, for k from `from` up to `to`, each to register k mod 4. */
    static function Puts(buff: seq<byte>, from: nat, to: nat): (r: seq<(nat, byte)>)
      requires from <= to <= |buff|
      ensures |r| == to - from
      ensures forall j :: 0 <= j < to - from ==> r[j] == ((from + j) % WINDOW, buff[from + j])
    {
      seq(to - from, j requires 0 <= j < to - from => ((from + j) % WINDOW, buff[from + j]))
    }

    /** `while(len_t--) reg_ana_data(wr_idx++) = *(buff++);` for at most one window. */
    method Fill(buff: array<byte>, count: byte)
      requires count <= WINDOW && count <= buff.Length && log == []
      modifies this`log
      ensures log == Puts(buff[..], 0, count)
    {
      var left: byte := count;
      var wrIdx := 0;
      while left != 0
        invariant wrIdx + left == count
        invariant log == Puts(buff[..], 0, wrIdx)
      {
        left := left - 1;
        log := log + [(wrIdx, buff[wrIdx])];
        wrIdx := wrIdx + 1;
      }
    }

    /**
      analog_write_buff: byte k of the buffer goes to register k mod 4, each byte
      once and in order; the cycle starts after the first window, and every full
      window after it is waited for.
     */
    method WriteBuff(buff: array<byte>, len: byte)
      requires len <= buff.Length && log == [] && drained == 0
      modifies this`log, this`startedAt, this`drained
      ensures log == Puts(buff[..], 0, len)
      ensures startedAt == if len <= WINDOW then len else WINDOW
      ensures drained == if len <= WINDOW then 0 else len / WINDOW - 1
    {
      if len <= 4 {
        Fill(buff, len);
        startedAt := |log|;
        return;
      }
      Fill(buff, 4);
      startedAt := |log|;
      var left: byte := len - 4;
      var at, wrIdx := 4, 0;
      while left != 0
        invariant 4 <= at && at + left == len && wrIdx == at % WINDOW
        invariant log == Puts(buff[..], 0, at)
        invariant startedAt == WINDOW && drained == at / WINDOW - 1
      {
        left := left - 1;
        log := log + [(wrIdx, buff[at])];
        at := at + 1;
        wrIdx := wrIdx + 1;
        if wrIdx == 4 {
          wrIdx := 0;
          drained := drained + 1;
        }
      }
    }
  }
}
