/**
  The length encoding of the DMA channels (dma.h) and the length of a reception
  by DMA (uart.c). A channel's size register holds the number of transfer units
  in its low 22 bits and the bytes of an incomplete last unit above them.
 */
module DmaLength {
  import opened Bits

  const COUNT_BITS: nat := 22
  // 2^22, the range of the unit count.
  const COUNT_RANGE: nat := 0x40_0000
  const WORD_WIDTH: nat := 4

  predicate Width(width: nat) {
    width == 1 || width == 2 || width == 4
  }

  /** dma_cal_size; the sum in front of the division wraps at 32 bits. */
  function CalSize(size: word, width: nat): nat
    requires Width(width)
  {
    Or(((size + width - 1) % U32) / width, COUNT_RANGE * (size % width))
  }

  /** The size a register value stands for. */
  function SizeOf(register: nat, width: nat): int {
    var units, rest := register % COUNT_RANGE, register / COUNT_RANGE;
    if rest == 0 then width * units else width * (units - 1) + rest
  }

  lemma OrHalves(x: nat, z: nat)
    requires z % 2 == 0
    ensures Or(x, z) / 2 == Or(x / 2, z / 2) && Or(x, z) % 2 == x % 2
  {
    assert z == 2 * (z / 2);
    OrDouble(x, z / 2);
  }

  /** OR with a value whose k low bits are zero works above bit k. */
  lemma {:induction false} OrAbove(x: nat, z: nat, k: nat)
    requires Low(z, k) == 0
    ensures Shr(Or(x, z), k) == Or(Shr(x, k), Shr(z, k))
    ensures Low(Or(x, z), k) == Low(x, k)
    decreases k
  {
    if k > 0 {
      OrHalves(x, z);
      OrAbove(x / 2, z / 2, k - 1);
    }
  }

  lemma {:induction false} OrBounds(x: nat, y: nat)
    ensures x <= Or(x, y) <= x + y && y <= Or(x, y)
    decreases x + y
  {
    if x != 0 && y != 0 {
      OrBounds(x / 2, y / 2);
    }
  }

  lemma Pow2At22()
    ensures Pow2(COUNT_BITS) == COUNT_RANGE
  {
    Pow2At8();
    assert Pow2(6) == 64;
    Pow2Add(8, 8);
    Pow2Add(16, 6);
  }

  /** OR puts rest above the low 22 bits of units. */
  lemma Parts(units: nat, rest: nat)
    ensures Or(units, COUNT_RANGE * rest) == COUNT_RANGE * Or(units / COUNT_RANGE, rest) + units % COUNT_RANGE
  {
    var z := COUNT_RANGE * rest;
    Pow2At22();
    CutUnique(z, COUNT_BITS, rest, 0);
    OrAbove(units, z, COUNT_BITS);
    CutBits(Or(units, z), COUNT_BITS);
    CutBits(units, COUNT_BITS);
    ShrIsQuotient(units, COUNT_BITS);
  }

  /** units counts size rounded up, rest is what is over; units is 0 for a size that wraps the sum. */
  predicate Rounded(size: int, width: nat, units: nat, rest: nat) {
    0 <= size && rest < width &&
    if width == 1 then units == size
    else if width == 2 then RoundedHalves(size, units, rest)
    else RoundedWords(size, units, rest)
  }

  predicate RoundedHalves(size: int, units: nat, rest: nat) {
    if rest == 0 then 2 * units == size
    else if units == 0 then size > 2 * (COUNT_RANGE - 1)
    else 2 * (units - 1) + rest == size
  }

  predicate RoundedWords(size: int, units: nat, rest: nat) {
    if rest == 0 then 4 * units == size
    else if units == 0 then size > 4 * (COUNT_RANGE - 1)
    else 4 * (units - 1) + rest == size
  }

  /** The number of units, rounded up, and the bytes of an incomplete one. */
  lemma UnitsBound(size: word, width: nat)
    requires Width(width)
    ensures Rounded(size, width, ((size + width - 1) % U32) / width, size % width)
  {
    var sum := size + width - 1;
    if sum < U32 {
      ModUnique(sum, U32, 0, sum);
    } else {
      ModUnique(sum, U32, 1, sum - U32);
    }
    if width == 1 {
      UnitsOfBytes(size);
    } else if width == 2 {
      UnitsOfHalves(size, sum % U32);
    } else {
      UnitsOfWords(size, sum % U32);
    }
  }

  lemma UnitsOfBytes(size: nat)
    ensures Rounded(size, 1, size / 1, size % 1)
  {
    ModUnique(size, 1, size, 0);
  }

  lemma UnitsOfHalves(size: nat, sum: nat)
    requires sum == size + 1 || (sum == 0 && size == U32 - 1)
    ensures Rounded(size, 2, sum / 2, size % 2)
  {
  }

  lemma UnitsOfWords(size: nat, sum: nat)
    requires sum == size + 3 || (sum < 3 && size == U32 - 3 + sum)
    ensures Rounded(size, 4, sum / 4, size % 4)
  {
  }

  /** The size a register put together from two parts stands for. */
  lemma SizeOfParts(width: nat, above: nat, low: nat)
    requires low < COUNT_RANGE
    ensures SizeOf(COUNT_RANGE * above + low, width)
         == if above == 0 then width * low else width * (low - 1) + above
  {
    ModUnique(COUNT_RANGE * above + low, COUNT_RANGE, above, low);
  }

  /**
    A register value reads back unless the unit count reaches into the bits above
    its field, where OR leaves something between the larger operand and the sum.
   */
  lemma OverlongBytes(units: nat, high: nat, low: nat, above: nat)
    requires units == COUNT_RANGE * high + low && low < COUNT_RANGE && above == high
    ensures (if above == 0 then low else low - 1 + above) == units <==> units <= COUNT_RANGE - 1
  {
  }

  lemma OverlongHalves(size: int, units: nat, rest: nat, high: nat, low: nat, above: nat)
    requires RoundedHalves(size, units, rest) && rest < 2
    requires units == COUNT_RANGE * high + low && low < COUNT_RANGE
    requires rest <= above && high <= above <= high + rest
    ensures (if above == 0 then 2 * low else 2 * (low - 1) + above) == size <==> size <= 2 * (COUNT_RANGE - 1)
  {
  }

  lemma OverlongWords(size: int, units: nat, rest: nat, high: nat, low: nat, above: nat)
    requires RoundedWords(size, units, rest) && rest < 4
    requires units == COUNT_RANGE * high + low && low < COUNT_RANGE
    requires rest <= above && high <= above <= high + rest
    ensures (if above == 0 then 4 * low else 4 * (low - 1) + above) == size <==> size <= 4 * (COUNT_RANGE - 1)
  {
  }

  /** A register value can be read back exactly for the sizes whose unit count fits its 22 bits. */
  lemma SizeRoundTrip(size: word, width: nat)
    requires Width(width)
    ensures SizeOf(CalSize(size, width), width) == size <==> size <= width * (COUNT_RANGE - 1)
  {
    var units, rest := ((size + width - 1) % U32) / width, size % width;
    UnitsBound(size, width);
    RegisterReadBack(size, width, units, rest, CalSize(size, width));
  }

  lemma RegisterReadBack(size: nat, width: nat, units: nat, rest: nat, register: nat)
    requires Width(width) && Rounded(size, width, units, rest) && register == Or(units, COUNT_RANGE * rest)
    ensures SizeOf(register, width) == size <==> size <= width * (COUNT_RANGE - 1)
  {
    var high, low := units / COUNT_RANGE, units % COUNT_RANGE;
    var above := Or(high, rest);
    Parts(units, rest);
    OrBounds(high, rest);
    SizeOfParts(width, above, low);
    if width == 1 {
      OverlongBytes(units, high, low, above);
    } else if width == 2 {
      OverlongHalves(size, units, rest, high, low, above);
    } else {
      OverlongWords(size, units, rest, high, low, above);
    }
  }

  function ReceivedLength(revSize: word, dmaSize: word, status: byte): word {
    if status % 4 == 0 then (4 * (revSize / 4 - dmaSize)) % U32
    else (4 * (revSize / 4 - dmaSize - 1) + status % 4) % U32
  }

  /** dma_set_size on the receiving channel of a UART, and what is kept beside it. */
  class Receiver {
    // uart_dma_rev_size
    var revSize: word
    // reg_dma_size of the channel
    var dmaSize: word

    /** uart_receive_dma, with the word width it always uses. */
    method ReceiveDma(size: word)
      requires size <= 0xff_fffc
      modifies this
      ensures revSize == size && dmaSize == CalSize(size, WORD_WIDTH)
    {
      revSize := size;
      RegisterForm(size);
      dmaSize := Or(((size + 3) % U32) / 4, 0x40_0000 * (size % 4));
    }

    /**
      n bytes have come since the reception was set up: the count went down by one
      for each word begun, and n mod 4 of them are in the UART's own buffer.
     */
    predicate Received(n: nat, status: byte)
      reads this
    {
      revSize <= 0xff_fffc && n <= revSize && status % 4 == n % 4
      && dmaSize == CalSize(revSize, WORD_WIDTH) - (n + 3) / 4
    }

    /** uart_get_dma_rev_data_len; `status` is the count of bytes in the UART's own buffer. */
    method GetDmaRevDataLen(status: byte) returns (len: word)
      ensures len == ReceivedLength(revSize, dmaSize, status)
      ensures forall n: nat :: Received(n, status) ==> (len == n <==> revSize % 4 == 0)
    {
      forall n: nat | Received(n, status)
        ensures ReceivedLength(revSize, dmaSize, status) == n <==> revSize % 4 == 0
      {
        LengthRecovered(revSize, n, status);
      }
      var buffered := status % 4;
      if buffered == 0 {
        len := (4 * (revSize / 4 - dmaSize)) % U32;
      } else {
        len := (4 * (revSize / 4 - dmaSize - 1) + buffered) % U32;
      }
    }
  }

  lemma JoinedDisjoint(units: nat, rest: nat)
    requires units < COUNT_RANGE
    ensures Or(units, COUNT_RANGE * rest) == units + COUNT_RANGE * rest
  {
    Pow2At22();
    CutUnique(COUNT_RANGE * rest, COUNT_BITS, rest, 0);
    OrDisjoint(units, COUNT_RANGE * rest, COUNT_BITS);
  }

  /** The register in closed form, for the sizes the driver allows. */
  lemma RegisterForm(size: word)
    requires size <= 0xff_fffc
    ensures CalSize(size, WORD_WIDTH) == (size + 3) / 4 + COUNT_RANGE * (size % 4) < U32
  {
    ModUnique(size + 3, U32, 0, size + 3);
    JoinedDisjoint((size + 3) / 4, size % 4);
  }

  lemma LengthForm(revSize: word, n: nat, register: word, status: byte)
    requires status % 4 == n % 4
    requires register == (revSize + 3) / 4 + COUNT_RANGE * (revSize % 4) - (n + 3) / 4
    ensures ReceivedLength(revSize, register, status)
         == (n - if revSize % 4 == 0 then 0 else 4 + 0x100_0000 * (revSize % 4)) % U32
  {
    var words, rest := revSize / 4, revSize % 4;
    assert (revSize + 3) / 4 == words + if rest == 0 then 0 else 1;
    assert (n + 3) / 4 == n / 4 + if n % 4 == 0 then 0 else 1;
  }

  /**
    n bytes were received: the channel's count went down by one for each word
    begun, and n mod 4 bytes are in the UART's buffer. The length comes out right
    exactly when the reception was set up for whole words; otherwise it is short
    by four and by 2^24 for every byte of the incomplete word.
   */
  lemma LengthRecovered(revSize: word, n: nat, status: byte)
    requires revSize <= 0xff_fffc && n <= revSize && status % 4 == n % 4
    ensures (n + 3) / 4 <= CalSize(revSize, WORD_WIDTH) < U32
    ensures ReceivedLength(revSize, CalSize(revSize, WORD_WIDTH) - (n + 3) / 4, status) == n <==> revSize % 4 == 0
    ensures revSize % 4 != 0 ==>
              ReceivedLength(revSize, CalSize(revSize, WORD_WIDTH) - (n + 3) / 4, status)
                == (n - 4 - 0x100_0000 * (revSize % 4)) % U32
  {
    RegisterForm(revSize);
    var reg := CalSize(revSize, WORD_WIDTH) - (n + 3) / 4;
    LengthForm(revSize, n, reg, status);
    var off := if revSize % 4 == 0 then 0 else 4 + 0x100_0000 * (revSize % 4);
    if off == 0 {
      ModUnique(n, U32, 0, n);
    } else if off <= n {
      ModUnique(n - off, U32, 0, n - off);
    } else {
      ModUnique(n - off, U32, -1, n - off + U32);
    }
  }

  /** A reception set up for 5 bytes of which all arrive: the length comes out as 2^32 - 2^24 + 1. */
  lemma LengthInstance()
    ensures CalSize(5, WORD_WIDTH) == 0x40_0002
    ensures ReceivedLength(5, 0x40_0002 - 2, 1) == 0xff00_0001
  {
    RegisterForm(5);
  }

  /** One byte more than the largest size: the register reads back as -3. */
  lemma SizeInstance()
    ensures CalSize(0xff_fffd, WORD_WIDTH) == 0x40_0000 && SizeOf(0x40_0000, WORD_WIDTH) == -3
  {
    Parts(0x40_0000, 1);
    assert Or(1, 1) == 1;
  }
}
