# Proofs about the Telink B91 drivers

Dafny models of the parts of the Telink B91 SDK that compute something or keep
a state machine going, with proofs of what they promise:

- **Modular reduction** (`Words`, `BigInteger`, `RightShift`, `PkeEngine`,
  `PkeMod`): the multi-word integer routines of `pke.c` on arrays of 32-bit
  words, and `pke_mod` on top of them. Multiplication, addition and the
  Montgomery pre-calculation are contracts on the public-key engine, which may
  stop any run with any code.
- **Flash** (`NorDevice`, `FlashDriver`): a serial NOR device with a
  write-enable latch, a busy time, a page buffer that wraps and programming that
  can only clear bits; and the driver of `flash.c`, byte by byte over the chip
  select and data register of `mspi.h`. A write of any length is one update of a
  flat byte array, and a streamed read returns that array.
- **Ring FIFO** (`RingFifo`, `UtilityFifo`, `FifoQueue`, `FifoSteps`,
  `FifoDelivery`): the
  functions of `utility.c` on the object they change; every sequence of calls
  whose messages fit is answered as by a bounded queue; and under every
  interleaving of a producer that fills slots in place with a consumer that reads
  them in place the ring does what a queue of entries does: nothing is lost,
  reordered or changed.
- **Sleep and calibration** (`SleepTicks`, `ClockDrift`): the conversions
  between 16 MHz and 32 kHz ticks modulo 2^32 and their round trip, and what the
  calibration filters keep over all runs.
- **Boot status** (`BootStatus`): over every history of power cycles, reboots
  and both kinds of sleep the reported status names what happened.
- **UART** (`UartPrime`, `UartDivisor`): what the primality test decides, and
  that the divisor search finds the best divisor.
- **Transfers** (`DmaLength`, `SpiLoopback`, `AnalogBuffer`) and the
  pseudo-random generator (`Trng`).

`Bits` holds the arithmetic all of these share. Shifts, masks, remainders and
quotients that proofs have to look into are recursive functions there, each with
a lemma that says it is the usual operation. C pointers into a buffer are an
array and an offset. Integers are unbounded; every wrap-around of the C code is
written as a remainder.

Where the code promises less than its documentation, or fails on some inputs,
the model follows the code. The exact condition is proved, and for most of them
a lemma shows a failing input:

- `sub_u32` with the destination on the minuend loses its borrows. The result is
  right if and only if no word below the top one needs a borrow
  (`BigInteger.InPlaceSubCorrect`, `BigInteger.InPlaceInstance`).
- `pke_mod` keeps of a number only its low bitlen(b) + 32 bWordLen bits, and
  subtracts the modulus once from those above bitlen(b). The operand it then
  gives to the multiplier is within the modulus if and only if they make up at
  most twice the modulus; it can be the modulus itself. Within that range the
  result is the remainder of the bits that are kept. That is a mod b if and only
  if b divides the bits that are lost, which for two words or more means that
  none are (`PkeMod.Mod`, `PkeMod.TruncationIsHarmless`,
  `PkeMod.LongModulusNeedsAll`; 2^34 mod 3 comes out as 0 in
  `PkeMod.TruncatedRun`). It ignores the stop code of the second
  pre-calculation, so its theorem asks for that run to stop normally.
- `my_fifo_push` lets a message of `size - 1` bytes through. Its last byte lands
  behind the slot (`FifoQueue.PushStaysInSlot`, `FifoQueue.SpillInstance`), and
  behind the buffer if and only if the slot is the last one
  (`RingFifo.PushLeavesBuffer`). Over a whole run the ring holds the queue if and
  only if every message it takes fits its slot and its length fits the header
  (`FifoQueue.RunHoldsExactly`). The push also publishes the slot before it fills
  it (`FifoSteps.PushPublishesEarly`).
- `uart_is_prime` takes the square of a prime that is 5 modulo 6 for a prime
  (`UartPrime.MissedSquareInstance`). Above 65531 squared its 32-bit square
  wraps, and it accepts exactly the primes up to 2^32 - 15
  (`UartPrime.UartIsPrime`, `UartPrime.StopsExactly`).
- `uart_cal_div_and_bwpc` lets the divider drop below zero, to 0xffff in its
  register, if and only if the ratio of clock and baud rate is below three
  (`UartDivisor.LowEnd`).
- `uart_get_dma_rev_data_len` is right if and only if the reception was set up
  for a multiple of four bytes, though the documentation allows any size
  (`DmaLength.LengthRecovered`, `DmaLength.LengthInstance`).
- The DMA size register stands for the size it was given if and only if the
  number of units fits in its 22 bits (`DmaLength.SizeRoundTrip`,
  `DmaLength.SizeInstance`).
- The 32 kHz conversion of the short form recovers the true value if and only
  if the product, modulo 2^37, is below 2^32 (`SleepTicks.ShortRecoveryExact`,
  `SleepTicks.RecoveryInstance`).
- Clearing the SPI FIFOs keeps the outstanding byte if and only if it is still
  in flight (`SpiLoopback.Spi.ClearFifos`).

## Model

| member | source | states |
|---|---|---|
| BigInteger.ValidBitsGet | tlsr9/drivers/B91/pke.c:36-68 | the exact bit length of the number, leading zero words and the zero number included |
| BigInteger.ValidWordsGet | tlsr9/drivers/B91/pke.c:76-89 | the position above the most significant non-zero word |
| BigInteger.CompareAt | tlsr9/drivers/B91/pke.c:112-118 | the most significant differing word orders the two numbers |
| BigInteger.LongerIsGreater | tlsr9/drivers/B91/pke.c:103-109 | more significant words make the greater number |
| BigInteger.BigIntegerCompare | tlsr9/drivers/B91/pke.c:99-120 | 1, -1 or 0 exactly as the first number is greater, less or equal, for any two lengths and any leading zeros |
| BigInteger.BorrowWord | tlsr9/drivers/B91/pke.c:137-145 | the two comparisons of the wrapped words find exactly the borrow |
| BigInteger.SubU32 | tlsr9/drivers/B91/pke.c:130-148 | the difference modulo 2^(32 wordLen), also into the subtrahend or into a destination that starts below an operand; into the minuend, word differences without borrows; nothing outside the destination changes |
| Words.SubWrapIsMod | tlsr9/drivers/B91/pke.c:130-148 | the difference SubU32 leaves is the remainder modulo 2^(32 wordLen) |
| BigInteger.InPlaceSubCorrect | tlsr9/drivers/B91/pke.c:130-148 | subtracting in place gives the difference if and only if no word below the top one is less than the word taken from it |
| BigInteger.InPlaceInstance | tlsr9/drivers/B91/pke.c:130-148 | 2^32 - 1 in place comes out as 2^33 - 1 |
| RightShift.FunnelVal | tlsr9/drivers/B91/pke.c:173-174 | a word shifted right with the next one's low bits moved in: the OR is a sum that fits |
| RightShift.ShiftWordsVal | tlsr9/drivers/B91/pke.c:171-176 | shifting word by word is shifting the number |
| RightShift.Div2nU32 | tlsr9/drivers/B91/pke.c:160-197 | the number becomes its quotient by 2^n, vacated words are zero, and the real word length is returned if it was passed in |
| RightShift.Div2nGeneral | tlsr9/drivers/B91/pke.c:182-196 | the same for shifts that also move whole words |
| Bits.ShrIsQuotient | tlsr9/drivers/B91/pke.c:151 | shifting right bit by bit is dividing by 2^n and rounding down |
| PkeEngine.Pke.LoadOperand | tlsr9/drivers/B91/pke.c:226-241 | the words arrive in the slot and the rest of its nine words is cleared, unless the slot is loaded from itself |
| PkeEngine.Pke.ReadOperand | tlsr9/drivers/B91/pke.c:206-217 | the slot's words arrive in memory and nothing else changes there |
| PkeEngine.Pke.RunModMul | tlsr9/drivers/B91/pke.c:509-513 | the contract on the hardware: the product modulo B3, for operands up to and including the modulus whose parameters are loaded |
| PkeEngine.Pke.CalcPreMont | tlsr9/drivers/B91/pke.c:292-303 | after a normal stop the parameters belong to the given odd modulus, and slot B1 is untouched |
| PkeEngine.Pke.ModMul | tlsr9/drivers/B91/pke.c:498-518 | the product modulo the modulus after a normal stop, also with slot B1 as operand and destination |
| PkeEngine.Pke.ModAdd | tlsr9/drivers/B91/pke.c:560-580 | the sum modulo the modulus after a normal stop, and the stop code otherwise |
| PkeMod.HighOperandInRange | tlsr9/drivers/B91/pke.c:804-824 | after one subtraction the kept high part is within the modulus exactly when it was at most twice the modulus; when it equals the modulus in each of the two branches |
| PkeMod.DoubleLengthIsFoldable | tlsr9/drivers/B91/pke.c:791-824 | for every number of at most twice the modulus's bit length that is so, and nothing of the number is lost |
| PkeMod.LoadHighBits | tlsr9/drivers/B91/pke.c:795-802 | the bits of a from bitlen(b) up, cut to bWordLen words |
| PkeMod.FoldHigh | tlsr9/drivers/B91/pke.c:791-824 | in both branches c holds the part of a above the bit length of b as far as it fits in bWordLen words, less b if that is due |
| PkeMod.LoadRadix | tlsr9/drivers/B91/pke.c:839-845 | slot B1 holds 2^bitlen(b) - b, also where 2^bitlen(b) does not fit and the subtraction wraps |
| PkeMod.FoldLow | tlsr9/drivers/B91/pke.c:857-883 | the part of a below the bit length of b, reduced, in c or left in a |
| PkeMod.FoldedResult | tlsr9/drivers/B91/pke.c:791-885 | low part plus radix times high part, each reduced at most once, is a modulo b |
| PkeMod.FoldIsRemainder | tlsr9/drivers/B91/pke.c:791-885 | the multiplier's operand is in range exactly when the number is foldable, and what comes out is the remainder of the bits that are kept |
| PkeMod.TruncationIsHarmless | tlsr9/drivers/B91/pke.c:791-802 | dropping bits changes nothing modulo an odd b if and only if b divides them |
| PkeMod.LongModulusNeedsAll | tlsr9/drivers/B91/pke.c:791-802 | for a modulus of two words or more that means the number fits in the bits that are kept |
| PkeMod.TruncationInstance | tlsr9/drivers/B91/pke.c:791-811 | 2^34 modulo 3: foldable, but the bit that is set is lost |
| PkeMod.TruncatedRun | tlsr9/drivers/B91/pke.c:764-886 | the driver's result on that input is 0 instead of 1 |
| PkeMod.FoldAll | tlsr9/drivers/B91/pke.c:787-885 | the path through the engine: the first bad stop code that is looked at, or the remainder of the bits that are kept |
| PkeMod.CheckedCodeIsFirstBad | tlsr9/drivers/B91/pke.c:826-885 | which stop codes are looked at with and without given parameters, and that the first bad one comes back |
| PkeMod.Mod | tlsr9/drivers/B91/pke.c:764-886 | c is a modulo b, without the engine and for every b and every length, if a is at most b; else, for odd b and a foldable a, whenever all runs stop normally, the remainder of the kept bits, which is a modulo b if and only if b divides the lost ones; words behind c and both operands unchanged |
| NorDevice.PageProgramIsFlat | tlsr9/drivers/B91/flash.c:162-179 | a program inside one page, through the wrapping page buffer, is a flat AND update |
| NorDevice.FlatProgramAt | tlsr9/drivers/B91/flash.c:180-195 | what a flat update is: old AND data on the range, unchanged elsewhere |
| NorDevice.FlatProgramBits | tlsr9/drivers/B91/flash.c:162-195 | a bit is set after a write if and only if it was set before and in all the data written over it, for every length and address |
| Bits.BitIsDigit | tlsr9/drivers/B91/flash.c:162-179 | what is meant by bit k: the k-th binary digit |
| Bits.AndBit | tlsr9/drivers/B91/flash.c:162-179 | AND sets exactly the bits set in both |
| NorDevice.ChunksStayInPage | tlsr9/drivers/B91/flash.c:182-194 | no chunk of a write is empty or crosses a page boundary |
| NorDevice.ChunksFillPages | tlsr9/drivers/B91/flash.c:182-194 | every chunk but the last goes up to the end of its page |
| NorDevice.ChunksAreFlat | tlsr9/drivers/B91/flash.c:182-194 | the page programs of a write together are one flat update |
| NorDevice.AddressOfBytes | tlsr9/drivers/B91/flash.c:96-104 | the three bytes sent carry the address modulo the capacity |
| NorDevice.EraseWriteRead | tlsr9/drivers/B91/flash.c:136-195 | a byte written into an erased block reads back as written |
| FlashDriver.Mspi.High | tlsr9/drivers/B91/mspi.h:61-63 | raising chip select starts the operation that was clocked in, if the device was ready and write-enabled |
| FlashDriver.Mspi.Get | tlsr9/drivers/B91/mspi.h:77-79 | the byte that was fetched; in automatic mode the next one is clocked in |
| FlashDriver.Mspi.Read | tlsr9/drivers/B91/mspi.h:103-107 | a dummy clock and the byte it brought |
| FlashDriver.Mspi.SendCmd | tlsr9/drivers/B91/flash.c:82-89 | closes what was open, and leaves the device with one byte received |
| FlashDriver.Mspi.WaitDone | tlsr9/drivers/B91/flash.c:110-125 | starts what was clocked in, polls until it is done or the bound is reached, and counts the wait only in the first case |
| FlashDriver.Mspi.EraseRam | tlsr9/drivers/B91/flash.c:136-147 | exactly the aligned block is erased, the latch is clear and the device idle again |
| FlashDriver.Mspi.EraseSectorRam | tlsr9/drivers/B91/flash.c:136-147 | the 4 KB around the address are erased and nothing else changes |
| FlashDriver.Mspi.ErasePageRam | tlsr9/drivers/B91/flash.c:259-271 | the same for 256 bytes |
| FlashDriver.Mspi.Erase32kBlockRam | tlsr9/drivers/B91/flash.c:284-295 | the same for 32 KB |
| FlashDriver.Mspi.Erase64kBlockRam | tlsr9/drivers/B91/flash.c:308-319 | the same for 64 KB |
| FlashDriver.Mspi.WritePageRam | tlsr9/drivers/B91/flash.c:162-179 | one page program, preceded by its own write enable; without data nothing happens and the latch stays set |
| FlashDriver.Mspi.WritePage | tlsr9/drivers/B91/flash.c:180-195 | for every address and length one flat update of the array, told bit by bit, carried out as exactly the page programs of NorDevice.Chunks |
| FlashDriver.Mspi.ReadPageRam | tlsr9/drivers/B91/flash.c:204-224 | byte k of the buffer is byte k of the array from the address on, with one byte always fetched ahead; the array is unchanged |
| FlashDriver.EraseWriteReadBack | tlsr9/drivers/B91/flash.c:136-224 | erase a sector, write inside it, read back: the buffer returns, for every length |
| RingFifo.MaskIsMod | tlsr9/ble/common/utility.c:99 | the masked 8-bit counter is the unbounded counter modulo the number of slots |
| RingFifo.AtDisjoint | tlsr9/ble/common/utility.c:95-149 | entries less than num apart never share a slot byte, however often the counters wrapped |
| RingFifo.UsedIsDifference | tlsr9/ble/common/utility.c:97 | the difference of the 8-bit counters is the number of entries |
| UtilityFifo.MyFifo.constructor | tlsr9/ble/common/utility.c:86-93 | an empty ring over the caller's buffer |
| UtilityFifo.MyFifo.WPtr | tlsr9/ble/common/utility.c:95-102 | nothing exactly when num entries are in the ring, else the slot of the next entry, whatever the unbounded counters are |
| UtilityFifo.MyFifo.WPtrV2 | tlsr9/ble/common/utility.c:104-111 | the slot of the next entry exactly when more than three are free |
| UtilityFifo.MyFifo.Next | tlsr9/ble/common/utility.c:113-116 | one more entry is counted and nothing else changes |
| UtilityFifo.MyFifo.Push | tlsr9/ble/common/utility.c:118-134 | whatever queue the ring holds: 0 exactly when it is not full and the message is shorter than a slot, and then the ring holds one more message if and only if it fits; negative lengths are refused |
| UtilityFifo.MyFifo.Pop | tlsr9/ble/common/utility.c:136-139 | whatever non-empty queue the ring holds, it then holds the rest of it |
| UtilityFifo.MyFifo.Get | tlsr9/ble/common/utility.c:141-149 | whatever queue the ring holds: a slot that reads as its oldest message, or nothing when it is empty |
| FifoQueue.DecodeEncode | tlsr9/ble/common/utility.c:130-132 | the length header gives the message back if and only if its length fits in sixteen bits |
| RingFifo.PushLeavesBuffer | tlsr9/ble/common/utility.c:125-132 | an accepted message is written past the end of the buffer if and only if it has size - 1 bytes and the slot is the last one |
| FifoQueue.PushStaysInSlot | tlsr9/ble/common/utility.c:125-132 | the push stays in the buffer and bytes outside the slot survive if and only if the message leaves room for the header or the byte behind the slot already was the one written |
| FifoQueue.SpillInstance | tlsr9/ble/common/utility.c:125-132 | a message of size - 1 bytes that shortens the message waiting in the next slot |
| FifoQueue.PushHolds | tlsr9/ble/common/utility.c:118-134 | a push is accepted exactly when the queue is not full and the message is shorter than a slot, and then appends it if and only if it leaves room for the header and its length fits in the header |
| FifoQueue.GetHolds | tlsr9/ble/common/utility.c:141-149 | nothing exactly when the queue is empty, else the oldest message |
| FifoQueue.PopHolds | tlsr9/ble/common/utility.c:136-139 | drops the oldest message and keeps the others |
| FifoQueue.PopNeedsAnEntry | tlsr9/ble/common/utility.c:136-139 | the counters stay meaningful if and only if there was an entry to pop |
| FifoQueue.StepRefines | tlsr9/ble/common/utility.c:95-149 | one call on the ring keeps the correspondence with the queue if and only if a message it takes fits, and then answers as the queue does |
| FifoQueue.RunHoldsExactly | tlsr9/ble/common/utility.c:86-149 | over a whole run the ring holds what the queue holds after every call if and only if every message taken fits |
| FifoQueue.RunRefines | tlsr9/ble/common/utility.c:86-149 | every such sequence of calls is answered as by the bounded queue |
| FifoSteps.FilledSlotIsHidden | tlsr9/ble/common/utility.c:95-149 | the slot being filled is none the consumer can see |
| FifoSteps.StepKeeps | tlsr9/ble/common/utility.c:95-149 | each step of either side keeps the invariant |
| FifoSteps.Delivery | tlsr9/ble/common/utility.c:86-149 | after any interleaving, with pops of entries looked at or not: popped entries are the first committed ones, in order and unchanged, and every byte read is a committed one |
| FifoDelivery.StepRefines | tlsr9/ble/common/utility.c:95-149 | each step of either side does on the ring what it does on a queue of entries without counters or addresses |
| FifoDelivery.RunRefines | tlsr9/ble/common/utility.c:86-149 | so does every interleaving |
| FifoDelivery.DeliversAsQueue | tlsr9/ble/common/utility.c:86-149 | from an empty ring: what is committed, popped and read, whether a reservation is granted and whether there is something to look at, is what the queue says |
| FifoDelivery.FilledIsCommitted | tlsr9/ble/common/utility.c:95-116 | a granted reservation, fills with the consumer at work in between, and a commit add exactly one entry: the slot's old bytes overwritten by the fills |
| FifoDelivery.OverwrittenAt | tlsr9/ble/common/utility.c:95-116 | in it the last fill of an offset wins, and an offset without one keeps its old byte |
| FifoSteps.PushPublishesEarly | tlsr9/ble/common/utility.c:129-132 | between the advance of wptr and the copy the unfilled slot is visible exactly when the ring was empty |
| FifoSteps.ThreeStayFree | tlsr9/ble/common/utility.c:104-111 | with producers of the second kind only, three slots are free in every reachable state with entries, besides the one being filled |
| SleepTicks.ShortFits | tlsr9/drivers/B91/pm.c:592 | no 32-bit overflow in the short form for spans up to its limit |
| SleepTicks.ShortRoundTrip | tlsr9/drivers/B91/pm.c:592-622 | there and back is within calib/64 + 1 ticks of the requested span |
| SleepTicks.LongRoundTrip | tlsr9/drivers/B91/pm.c:589-620 | there and back is never more than requested and less than calib short |
| SleepTicks.LongRecovery | tlsr9/drivers/B91/pm.c:620 | for every count the long form recovers whole calibration units, the most that do not exceed the elapsed time |
| SleepTicks.LongSpanIsLargest | tlsr9/drivers/B91/pm.c:581 | the limit of the short form is the largest span that never overflows it |
| SleepTicks.TicksForExact | tlsr9/drivers/B91/pm.c:588-593 | the programmed ticks are the most whole groups of 32, or the nearest number |
| SleepTicks.ShortRecoveryExact | tlsr9/drivers/B91/pm.c:622 | the wrapped conversion is the true one if and only if the product is below 2^32 modulo 2^37 |
| SleepTicks.RecoveryInstance | tlsr9/drivers/B91/pm.c:622 | a product of 2^32, of which nothing is recovered |
| SleepTicks.TimerSleepRoundTrip | tlsr9/drivers/B91/pm.c:580-622 | the recovered system time against the requested one, both bounds, wherever the counters wrapped |
| SleepTicks.SleepTimer.ProgramWakeup | tlsr9/drivers/B91/pm.c:580-597 | the programmed tick, how near it is to the requested time, and which form was chosen, the stale choice of other wake-up kinds included |
| SleepTicks.SleepTimer.Recover | tlsr9/drivers/B91/pm.c:107-124 | the system time and the 32 kHz fields set after a sleep, at the tick after the one read; for every such tick the recovered span is the elapsed one rounded down, to whole calibration units in the long form, as long as the product fits |
| ClockDrift.FilterInHull | tlsr9/drivers/B91/pm.c:376 | one filter step moves toward the input, never past it, and stands still exactly within one unit below it |
| ClockDrift.FilterSettles | tlsr9/drivers/B91/pm.c:392 | a constant input is reached from above exactly and from below within the filter's divisor, in finitely many steps, and held |
| ClockDrift.OffsetStaysClamped | tlsr9/drivers/B91/pm.c:358-394 | over every run the offset stays within the widest clamp used |
| ClockDrift.TcStaysInHull | tlsr9/drivers/B91/pm.c:400-413 | over every run the filtered value is between the extreme samples, and a calibration leaves it non-zero |
| ClockDrift.CompensationIsSmall | tlsr9/drivers/B91/pm.c:415-418 | the compensated value is the filtered one plus offset / 2^18 of it, rounded down, and so at most one part in 1024, and one, away |
| ClockDrift.CalMovesToward | tlsr9/drivers/B91/pm.c:380-394 | the offset moves a sixteenth of the way to offset_tick * 7440 / rc32, with its sign and kept within 0x100; the running mean an eighth of the way to offset_tick |
| ClockDrift.BleCalMovesToward | tlsr9/drivers/B91/pm.c:358-377 | the offset moves a sixteenth of the way to offset_tick * 7936 / rc32_cnt, kept within 256 for each 9600 ticks of the period |
| ClockDrift.GoodReferenceIsKept | tlsr9/drivers/B91/pm.c:336-346 | the reference is kept if and only if there is one, no calibration came since, it served at most 21 sleeps and is at most 3 s of ticks old |
| ClockDrift.ReferenceIsRecent | tlsr9/drivers/B91/pm.c:333-347 | over every run the reference pair was taken at one single sleep, at most 21 sleeps before the last |
| ClockDrift.SleepLeavesReference | tlsr9/drivers/B91/pm.c:333-347 | going to sleep leaves a reference that is set and not stale, and no calibration pending |
| ClockDrift.PmClock.UpdateRcSleepTick | tlsr9/drivers/B91/pm.c:333-347 | the new fields: the old reference if and only if it is still good, else a new one |
| ClockDrift.PmClock.BleRcCalReset | tlsr9/drivers/B91/pm.c:349-355 | which fields are cleared and which are kept |
| ClockDrift.PmClock.RcOffsetInit | tlsr9/drivers/B91/pm.c:326-331 | the same for the first initialization |
| ClockDrift.PmClock.BleCalRcOffset | tlsr9/drivers/B91/pm.c:358-378 | the new fields; the offset moved toward the clamped quotient with its sign, the clamp growing with the period |
| ClockDrift.PmClock.CalRcOffset | tlsr9/drivers/B91/pm.c:380-394 | the new fields; the offset moved toward the clamped quotient with its sign, the running mean toward the offset tick |
| ClockDrift.PmClock.GetRcCalib | tlsr9/drivers/B91/pm.c:400-419 | the filter moves an eighth of the way after a calibration and a sixteenth otherwise, and the result is the compensated value of its new state |
| BootStatus.BootReportsCause | tlsr9/drivers/B91/pm.c:216-243 | a boot from settled registers reports its cause and leaves them settled |
| BootStatus.RunReportsCauses | tlsr9/drivers/B91/sys.c:116-122 | over every history the reports name the events, and the status for a deep wake after a reboot appears exactly there |
| BootStatus.EveryBootReported | tlsr9/drivers/B91/pm.c:216-243 | the same from the first power-up on, whatever the registers held before |
| BootStatus.BootKeepsShare | tlsr9/drivers/B91/pm.c:216-240 | the application's bits of both registers survive a boot |
| BootStatus.Chip.PmUpdateStatusInfo | tlsr9/drivers/B91/pm.c:216-240 | the status, the registers it leaves and the bits it does not touch |
| BootStatus.Chip.SysInitStatus | tlsr9/drivers/B91/sys.c:116-122 | a reboot, and only a reboot, is marked and followed by a forced sleep |
| UartPrime.PrimeDividesSquare | tlsr9/drivers/B91/uart.c:692 | a prime dividing a square divides its root, so the square of a prime has no smaller divisor to be found |
| UartPrime.SearchedThrough | tlsr9/drivers/B91/uart.c:692-697 | a number the loop finds no divisor of is a prime or the square of the last candidate |
| UartPrime.UartIsPrime | tlsr9/drivers/B91/uart.c:682-699 | ends for every input; up to 65531 squared it accepts primes, numbers up to 3 and squares of primes that are 5 modulo 6, above exactly the primes up to 2^32 - 15 |
| UartPrime.MissedSquareInstance | tlsr9/drivers/B91/uart.c:692 | 25 is such a square |
| UartPrime.StopsExactly | tlsr9/drivers/B91/uart.c:692 | some wrapped square ends the loop if and only if the number is not among the last fourteen of 32 bits |
| UartPrime.NoRootOfMinusSeven | tlsr9/drivers/B91/uart.c:692 | no candidate squares to -7 modulo 2^32, the one larger residue an odd square could have |
| UartDivisor.SearchRatioExact | tlsr9/drivers/B91/uart.c:206-219 | the search works on the next ratio if and only if the ratio is taken for a prime, or its first decimal is six or more and the next ratio is not taken |
| UartDivisor.SearchRatioIsRounded | tlsr9/drivers/B91/uart.c:206-219 | where neither neighbour is taken the clock is from four tenths of a baud below the searched ratio to six tenths above |
| UartDivisor.SearchRatioIsNotTaken | tlsr9/drivers/B91/uart.c:206-219 | the searched ratio is never one the test takes for a prime |
| UartDivisor.SearchRatioInstance | tlsr9/drivers/B91/uart.c:206-219 | 16 MHz and 460,800 baud are searched at 35 |
| UartDivisor.AdjustRatio | tlsr9/drivers/B91/uart.c:206-219 | the two tests and the truncated decimal come to that ratio |
| UartDivisor.ChoiceIsNearest | tlsr9/drivers/B91/uart.c:243-258 | the branches on the two extremes pick the best of all widths and roundings |
| UartDivisor.Extremes | tlsr9/drivers/B91/uart.c:228-241 | the last position of the least and of the greatest tenths digit |
| UartDivisor.NearestIsUnique | tlsr9/drivers/B91/uart.c:228-258 | nearest in tenths, then rounded up, then widest: that leaves one choice |
| UartDivisor.NearestIsClose | tlsr9/drivers/B91/uart.c:243-258 | the best choice moves the divider by half a unit at most |
| UartDivisor.DivValueRange | tlsr9/drivers/B91/uart.c:221-258 | from a ratio of 16 on the divisor is at least 1, and below 2^18 it fits 16 bits |
| UartDivisor.LowEnd | tlsr9/drivers/B91/uart.c:221-258 | the best choice does not drop below its register if and only if the adjusted ratio is at least four |
| UartDivisor.ClocksPerBit | tlsr9/drivers/B91/uart.c:243-258 | divisor times width is within eight clocks of the ratio |
| UartDivisor.RateIsClose | tlsr9/drivers/B91/uart.c:197-258 | the best choice errs by at most nine clocks per bit at every ratio |
| UartDivisor.RegistersInRange | tlsr9/drivers/B91/uart.c:197-258 | from an adjusted ratio of four to below 2^18 it fits its registers, below four the divider wraps, and the error bound holds wherever the divider fits |
| UartDivisor.UartCalDivAndBwpc | tlsr9/drivers/B91/uart.c:197-258 | the ratio searched in terms of clock and baud rate, the one best width and rounding for it, the registers, a clock error of at most nine clocks per bit from a ratio of three on and wherever the divider fits, and 0xffff below three |
| DmaLength.SizeRoundTrip | tlsr9/drivers/B91/dma.h:284-287 | the register value gives the size back if and only if the unit count fits its field |
| DmaLength.SizeInstance | tlsr9/drivers/B91/dma.h:284-287 | 0xFFFFFD reads back as -3 |
| DmaLength.Receiver.ReceiveDma | tlsr9/drivers/B91/uart.c:565-574 | the size that is kept and the size register |
| DmaLength.Receiver.GetDmaRevDataLen | tlsr9/drivers/B91/uart.c:582-595 | whatever number of bytes was received, that number if and only if the size was a multiple of four |
| DmaLength.LengthRecovered | tlsr9/drivers/B91/uart.c:582-595 | the received length is recovered if and only if the size was a multiple of four, and by how much it is off otherwise |
| DmaLength.LengthInstance | tlsr9/drivers/B91/uart.c:582-595 | five bytes received into five come out as 2^32 - 2^24 + 1 |
| SpiLoopback.Spi.SpiWrite | tlsr9/drivers/B91/spi.c:499-506 | the bytes are sent once and in order |
| SpiLoopback.Spi.SpiRead | tlsr9/drivers/B91/spi.c:516-523 | the bytes are taken once, in order and into their places |
| SpiLoopback.Spi.ClearFifos | tlsr9/drivers/B91/spi.c:620-622 | of the bytes under way only one in flight survives; an only outstanding byte does if and only if it has not arrived |
| SpiLoopback.Spi.Chunk | tlsr9/drivers/B91/spi.c:587-623 | one round with its clear: between rounds exactly one byte is outstanding, and none after the last |
| SpiLoopback.Spi.MasterWriteReadLoopback | tlsr9/drivers/B91/spi.c:572-626 | every byte is sent once, every place filled once and in order, for every length, provided the clears find the outstanding byte in flight |
| AnalogBuffer.Analog.ReadWholeWindows | tlsr9/drivers/B91/analog.c:315-330 | the first loop leaves one to four bytes and never wraps its counter |
| AnalogBuffer.Analog.ReadBuff | tlsr9/drivers/B91/analog.c:307-337 | byte k of the buffer is byte k of the source and nothing behind is written, for every 8-bit length |
| AnalogBuffer.Analog.WriteBuff | tlsr9/drivers/B91/analog.c:263-298 | byte k goes to register k mod 4 once and in order, the cycle starts after the first window, and the later full windows are waited for |
| Trng.StepMultiplies | tlsr9/drivers/B91/trng.c:97-98 | one update multiplies by the multiplier m, and divides by 2^16, modulo m 2^16 - 1 |
| Trng.AfterIsPower | tlsr9/drivers/B91/trng.c:97-98 | after k calls the state is the seed times m^k, modulo m 2^16 - 1 |
| Trng.AfterRange | tlsr9/drivers/B91/trng.c:97-98 | from the second call on the state is at most the modulus; it is zero exactly when the seed was |
| Trng.StateIsRepresentative | tlsr9/drivers/B91/trng.c:97-98 | from the second call on the state is the only number from 1 to the modulus with that residue |
| Trng.FixedPoints | tlsr9/drivers/B91/trng.c:97-98 | a generator stands still exactly on zero and on the modulus |
| Trng.MultipliersOfStates | tlsr9/drivers/B91/trng.c:97-98 | 18000 belongs to w and 36969 to z |
| Trng.Generator.Rand | tlsr9/drivers/B91/trng.c:94-102 | both states advance, and a bit of the result is set if and only if it is set in just one of the joined states and the timer tick |
| Trng.Generator.RandTimes | tlsr9/drivers/B91/trng.c:94-102 | k calls leave the states the lemmas on k steps speak of |

## Left out

- PkeMod.Mod: says nothing about the remainder when a run of the engine fails or when what is kept of the high part is more than twice the modulus, because the multiplier promises nothing for operands above its modulus; what the driver needs from MODMUL, MODADD and CAL_PRE_MON is assumed of the hardware and stated as their contracts.
- PkeMod.Mod: for an a above b, a is at most twice as long as b, as the operand slots demand, and the modulus has at most eight words with a non-zero top one; c overlaps neither operand.
- RightShift.Div2nU32: excludes shifts by a multiple of 32 that would leave more than one word, where the C code shifts a word by 32, and shifts by more words than there are.
- BigInteger.SubU32: says nothing about the value where the destination begins inside an operand past its first word, so that words are read that were already written.
- PkeEngine.Pke.RunModMul: the body is one engine that keeps the contract; execution configuration, interrupt flags and the wait for the engine are not modelled.
- FlashDriver.Mspi.WritePage: the busy time of every operation is below the poll bound of 10,000,000 status reads; interrupts around the operation, the callback inside the wait, code running from flash and the controller's own busy bit are not modelled.
- FlashDriver.Mspi.EraseRam: the body the four block-erase functions share; chip erase, status registers, locking, identifiers and power-down are left out.
- UtilityFifo.MyFifo.Push: a write past the buffer has no meaning in C and is excluded; RingFifo.PushLeavesBuffer says when that is.
- FifoQueue.RunRefines: pushes are whole, pops meet an entry, and num is a power of two up to 128; what readers make of messages that do not fit is not followed further than FifoQueue.PushStaysInSlot.
- FifoSteps.Delivery: one producer and one consumer, whose steps are atomic; the consumer pops only when there is an entry.
- SleepTicks.TimerSleepRoundTrip: calib is at least 32 and below 2^22, and the wake-up happens at the programmed tick.
- SleepTicks.SleepTimer.Recover: where the product passes 2^32 the span is told by SleepTicks.ShortRecoveryExact only; the build with the automatic system timer, which is the one configured; the wait for the next 32 kHz edge is not modelled.
- ClockDrift.PmClock.CalRcOffset: a zero divisor is excluded, as C demands; what the offset moves to is told for products that fit an int.
- ClockDrift.PmClock.BleCalRcOffset: likewise, and for positive periods.
- ClockDrift.PmClock.GetRcCalib: the register holds a sample below 2^27; the debug fields s0 and rc32_rt are not modelled.
- ClockDrift.CompensationIsSmall: for offsets within 0x100, which is what runs without the BLE calibration keep; the BLE clamp can be wider.
- BootStatus.RunReportsCauses: boots complete before the next event, the forced sleep is not one with retention, and applications leave the reserved bits alone; the extra sleep of the first chip version, the wake-up source and the pad flag are left out.
- UartDivisor.UartCalDivAndBwpc: ten times the clock plus ten fits 32 bits.
- DmaLength.LengthRecovered: the channel counts one word for every word begun; sizes up to 0xFFFFFC, as documented.
- SpiLoopback.Spi.MasterWriteReadLoopback: for more than four bytes the named hypothesis ClearSpares is taken of the timing; which of the four data registers a byte passes through, and the waits for room in the FIFO, are not modelled.
- AnalogBuffer.Analog.ReadBuff: lengths up to 255, all the 8-bit counter can hold.
- Trng.Generator.Rand: the system timer's tick is a parameter; the seeding is not modelled.
- Elliptic-curve operations of `pke.c` and the microcode itself: they load operands and trust the hardware.
- `swapN` and `swapX` of `utility.c`: byte reversal loops; they would only add easy members.
- `pm_set_wakeup_time_param`: constant sums of delays; it would only add easy members.
- The sleep sequences of `pm.c`, `clock.c` and `sys.c`: register recipes without a checkable invariant.
- Pin multiplexing, GPIO, ADC, audio, PWM, USB, RF, LPC, MDEC and S7816: register writes and small tables.
- The BLE stack, AES-CCM and ECC headers: declarations without bodies.
