# Verified models of BeRTOS algorithms and drivers

This project models the checksum, codec, fixed-point and pool code of `bertos/algo` and two interrupt-driven state
machines of `bertos/drv`, and proves what that code is for. Nothing here runs the C code.

| module | what it holds |
|---|---|
| `PolyDivision`, `PolyPeriod` | long division of bit strings by a generator polynomial: linearity, error bursts, parity, remainders, periods |
| `CTypes`, `BitOrder`, `Arithmetic` | C's unsigned types; words as bit strings in both orders; products, quotients and remainders |
| `Crc16`, `CrcCcitt`, `Crc8`, `CrcPeriod` | the three CRCs, as table lookups or bit operations, against that division |
| `Fletcher32` | the streaming checksum with its carried byte and deferred reduction |
| `Md2`, `Md2Answer` | the one-pass streaming digest, against the two passes of RFC 1319; its value for the empty message |
| `Rle` | the run-length encoder and decoder |
| `Ramp` | fixed-point acceleration ramps |
| `Table` | binary search and interpolation |
| `ByteOrder`, `Tea` | byte-order conversions, and the block cipher that uses them |
| `RandPool` | the entropy pool, which uses `Md2` and `ByteOrder` |
| `AdcRing` | the DMA ring of the ADS79xx driver and its reader |
| `Buzzer` | the buzzer driver and its timer interrupt |

Code that changes state step by step is a method with loops, or a class with the fields of the C structure; its
contract ties the new state to a specification function, and the properties are lemmas about that function. Where
C integers wrap or are cut, the model says so (`% 0x1_0000`, bit vectors, or a bounded type whose bounds are proved).

What the outside world decides is a parameter: the substitution of MD2, the byte order, the timer's readings, the
unwritten tail of a temporary buffer, the timer's frequency, and the order of interrupts and calls.

Some statements describe code that does not do what its documentation or assertions suggest:

* `ramp_evaluate` is documented not to work when the clock is zero. It divides by zero at every clock before
  `FirstClock`, which is clock 1024 for the longest ramp (`Ramp.DividesByZero`, `Ramp.FirstClocks`), and from
  `WrapClock` on its time starts again (`Ramp.TimeUncut`; for the shortest ramp, `Ramp.PastTheEnd`).
* The loop of `ramp_test_single` expects that a motor never slows down. On some legal ramps it does so at its first
  evaluation, because max_div_min is rounded down: from 2000 to 2004 clocks on a ramp from 2000 to 10
  (`Ramp.DriveSlowsDown`). `Ramp.DriveNeverSlowsDown` has the exact condition for every drive.
* A wavelength that does not fit 16 bits is cut to zero (`Ramp.KeepsAllBits` has the exact condition,
  `Ramp.WavelengthCutToZero` a legal ramp).
* Two equal wavelengths pass the assertion of `ramp_compute`, but do not give a constant speed
  (`Ramp.EqualWavelengths` for every time, `Ramp.EqualWavelengthsDiffer` for two clocks of one ramp).
* The assertions of `adc_dmaStartStreaming` accept a buffer of one slice, for which no slice is ever signalled
  (`AdcRing.SignalsEverySlice`), of one block, for which the DMA controller leaves the buffer
  (`AdcRing.StaysInside`), and of no bytes at all, for which the pointers never wrap (`AdcRing.EmptyBufferLeft`).
* The size of the entropy pool may be configured as any number from 1 on, but the blocks that `randpool_get` reads
  stay inside the pool only for multiples of 16 from 32 on (`RandPool.BlocksFit`).
* `randpool_add` takes no byte at all for more than 0xFFFFFFF8 bits of entropy, because its rounding wraps around
  (`RandPool.FewestBytes`).
* `buz_repeat_start` starts a repetition only if no `buz_repeat_stop` falls between its assignments and its beep;
  otherwise it leaves a single beep (`Buzzer.RepetitionBegins`, `Buzzer.StopInsideRepeatStart`).

## Model

| member | source | states |
|---|---|---|
| PolyDivision.FeedLinear | bertos/algo/crc.c:94-101 | the remainders of two messages of equal length differ by the remainder of their difference, for any generator |
| PolyDivision.FeedInjective | bertos/algo/crc.c:94-101 | different registers stay different under the same further data |
| PolyDivision.BurstDetected | bertos/algo/crc.c:94-101 | for a generator of width w, messages that differ only inside w consecutive bits leave different registers |
| PolyDivision.FeedByTable | bertos/algo/crc.h:87-94 | the identity behind table lookup: k data bits act through their XOR with the top k bits of the register |
| PolyDivision.FeedParity | bertos/algo/crc.c:94-101 | a generator divisible by x + 1 makes the register count ones modulo 2 |
| PolyDivision.RemainderUnique | bertos/algo/crc.c:94-101 | message and check bits form a multiple of the generator if and only if the check bits are the register, with the quotient as witness |
| PolyDivision.MultipleLeavesZero | bertos/algo/crc.c:94-101 | a string is a multiple of the generator if and only if it leaves the register at zero |
| PolyPeriod.XPowerAdd | bertos/algo/crc.c:94-101 | the register after m + n zero bits is the product modulo the generator of those after m and n |
| PolyPeriod.PrimitivePeriod | bertos/algo/crc.c:94-101 | when n is a period and no largest proper divisor of it is one, the periods are exactly the multiples of n |
| PolyPeriod.DoubleErrorMissed | bertos/algo/crc.c:94-101 | a two-bit error is missed if and only if the distance of the bits is a period of the generator |
| Crc16.Crc16 | bertos/algo/crc.c:94-101 | the loop over the buffer returns the register after the first `len` bytes |
| Crc16.TableIsEightShifts | bertos/algo/crc.c:59-92 | each of the 256 table entries is eight steps of x^16 + x^12 + x^5 + 1, high bit first |
| Crc16.UpdIsDivision | bertos/algo/crc.h:87-94 | one table step is eight steps of long division, for every register and byte |
| Crc16.CrcIsDivision | bertos/algo/crc.c:94-101 | for every message and start value, `crc16` is bit-by-bit long division |
| Crc16.CrcIsRemainder | bertos/algo/crc.h:80-94 | from the documented start value 0, the CRC is the one word that makes message and word a multiple of the generator |
| Crc16.BurstErrorDetected | bertos/algo/crc.c:94-101 | messages of equal length that differ only within 16 consecutive bits have different CRCs |
| Crc16.CrcParity | bertos/algo/crc.c:94-101 | the CRC's parity is that of the start value and of all message bits |
| Crc16.OddErrorDetected | bertos/algo/crc.c:94-101 | an odd number of flipped bits changes the CRC |
| Crc16.AppendedCrc | bertos/algo/crc.c:94-101 | two appended bytes give 0 if and only if they are the CRC, high byte first |
| CrcPeriod.PeriodIs32767 | bertos/algo/crc.c:59-101 | d zero bits take x^0 back to itself if and only if d is a multiple of 32767 |
| CrcPeriod.DoubleErrorMissedBy32767 | bertos/algo/crc.c:94-101 | `crc16` misses a two-bit error if and only if the bits are a multiple of 32767 apart |
| CrcCcitt.CrcCcitt | bertos/algo/crc_ccitt.c:75-82 | the loop over the buffer returns the register after the first `len` bytes |
| CrcCcitt.TableIsEightShifts | bertos/algo/crc_ccitt.c:40-73 | each of the 256 table entries is eight reflected steps with 0x8408 |
| CrcCcitt.UpdIsDivision | bertos/algo/crc_ccitt.h:56-59 | one table step is eight steps of long division, low bit first |
| CrcCcitt.CrcIsDivision | bertos/algo/crc_ccitt.c:75-82 | for every message and start value, `crc_ccitt` is bit-by-bit long division, low bit first |
| CrcCcitt.CrcIsRemainder | bertos/algo/crc_ccitt.h:56-62 | for every message and start value, the CRC is the one word that makes message and word a multiple of the generator, after the start value has been added to their first 16 bits |
| CrcCcitt.BurstErrorDetected | bertos/algo/crc_ccitt.c:75-82 | messages of equal length that differ only within 16 consecutive bits have different CRCs |
| CrcCcitt.DoubleErrorMissedBy32767 | bertos/algo/crc_ccitt.c:75-82 | a two-bit error is missed if and only if the bits are a multiple of 32767 apart |
| CrcCcitt.CrcParity | bertos/algo/crc_ccitt.c:75-82 | the CRC's parity is that of the start value and of all message bits |
| CrcCcitt.OddErrorDetected | bertos/algo/crc_ccitt.c:75-82 | an odd number of flipped bits changes the CRC |
| CrcCcitt.AppendedCrc | bertos/algo/crc_ccitt.c:75-82 | two appended bytes give 0 if and only if they are the CRC, low byte first |
| CrcCcitt.AppendedComplement | bertos/algo/crc_ccitt.c:75-82 | two appended bytes give 0xF0B8 if and only if they are the complement of the CRC, low byte first (RFC 1662, appendix C.2) |
| CrcCcitt.MirrorOfCrc16 | bertos/algo/crc_ccitt.h:56-59 | bit-reversing `crc16` of a message gives `crc_ccitt` of the bit-reversed start value and bytes |
| Crc8.Crc8 | bertos/algo/crc8.c:51-89 | the nested loops return the register after the first `len` bytes; the 16-bit loop counter limits `len` |
| Crc8.NextBit | bertos/algo/crc8.c:69-79 | the statements of the inner loop are one bit step |
| Crc8.CrcIsDivision | bertos/algo/crc8.c:62-86 | `crc8` is bit-by-bit long division by x^8 + x^5 + x^4 + 1, low bit first |
| Crc8.CrcIsRemainder | bertos/algo/crc8.c:51-89 | the CRC is the one byte that makes message and byte a multiple of the generator |
| Crc8.BurstErrorDetected | bertos/algo/crc8.c:62-86 | messages of equal length that differ only within 8 consecutive bits have different CRCs |
| Crc8.CrcParity | bertos/algo/crc8.c:62-86 | the CRC's parity is that of the start value and of all message bits |
| Crc8.OddErrorDetected | bertos/algo/crc8.c:62-86 | an odd number of flipped bits changes the CRC |
| Crc8.AppendedCrc | bertos/algo/crc8.c:62-86 | an appended byte gives 0 if and only if it is the CRC |
| Crc8.PeriodIs127 | bertos/algo/crc8.c:62-86 | d zero bits take x^0 back to itself if and only if d is a multiple of 127 |
| Crc8.DoubleErrorMissedBy127 | bertos/algo/crc8.c:62-86 | a two-bit error is missed if and only if the bits are a multiple of 127 apart |
| Fletcher32.Fletcher32.constructor | bertos/algo/fletcher32.c:42-47 | the initial state stands for no bytes |
| Fletcher32.NextWordFits | bertos/algo/fletcher32.c:70-82 | from the bounds of a block start, no 32-bit addition wraps within 360 words |
| Fletcher32.FoldBounds | bertos/algo/fletcher32.c:83-84 | folding at the end of a block restores the bounds of a block start |
| Fletcher32.Fletcher32.AddBlock | bertos/algo/fletcher32.c:75-84 | the inner loop adds a block of at most 360 words without overflow, and the fold keeps both sums' meaning modulo 65535 |
| Fletcher32.Fletcher32.AddWords | bertos/algo/fletcher32.c:70-85 | the outer loop adds all complete words, block by block |
| Fletcher32.Fletcher32.Update | bertos/algo/fletcher32.c:49-86 | after any update, odd lengths included, sums and carry stand for all bytes given so far |
| Fletcher32.Fletcher32.Final | bertos/algo/fletcher32.c:88-107 | the result is the two Fletcher sums modulo 65535 of the zero-padded little-endian words of all bytes, with residue 0 as 0xFFFF, whatever the updates were |
| Fletcher32.Halves | bertos/algo/fletcher32.c:49-107 | for every byte string both halves lie from 1 to 0xFFFF; modulo 65535 the low one is the sum of the bytes, odd places times 256, and the high one the same sum with every byte counted once for each word from its own to the last |
| Fletcher32.KnownAnswer | bertos/algo/fletcher32.c:49-107 | the checksum of "abcde" is 0xF04FC729 |
| Fletcher32.AddLast | bertos/algo/fletcher32.c:94-100 | the odd byte is added as the last word, zero-padded |
| Fletcher32.Pack | bertos/algo/fletcher32.c:102-106 | the second reduction leaves the two residues, which fit the halves of the result |
| Fletcher32.OneWordChange | bertos/algo/fletcher32.c:49-107 | changing one word is missed if and only if it exchanges 0x0000 and 0xFFFF |
| Fletcher32.SwappedWords | bertos/algo/fletcher32.c:49-107 | exchanging two words is missed if and only if distance times difference vanishes modulo 65535 |
| Md2.MixBijective | bertos/algo/md2.c:163-172 | for any substitution the rounds have an explicit inverse: different arrays mix to different arrays, and every array is reached |
| Md2.UnmixMix | bertos/algo/md2.c:163-172 | undoing n rounds gives back the array |
| Md2.RoundLaw | bertos/algo/md2.c:163-172 | one more round XORs each byte with the substitute of the new byte before it, the first one with that of 0 in the first round and later of the old last byte plus the number of the round before |
| Md2.ChecksumLaw | bertos/algo/md2.c:176-182 | one more block XORs each checksum byte with the substitute of message byte XOR the checksum byte written before it |
| Md2.BuiltInIsPermutation | bertos/algo/md2.c:94-109 | the built-in substitution is a permutation of the 256 byte values, with an explicit inverse |
| Md2.Pad | bertos/algo/md2.c:120-133 | the block starts with `len_pad` bytes of that value, and the rest is unchanged |
| Md2.PaddingInjective | bertos/algo/md2.c:120-133 | no two messages are equal after padding |
| Md2.FillArray | bertos/algo/md2.c:151-158 | the three parts of the compute array are state, block and their XOR |
| Md2.MixRounds | bertos/algo/md2.c:163-172 | the nested loops in place compute the 18 rounds |
| Md2.UpdateChecksum | bertos/algo/md2.c:176-182 | the loop in place turns the checksum of a message into that of the message and one more block |
| Md2.Compute | bertos/algo/md2.c:135-189 | one block is compressed into the state and added to the checksum |
| Md2.Md2Context.constructor | bertos/algo/md2.c:196-201 | a cleared context stands for no bytes |
| Md2.Md2Context.CopyIn | bertos/algo/md2.c:226-232 | bytes are stored behind those in the buffer |
| Md2.Md2Context.Flush | bertos/algo/md2.c:239-243 | a full buffer is processed, and the context stands for the same bytes |
| Md2.Md2Context.Absorb | bertos/algo/md2.c:215-244 | one round of the loop consumes at least one and exactly `cpy_len` bytes |
| Md2.Md2Context.Update | bertos/algo/md2.c:206-247 | after any split into updates, buffer, state, checksum and counter are those of all bytes given so far |
| Md2.SplitInvariant | bertos/algo/md2.c:206-247 | two contexts that were given the same bytes in different updates are identical, and the counter is below 16 |
| Md2.Md2Context.End | bertos/algo/md2.c:256-278 | the digest is that of sections 3.1 to 3.5 of RFC 1319 (with the published erratum for the checksum) on the whole message, returned in the state |
| Md2Answer.EmptyMessage | bertos/algo/md2.c:94-278 | with the built-in substitution the digest of the empty message is 0f2d20cc7fd8a5596eb1a7a5a57a65e9, through all rounds of both blocks |
| Rle.RoundTrip | bertos/algo/rle.c:48-150 | decoding an encoding gives back every input and uses exactly the bytes written, whatever lies behind them |
| Rle.Headers | bertos/algo/rle.c:98-104 | every header but the end mark is nonzero and from -127 to 127, and is the length of its run |
| Rle.Progress | bertos/algo/rle.c:57-107 | the encoder moves on in every round, although the scan backs up by two |
| Rle.LiteralStops | bertos/algo/rle.c:70-90 | a literal run shorter than 127 bytes that does not end the input is followed by three equal bytes |
| Rle.RunsAreMaximal | bertos/algo/rle.c:57-90 | no three equal bytes lie inside a literal run; a repetition holds one value, and if it is shorter than 127 bytes the next byte differs |
| Rle.WorstCaseSize | bertos/algo/rle.c:57-109 | n bytes are encoded in at most n + ceil(n / 127) + 1 |
| Rle.WorstCaseReached | bertos/algo/rle.c:57-109 | for every n some input needs exactly that many |
| Rle.Rle | bertos/algo/rle.c:48-109 | the encoder writes exactly the encoding, returns its length and touches nothing behind it |
| Rle.FindRun | bertos/algo/rle.c:59-90 | the two scans find the end of the run |
| Rle.ScanLiteral | bertos/algo/rle.c:70-90 | the scan for three equal bytes finds the end of the literal run |
| Rle.PutChunk | bertos/algo/rle.c:92-105 | one run is written with its header |
| Rle.DecodeStep | bertos/algo/rle.c:128-147 | when an end mark follows, each round of the decoder reads inside its input and writes inside its output |
| Rle.Unrle | bertos/algo/rle.c:119-150 | the decoder writes exactly what its input stands for, returns its length and touches nothing behind it |
| Ramp.FixMult32ByBytes | bertos/algo/ramp.c:172-181 | eight bits at a time in 32-bit arithmetic gives the same as the 64-bit product of FIX_MULT32, for 24-bit factors |
| Ramp.InverseFits | bertos/algo/ramp.c:131-133 | the assertion on inv_total_time accepts exactly the ramps of at least 1024 clocks |
| Ramp.TimeUncut | bertos/algo/ramp.c:191 | for every ramp and clock, the time loses no bits in its cast if and only if the clock lies before `WrapClock` |
| Ramp.EndsBeforeWrap | bertos/algo/ramp.c:191 | `WrapClock` lies behind the end of the ramp |
| Ramp.TimeRestarts | bertos/algo/ramp.c:191 | at `WrapClock` the time of every legal ramp falls back from the last 1/256 of the whole to the first |
| Ramp.DenominatorIs | bertos/algo/ramp.c:184-192 | for a time of at least one unit no cast in the denominator loses bits |
| Ramp.DividesByZero | bertos/algo/ramp.c:189-196 | before `WrapClock`, the division is by zero if and only if the clock lies before `FirstClock` |
| Ramp.KeepsAllBits | bertos/algo/ramp.c:193 | the wavelength fits 16 bits if and only if a condition on precomputed value and time holds; otherwise it is cut to 0 |
| Ramp.Bounds | bertos/algo/ramp.c:189-196 | the wavelength lies between clocksMinWL and (clocksMinWL << 16) / max_div_min, which exceeds clocksMaxWL by less than clocksMaxWL / max_div_min |
| Ramp.StaysBelowLongest | bertos/algo/ramp.c:189-196 | a wavelength that keeps its bits does not exceed clocksMaxWL if and only if a condition on the precomputed value and the time holds |
| Ramp.NeverSlowsDown | bertos/algo/ramp.c:189-196 | before `WrapClock`, the wavelength does not grow with the clock |
| Ramp.DriveNeverSlowsDown | bertos/algo/ramp_test.c:128-150 | a whole drive, from clocksMaxWL on and each step waiting the wavelength of the last, never slows down if and only if its first evaluation stays within clocksMaxWL; the same evaluation decides whether all wavelengths are at least clocksMinWL or all are zero |
| Ramp.EndsAtShortest | bertos/algo/ramp.c:189-196 | every usable ramp ends within 1/255 of its shortest wavelength |
| Ramp.CloseToCurve | bertos/algo/ramp.c:45-82 | all cuts together never make a wavelength w shorter than that of the exact curve, rounded down, nor longer than 1 + 259 * w / (65536 * clocksMinWL) times it |
| Ramp.RatioUncut | bertos/algo/ramp.c:109-124 | max_div_min keeps its bits if and only if the two wavelengths differ; equal ones make it 0 |
| Ramp.EqualWavelengths | bertos/algo/ramp.c:189-196 | with equal wavelengths w the result is (w << 16) / t, cut to 16 bits; it loses no bits if and only if w < t, and the quotient is w if and only if w * (65536 - t) < t |
| Ramp.Ramp.Compute | bertos/algo/ramp.c:109-136 | the fields after the call, under its assertions |
| Ramp.Ramp.EvaluateAt | bertos/algo/ramp.c:189-196 | the value of the evaluation function, and exactly when it divides by zero before `WrapClock` |
| Table.UpperBound | bertos/algo/table.c:42-59 | the binary search returns the number of entries at or before x, duplicates included |
| Table.LinearInterpolation | bertos/algo/table.c:79-91 | the result is the interpolation function |
| Table.DivisorIsPositive | bertos/algo/table.c:87-90 | x lies in the chosen segment, whose length is positive even with duplicates |
| Table.Outside | bertos/algo/table.c:82-85 | before the first x the first y, from the last x on the last y |
| Table.AtEntry | bertos/algo/table.c:79-91 | at an entry the value is that of the last entry with this x |
| Table.Inside | bertos/algo/table.c:87-90 | the value lies between the neighbouring y and within less than one of the exact quotient, on the side of the entry before x |
| Table.Monotone | bertos/algo/table.c:79-91 | with ascending y the interpolation ascends over all x, across segments and ends |
| Table.NegatedInterpolation | bertos/algo/table.c:90 | C's division rounds alike in both directions: negating every y negates the result |
| Table.MonotoneDown | bertos/algo/table.c:79-91 | with descending y the interpolation descends |
| Table.NoOverflow | bertos/algo/table.c:87-90 | if the differences of neighbours fit an `int` of at most max and (max - 1) * max fits a `long`, every value on the way fits |
| Table.OverflowReached | bertos/algo/table.c:87-90 | for every max some such table reaches the product (max - 1) * max, so a smaller `long` does not do |
| ByteOrder.ConversionsInvert | bertos/cpu/byteorder.h:64-116 | on either processor the 32-bit conversions undo themselves, and the two orders are byte swaps of each other |
| ByteOrder.LoadIsLittleEndian | bertos/cpu/byteorder.h:91-105 | a converted word means the same bytes in memory on either processor |
| ByteOrder.StoreIsLittleEndian | bertos/cpu/byteorder.h:91-116 | storing a converted word writes the same bytes on either processor |
| Tea.DecryptEncrypt | bertos/algo/tea.c:81-130 | decryption undoes encryption, for every key, block and number of rounds |
| Tea.EncryptDecrypt | bertos/algo/tea.c:81-130 | encryption undoes decryption |
| Tea.LastSum | bertos/algo/tea.c:113 | DELTA * ROUNDS in 32 bits is the sum after the last round of encryption |
| Tea.BytesRoundTrip | bertos/algo/tea.c:81-130 | both directions, on the bytes of block and key |
| Tea.KeyMeetsShift | bertos/algo/tea.c:69-72 | the first key word is added to the input shifted left by 4, the second to the input shifted right by 5 |
| Tea.SumMeetsInput | bertos/algo/tea.c:69-72 | the running sum is added to the input itself |
| Tea.KnownBytes | bertos/algo/tea.c:81-101 | a known answer over 32 rounds with four different key words |
| Tea.Mix | bertos/algo/tea.c:69-72 | `tea_func` on a key in memory is the same on processors of either byte order |
| Tea.ReadBlock | bertos/algo/tea.c:89-90 | the registers hold the block's little-endian words on either processor |
| Tea.WriteBlock | bertos/algo/tea.c:99-100 | the block's bytes are the registers' little-endian bytes on either processor |
| Tea.TeaEnc | bertos/algo/tea.c:81-101 | the block in memory becomes its encryption, the same bytes on processors of either byte order |
| Tea.TeaDec | bertos/algo/tea.c:110-130 | the block in memory becomes its decryption |
| RandPool.PushedCell | bertos/algo/randpool.c:68-73 | every cell is XORed with exactly the bytes at its places in the stream, modulo the size |
| RandPool.PushConcat | bertos/algo/randpool.c:58-76 | a series of pushes is one push of the concatenation |
| RandPool.PushTwice | bertos/algo/randpool.c:58-76 | the same push at the same place again undoes the first |
| RandPool.PushInjective | bertos/algo/randpool.c:58-76 | no push makes different pools equal |
| RandPool.PushCommutes | bertos/algo/randpool.c:58-76 | the order of two pushes at given positions does not matter |
| RandPool.AddedKeepsApart | bertos/algo/randpool.c:120-154 | adding the same data at the same time keeps different pools different |
| RandPool.AddedPushes | bertos/algo/randpool.c:120-139 | an add is four pushes: the data, the time, four bytes 0xAA, and the time since the last use |
| RandPool.DeltaBetweenAdds | bertos/algo/randpool.c:130-149 | the time difference of an add is that between the two readings of the timer |
| RandPool.FewestBytes | bertos/algo/randpool.c:123 | the bytes taken for some bits are the fewest that hold them if and only if there are at most 0xFFFFFFF8; for more the rounding wraps around and none is taken |
| RandPool.StirredPosition | bertos/algo/randpool.c:83-115 | stirring moves the next position on by the 24 bytes of its time stamps; the digests go exactly once round the pool |
| RandPool.StirredCounter | bertos/algo/randpool.c:91-108 | stirring counts once for each block of the pool, in 32 bits |
| RandPool.RoundHashes | bertos/algo/randpool.c:93-106 | each round hashes the whole pool and the temporary buffer behind all that earlier rounds hashed, and pushes that digest |
| RandPool.Stirred | bertos/algo/randpool.c:83-115 | stirring keeps all positions legal, and the entropy count and the read position unchanged |
| RandPool.Run | bertos/algo/randpool.c:120-248 | in every state that adds and gets can reach, all positions are legal |
| RandPool.EntropyIsSumOfCredits | bertos/algo/randpool.c:120-248 | after any run the entropy count is the sum of all bits added, of the timer's bits, and minus all bytes taken, in 32 bits |
| RandPool.TimeCreditBound | bertos/algo/randpool.c:139-147 | the timer is worth at most eight bits per use |
| RandPool.BitLengthIs | bertos/algo/randpool.c:142-147 | the bits counted for a time difference x are the n with 2^(n-1) <= x < 2^n |
| RandPool.ShorterIsPrefix | bertos/algo/randpool.c:205-248 | asking for fewer bytes gives the first of those a longer request would get |
| RandPool.GetEffect | bertos/algo/randpool.c:205-248 | a get of n bytes stirs the pool exactly once for each lap to its end that it completes: write position, counter and read position afterwards, for every legal pool and n |
| RandPool.GetTooShort | bertos/algo/randpool.c:222-243 | a get that completes no lap leaves all cells as they were |
| RandPool.FirstBlock | bertos/algo/randpool.c:222-232 | the first block returned is the MD2 digest of the sixteen cells at the read position |
| RandPool.NextBlock | bertos/algo/randpool.c:222-243 | behind a block comes the next one of the same pool, as long as there is one |
| RandPool.BlockOfStirred | bertos/algo/randpool.c:234-241 | behind the last block comes the one at the read position of the stirred pool, and the digest runs on |
| RandPool.BlocksFit | bertos/algo/randpool.c:215-243 | all blocks read lie inside the pool, for ever, if and only if its size is a multiple of 16 from 32 on |
| RandPool.VisitedNext | bertos/algo/randpool.c:234-241 | the positions of BlocksFit follow each other as the next read position does |
| RandPool.VisitedByGet | bertos/algo/randpool.c:219-245 | a request for n bytes moves the read position on by ceil(n / 16) of them |
| RandPool.EntropyPool.constructor | bertos/algo/randpool.c:161-186 | the initial pool, with or without an earlier one; its positions are legal if and only if its size is a multiple of 16 from 32 on |
| RandPool.RestoredCells | bertos/algo/randpool.c:161-186 | a pool starts with as many bytes of an earlier one as fit, in order, then zeros, and counts each byte as one of entropy |
| RandPool.EntropyPool.PushBytes | bertos/algo/randpool.c:58-76 | the loop pushes exactly the given bytes |
| RandPool.EntropyPool.Add | bertos/algo/randpool.c:120-154 | the new pool is the specified one: data, time stamp, separator and time difference pushed, entropy counted |
| RandPool.AddBits | bertos/algo/randpool.c:142-147 | the loop adds one for every bit of the time difference |
| RandPool.EntropyPool.Stir | bertos/algo/randpool.c:83-115 | the new pool is the specified one, with one digest running through all rounds |
| RandPool.EntropyPool.StirOnce | bertos/algo/randpool.c:93-108 | one round hashes the pool and the temporary buffer and pushes the digest |
| RandPool.EntropyPool.Get | bertos/algo/randpool.c:205-248 | the loop ends, exactly `n_byte` bytes are written, they are the specified digests, and the new pool is the specified one |
| RandPool.EntropyPool.GetOnce | bertos/algo/randpool.c:222-243 | one round writes one digest, or the part of it that is wanted, and moves on or stirs |
| AdcRing.MoveIsNextPlace | bertos/drv/ads79xx.c:121-128 | a pointer moving in steps that divide the buffer meets its end exactly and wraps |
| AdcRing.TailAfter | bertos/drv/ads79xx.c:134-170 | after i interrupts the tail is base + (i * block length mod buffer length) |
| AdcRing.EndReached | bertos/drv/ads79xx.c:159 | with two slices or more, comparing the two wrapped pointers tells exactly when a slice is full |
| AdcRing.SignalsAfter | bertos/drv/ads79xx.c:158-165 | after i interrupts exactly the full slices have been signalled, and the slice end is the next boundary |
| AdcRing.SignalsEverySlice | bertos/drv/adc.h:155-172 | every full slice is signalled if and only if the buffer holds two slices or more |
| AdcRing.DmaAfter | bertos/drv/ads79xx.c:149-156 | both blocks known to the controller are the next two of the ring |
| AdcRing.StaysInside | bertos/drv/ads79xx.c:225-251 | the controller stays inside the buffer for ever if and only if the buffer holds two blocks or more |
| AdcRing.EmptyBufferLeft | bertos/drv/adc.h:155-172 | a buffer of length zero passes the assertions, and its pointers never wrap |
| AdcRing.HookBlock | bertos/drv/ads79xx.c:141-145 | the hook gets the block that was just filled, while another one is being filled |
| AdcRing.Overwritten | bertos/drv/ads79xx.c:134-170 | a slice is being overwritten if and only if the slice of the current block is a whole number of rounds ahead |
| AdcRing.ReturnedSlice | bertos/drv/ads79xx.c:177-216 | the slice of the k-th wait is complete, and is being overwritten if and only if the signals are a whole number of rounds ahead |
| AdcRing.IrqConsistent | bertos/drv/ads79xx.c:134-170 | the handler keeps the reader's state consistent at any point of its wait |
| AdcRing.TakeConsistent | bertos/drv/ads79xx.c:200-202 | taking a slice keeps the reader's state consistent |
| AdcRing.AdcContext.StartStreaming | bertos/drv/adc.h:155-172 | the state in which streaming starts |
| AdcRing.AdcContext.DmaStart | bertos/drv/ads79xx.c:225-251 | the ring pointers and the two DMA blocks at the start |
| AdcRing.AdcContext.Irq | bertos/drv/ads79xx.c:134-170 | the handler moves the state on by exactly one interrupt and gives the old tail to the hook |
| AdcRing.AdcContext.TakeSlice | bertos/drv/ads79xx.c:196-202 | the returned slice is complete; if every wait saw exactly one signal it is the last one, and the controller is not writing to it |
| Buzzer.RunConsistent | bertos/drv/buzzer.c:61-141 | over every interleaving, buz_timer_running holds exactly when the timer is queued, and a buzzer that is on has its timer queued |
| Buzzer.OffAfterStop | bertos/drv/buzzer.c:125-141 | after a stop, whatever came before, the buzzer stays off until the next beep |
| Buzzer.StaysSilent | bertos/drv/buzzer.c:61-141 | once silent, only a beep makes a sound |
| Buzzer.AfterRepeatStart | bertos/drv/buzzer.c:114-119 | with any interrupts, beeps and stops between its steps, and whatever the buzzer did before, the result of `buz_repeat_start` depends only on whether there was a stop |
| Buzzer.RepetitionBegins | bertos/drv/buzzer.c:114-141 | with an interval other than zero the repetition begins if and only if no stop falls inside `buz_repeat_start` |
| Buzzer.RepeatStartAtomic | bertos/drv/buzzer.c:114-119 | interrupts alone never keep the repetition from beginning |
| Buzzer.Alternates | bertos/drv/buzzer.c:61-84 | a repetition alternates for ever between beep and pause, each with its own delay |
| Buzzer.Period | bertos/drv/buzzer.c:61-84 | n rounds of a repetition take n times the sum of the two delays |
| Buzzer.RepetitionSounds | bertos/drv/buzzer.c:61-84 | in n rounds of a repetition the buzzer sounds for n times the duration |
| Buzzer.BeepEnds | bertos/drv/buzzer.c:61-108 | a beep ends with its first interrupt, for good if and only if no repetition is set |
| Buzzer.BeepTime | bertos/drv/buzzer.c:90-108 | whatever the buzzer did before, the first interrupt after a beep comes after exactly the time asked for, and turns the buzzer off |
| Buzzer.LastBeepCounts | bertos/drv/buzzer.c:90-108 | after any beeps and interrupts, one more beep leaves the state that it would leave without them |
| Buzzer.BeepSounds | bertos/drv/buzzer.c:61-108 | without a repetition the total sounding time of a beep is exactly the time asked for |
| Buzzer.StopInsideRepeatStart | bertos/drv/buzzer.c:114-141 | after a stop anywhere inside `buz_repeat_start`, and any interrupts and beeps around it, the repetition is a single beep |
| Buzzer.Driver.constructor | bertos/drv/buzzer.c:148-158 | the initial state |
| Buzzer.Driver.Fire | bertos/drv/buzzer.c:61-84 | the interrupt is one step of the state machine, and never adds a queued timer |
| Buzzer.Driver.Beep | bertos/drv/buzzer.c:90-108 | a beep is one step, and never aborts a timer that is not queued or adds one that is |
| Buzzer.Driver.RepeatStart | bertos/drv/buzzer.c:114-119 | with any number of interrupts at its two gaps, the repetition begins |
| Buzzer.Driver.Stop | bertos/drv/buzzer.c:125-141 | a stop is one step, and never aborts a timer that is not queued |

## Left out

- Program-memory reads, atomic blocks and table alignment: a read is an array read, an atomic block is one step.
- Buffers that are only read are sequence values, so an output that overlaps an input is not modelled.
- Fletcher32.Fletcher32.Update: the prefetch of one word behind the input and `buf[len - 1]` of an empty input read unspecified bytes that are never added to a sum.
- Crc8.Crc8: for more than 65535 bytes the 16-bit loop counter never reaches the length, so such lengths are a precondition.
- Md2: the 256 values of the table of RFC 1319 (the substitution is arbitrary), the clearing of the compute array at the end of a block, and the self test.
- Rle.Rle: a negative length behaves like an empty input; an output buffer without room for the encoding is a precondition.
- Rle.Unrle: an input without an end mark makes the C code read on behind it, so reaching one is a precondition.
- Ramp: the floating-point configuration, and `ramp_setup` with its unit conversions (the clock constant of `hw/hw_stepper.h` is not part of this model); a maximum wavelength of zero and a ramp below four clocks, for which `ramp_compute` divides by zero.
- Table.Interpolation: arithmetic is on unbounded integers (Table.NoOverflow says when that is exact); an empty table, which the C code reads outside its bounds, is a precondition.
- ByteOrder: the 16-bit, 64-bit and floating-point conversions, which are of the same kind, and the atomic exchange.
- RandPool: the configuration without the timer; `size_t` and `ticks_t` are taken to have 32 bits. What `sprintf` writes is arbitrary. The entropy count is kept as in the code, which adds bits and subtracts bytes.
- RandPool.EntropyPool.Get: pools whose size RandPool.BlocksFit refuses, for which the C code reads outside the pool.
- AdcRing: the registers of the serial controller, the network variant of the driver, the hook itself (a nonzero slice length stands for it), and interrupts that come too late for a completed transfer. The counter `cnt` is unbounded.
- AdcRing.AdcContext.StartStreaming: a buffer of length zero, which AdcRing.EmptyBufferLeft treats.
- AdcRing.AdcContext.WaitEvent: the assertion of debug builds that `cnt` is zero before the wait.
- Table.LinearInterpolation: like Table.Interpolation, on unbounded integers.
- Buzzer: the order of timers in the timer queue and the clock; an interrupt may come at any moment while the timer is queued.
- The wizard, the documentation, the configuration headers, and the floating-point, random-number and hash headers of `bertos/algo`.
