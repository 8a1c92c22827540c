# soft_i2c in Dafny

A model of the software (bit-banged) I2C master in `src/soft_i2c.c` and
`src/soft_i2c.h`. The master drives SDA and SCL through two pin routines and
samples SDA through the same routine. On top of the start, repeated-start,
stop, byte-write and byte-read primitives it runs two transactions:

- a register write: device address, register address, then data elements;
- a register read: an optional dummy write of the register address, a
  repeated START, the device address in the read direction, then the data.

Data elements are 1 to 32 bits wide. They are reordered between the master's
and the slave's byte order. `soft_i2c_init_ex` validates and stores the
configuration and picks a delay routine that suits the bus speed.

Modules:

- `SoftI2cHeader` (`header.dfy`): the constants, the validity macros, and the
  configuration the handle stores.
- `Bus` (`bus.dfy`): the pin table as a class `PinOps`. Every drive and every
  SDA sample is appended to a `trace`. The levels the slave presents come from
  a queue `replies`.
- `Bits` (`bits.dfy`): the line events of each primitive, bit order,
  assembling a byte from samples, and an interpreter that finds the START and
  STOP conditions in a trace.
- `Frames` (`frames.dfy`): device-address frames (7 and 10 bit) and
  register-address bytes.
- `Reorder` (`reorder.dfy`): which byte of an element's buffer slot goes on
  the wire at each position, and where a received byte is stored.
- `Transfer` (`transfer.dfy`): whole transactions as functions of the
  configuration, the buffer and the slave's samples: the trace, the samples
  consumed, the returned count and the buffer after a read.
- `Setup` (`setup.dfy`): the status of `soft_i2c_init_ex`, the configuration
  it stores, and the choice of delay routine and delay argument.
- `Engine` (`engine.dfy`): the handle `struct soft_i2c` as a class
  `SoftI2c`, its primitives and transactions as methods proved against
  `Bits` and `Transfer`, and `InitEx`/`Init`.

The device's behaviour is an input. The sequence of SDA levels it presents
at the sample points is an arbitrary `seq<bv8>`. Every property below holds
for every such sequence.

## Model

| member | source | states |
|---|---|---|
| SoftI2cHeader.IsLegalSpeed | src/soft_i2c.h:44-47 | a legal speed (100..400000) is positive and fits the 19-bit `speed` field of the handle |
| SoftI2cHeader.IsBitOrder | src/soft_i2c.h:55-58 | a legal bit-order code is 0 or 1, so it fits the 1-bit `xSB` field |
| SoftI2cHeader.IsEndian | src/soft_i2c.h:66-69 | a legal endianness code is 0 or 1, so it fits the 1-bit endianness fields |
| SoftI2cHeader.BitOrderOf | src/soft_i2c.h:55-58 | a legal code means MSB first exactly when it is `SOFT_I2C_MSB` |
| SoftI2cHeader.EndianOf | src/soft_i2c.h:66-69 | a legal code means little-endian exactly when it is `SOFT_I2C_LITTLE_ENDIAN` |
| SoftI2cHeader.CodesRoundTrip | src/soft_i2c.h:55-69 | the stored bit order and endianness give back the legal code they came from |
| Bus.PinOps.constructor | src/soft_i2c.h:107-113 | a pin table starts with an empty trace and the slave's levels still to come |
| Bus.PinOps.Sda | src/soft_i2c.h:107-111 | driving SDA appends exactly that drive to the trace and consumes no sample |
| Bus.PinOps.Scl | src/soft_i2c.h:112 | driving SCL appends exactly that drive to the trace and consumes no sample |
| Bus.PinOps.ReadSda | src/soft_i2c.h:107-111 | `sda(2)` returns the next level the slave presents (released high if none), consumes it and records the sample |
| Bits.BitFramesSnoc | src/soft_i2c.c:43-58 | each pass of the write loop adds one bit: SDA to bit i in the configured order, then an SCL high and low pulse |
| Bits.AckOf | src/soft_i2c.c:64-68 | `write_byte` returns ACK exactly when the sampled level is 0, and NACK for any other level, an error level included |
| Bits.AssembleSnoc | src/soft_i2c.c:81-90 | each pass of the read loop shifts the byte by one place in the configured order and ORs in the new sample |
| Bits.AssembleEight | src/soft_i2c.c:73-94 | the byte `read_byte` assembles from eight 0/1 samples, written out bit by bit for both orders |
| Bits.AssembleWireBits | src/soft_i2c.c:43-53 | reading back the bits `write_byte` puts on SDA, in the same order, gives back the byte |
| Bits.WireBitsAssemble | src/soft_i2c.c:76-90 | eight 0/1 samples assembled into a byte are exactly the wire bits of that byte |
| Bits.BitOrderReversal | src/soft_i2c.c:46-53 | LSB-first order is MSB-first order reversed, and either order reads back the same byte |
| Bits.StartGeneratesStart | src/soft_i2c.c:17-31 | `start` and `restart` drive the same four events, which produce exactly one START condition and leave both lines low |
| Bits.StopGeneratesStop | src/soft_i2c.c:33-39 | `stop` produces exactly one STOP condition and leaves the bus idle (both lines high) |
| Bits.BitFramesQuiet | src/soft_i2c.c:43-58 | the data bits of a byte change SDA only while SCL is low, so they produce no START or STOP |
| Bits.WriteByteQuiet | src/soft_i2c.c:41-69 | a whole `write_byte`, acknowledge slot included, produces no START or STOP and ends with SCL low |
| Bits.SampleFramesQuiet | src/soft_i2c.c:76-94 | the eight sampling pulses of `read_byte` produce no condition and leave the lines as they were |
| Bits.ReadByteQuiet | src/soft_i2c.c:71-104 | a whole `read_byte`, its acknowledge included, produces no START or STOP and ends with SCL low |
| Frames.ByteLen | src/soft_i2c.c:109-110 | `bits / 8` rounded up: the fewest whole bytes that hold the bits |
| Frames.LegalSizeByteLen | src/soft_i2c.c:109-110 | a legal register-address or data width takes one to four bytes |
| Frames.AddressFrame | src/soft_i2c.c:120-137 | the device address is one byte at 7-bit size and two bytes otherwise |
| Frames.Address7Exact | src/soft_i2c.c:122 | a 7-bit address frame is `(d_addr << 1) \| dir` without truncation, so it carries the address and the direction |
| Frames.Address10Layout | src/soft_i2c.c:129-136 | the first 10-bit byte is 11110xxd with the two high address bits and the direction; the second is the low eight bits |
| Frames.AddressFrameRoundTrip | src/soft_i2c.c:119-137 | a slave decoding the frame of a valid configuration gets back the configured address and the direction |
| Frames.LeValueOfAddress | src/soft_i2c.c:144 | the low k address bytes, recombined least significant first, are the address modulo 2^(8k) |
| Frames.RegisterFrameOrder | src/soft_i2c.c:140-156 | a little-endian register address sends the address modulo 2^(8·len) least significant byte first; big-endian sends the same bytes reversed |
| Reorder.Stride | src/soft_i2c.c:114 | an element's slot is 1, 2 or 4 bytes and holds all of its bytes |
| Reorder.WriteIndex | src/soft_i2c.c:163-198 | the i-th byte sent is the byte of the value whose significance the slave expects at i, found where the master's byte order keeps it |
| Reorder.WriteIndexInjective | src/soft_i2c.c:163-198 | the bytes of one element are sent from distinct slot positions |
| Reorder.WriteIndexCoversValue | src/soft_i2c.c:162-198 | the positions sent are exactly the low `data_len` slot bytes for a little-endian master and the high ones for a big-endian master |
| Reorder.ReadIndex | src/soft_i2c.c:293-317 | each received byte is stored at the slot position the write side sends it from (corrected; see Findings) |
| Reorder.ReadIndexAsWritten | src/soft_i2c.c:296-317 | the source's read index stays inside the element's slot |
| Reorder.ReadIndexAsWrittenAgrees | src/soft_i2c.c:296-317 | the source's read indices match the write side in every case except little-endian master, big-endian slave, 3-byte data |
| Reorder.ReadIndexAsWrittenShifts | src/soft_i2c.c:311 | in that case every received byte lands one position too high: byte 3 is written and byte 0 never is |
| Transfer.AddressLen | src/soft_i2c.c:109 | a valid configuration has one to four register-address bytes |
| Transfer.DataLen | src/soft_i2c.c:110 | a valid configuration has one to four bytes per data element |
| Transfer.Slot | src/soft_i2c.c:160-198 | the buffer index of the j-th data byte on the wire lies inside the slot of element `offset + j / data_len` |
| Transfer.SlotBound | src/soft_i2c.c:160-163 | the data bytes of `size` elements stay inside the buffer region the elements occupy |
| Transfer.SlotInjective | src/soft_i2c.c:160-198 | no two data bytes of a transfer share a buffer index |
| Transfer.DataStream | src/soft_i2c.c:158-201 | the data bytes a write offers number `size * data_len` |
| Transfer.DataByte | src/soft_i2c.c:162-198 | byte i of element n of the stream is the buffer byte at `(offset + n) * stride + WriteIndex(i)` |
| Transfer.FirstNack | src/soft_i2c.c:122-196 | the first byte not acknowledged: every earlier byte was, and that one was not |
| Transfer.SentCount | src/soft_i2c.c:122-205 | a transfer sends every byte up to and including the first one refused, and all bytes when none is |
| Transfer.FirstNackIs | src/soft_i2c.c:122-196 | the acknowledge samples determine the first refused byte uniquely |
| Transfer.AckedUpToMeans | src/soft_i2c.c:122-196 | the byte-by-byte acknowledge predicate holds exactly when every one of the bytes was acknowledged |
| Transfer.SentCountAtNack | src/soft_i2c.c:122-196 | a transfer refused at byte s - 1 sent exactly s bytes |
| Transfer.SentCountAllAcked | src/soft_i2c.c:122-201 | a transfer with every byte acknowledged sends all of them |
| Transfer.WriteHeader | src/soft_i2c.c:119-156 | a write first sends the device-address frame, then `address_len` register bytes |
| Transfer.WriteStream | src/soft_i2c.c:119-201 | a write offers the header and, with a buffer, `size * data_len` data bytes; without a buffer nothing more |
| Transfer.HeaderLayout | src/soft_i2c.c:119-156 | the device-address bytes and then the register-address bytes open every write stream |
| Transfer.ElementInStream | src/soft_i2c.c:160-199 | the bytes of element n follow each other in the stream, taken from its slot in the wire order |
| Transfer.WriteCount | src/soft_i2c.c:106-208 | the returned count is at most `size` and 0 without a buffer; every byte of the header and of the counted elements was acknowledged; with fewer than `size`, a byte up to the end of the next element was refused |
| Transfer.WriteCountAtHeaderNack | src/soft_i2c.c:119-156 | a refusal inside the device or register address counts no element |
| Transfer.HeaderNackOutcome | src/soft_i2c.c:119-207 | a write refused in its header sends up to the refused byte and returns 0 |
| Transfer.ElementsOutcome | src/soft_i2c.c:158-207 | the data loop ends with all elements counted, or with those before the element holding the refused byte |
| Transfer.WriteCountAtNack | src/soft_i2c.c:160-201 | an element counts exactly when it and everything before it were acknowledged |
| Transfer.WriteCountAllAcked | src/soft_i2c.c:160-201 | when every byte is acknowledged, every element counts |
| Transfer.NoSlaveWrite | src/soft_i2c.c:116-207 | with no slave answering, a write is START, the first address byte and STOP, and returns 0 |
| Transfer.DummyFrame | src/soft_i2c.c:223-266 | the dummy write is the write header exactly when it is configured, and nothing otherwise |
| Transfer.AckPlan | src/soft_i2c.c:295 | one acknowledge per data byte received |
| Transfer.AckPlanAt | src/soft_i2c.c:295 | the master NACKs the last byte of the last element and ACKs every other byte |
| Transfer.LastByteOfTransfer | src/soft_i2c.c:295 | byte i of element n is the last of the transfer exactly when n = size - 1 and i = data_len - 1 |
| Transfer.Received | src/soft_i2c.c:290-318 | a read assembles one byte per data byte from the slave's samples |
| Transfer.ReadBodyAtDummyNack | src/soft_i2c.c:223-262 | a read whose dummy write is refused at byte s - 1 ends there |
| Transfer.ReadBodyPastDummy | src/soft_i2c.c:223-266 | a read whose dummy write is acknowledged goes on with the repeated START when configured, then the rest of the read |
| Transfer.ReadTailAtNack | src/soft_i2c.c:268-286 | a read whose read-direction address is refused at byte s - 1 ends there, having consumed s samples |
| Transfer.ReadTailAddressed | src/soft_i2c.c:268-320 | an addressed slave is read from when there is a buffer, consuming eight samples per data byte |
| Transfer.ReadCount | src/soft_i2c.c:210-327 | a read returns `size` when the slave was addressed and a buffer given, and 0 otherwise; for `size > 0` it returns `size` exactly in that case |
| Transfer.ReadAtDummyNack | src/soft_i2c.c:223-326 | a read refused during the dummy write consumes s samples, reads nothing and returns 0 |
| Transfer.ReadAtAddressNack | src/soft_i2c.c:264-326 | a read refused at its read-direction address ends there and returns 0 |
| Transfer.ReadAddressed | src/soft_i2c.c:264-320 | a read with dummy write and address acknowledged is addressed, takes its data from the samples after them and returns `size` with a buffer |
| Transfer.ReadAddressedRest | src/soft_i2c.c:264-320 | an addressed read consumes the dummy write, the address and, with a buffer, eight samples per data byte |
| Transfer.ReadAddressedTrace | src/soft_i2c.c:223-320 | the lines of an addressed read: dummy write, repeated START when configured, address and data bytes |
| Transfer.ReadSlot | src/soft_i2c.c:292-317 | the buffer index a received byte is stored at is the index its position is written from (corrected storage; see Findings) |
| Transfer.ReadBuffer | src/soft_i2c.c:290-320 | storing received bytes does not change the buffer's length (corrected storage; see Findings) |
| Transfer.ReadBufferStep | src/soft_i2c.c:292-317 | storing byte i of element n writes index `(offset + n) * stride + ReadIndex(i)` and nothing else (corrected storage; see Findings) |
| Transfer.ReadBufferContents | src/soft_i2c.c:290-320 | after a read each received byte is at its slot, and every index no received byte maps to is unchanged (corrected storage; see Findings) |
| Transfer.EchoSamples | src/soft_i2c.c:43-53 | a slave returning bytes bit by bit presents eight samples per byte |
| Transfer.EchoSamplesAt | src/soft_i2c.c:43-90 | bit b of byte t of an echo is sample `8t + b` |
| Transfer.EchoSlices | src/soft_i2c.c:76-90 | the t-th group of eight samples of an echo is the wire bits of byte t |
| Transfer.EchoReceived | src/soft_i2c.c:71-104 | receiving from a slave that echoes bytes in the configured order gives back exactly those bytes |
| Transfer.EchoRoundTrip | src/soft_i2c.c:158-320 | with the corrected storage, a read of the bytes a write sent, with the same configuration, offset and size, restores every written buffer byte and touches nothing else, in every configuration (see Findings) |
| Transfer.ReadSlotAsWritten | src/soft_i2c.c:292-317 | the source stores received byte j at the index it is written from, one higher in the shifted configuration (little-endian master, big-endian slave, 3-byte data), and then never at the first byte of a slot |
| Transfer.ReadBufferAsWritten | src/soft_i2c.c:290-320 | storing received bytes as the source does keeps the buffer's length |
| Transfer.ReadBufferAsWrittenAgrees | src/soft_i2c.c:290-320 | outside the shifted configuration the source's storage is exactly the corrected storage |
| Transfer.ReadBufferAsWrittenShifted | src/soft_i2c.c:311 | in the shifted configuration the source puts received byte t one index above the one it is written from, and the first byte of each element's slot keeps its old value |
| Transfer.EchoRoundTripAsWritten | src/soft_i2c.c:158-320 | as written, write-then-read restores every written byte and touches nothing else in every configuration except the shifted one |
| Transfer.EchoShiftedAsWritten | src/soft_i2c.c:311 | as written, in the shifted configuration write-then-read moves every written byte one index up and leaves each slot's first byte as it was |
| Transfer.EchoShiftedExample | src/soft_i2c.c:311 | the element written from [1, 2, 3, 0] is read back by the source as [0, 1, 2, 3] |
| Transfer.WriteBytesQuiet | src/soft_i2c.c:119-201 | any run of written bytes produces no START or STOP and ends with SCL low |
| Transfer.ReadBytesQuiet | src/soft_i2c.c:290-320 | any run of received bytes produces no START or STOP and ends with SCL low |
| Transfer.WriteTraceConditions | src/soft_i2c.c:106-208 | a write from an idle bus produces exactly one START and one STOP and leaves the bus idle |
| Transfer.ReadTailQuiet | src/soft_i2c.c:268-320 | the read-direction address and the data produce no condition |
| Transfer.ReadBodyConditions | src/soft_i2c.c:223-320 | between START and STOP a read produces only the repeated START, and only after a complete dummy write |
| Transfer.ReadTraceConditions | src/soft_i2c.c:210-327 | a read from an idle bus produces START, a repeated START exactly when the configured dummy write was acknowledged in full, and STOP; it leaves the bus idle |
| Setup.InitStatus | src/soft_i2c.c:339-350 | the status is in -9..0, and for each code an if-and-only-if: -k exactly when checks 1..k-1 pass and check k fails (-1 handles, -2 speed, -3 bit order, -4 an endianness, -5 dummy-write flag, -6 device-address size, -7 register-address size, -8 data size, -9 no delay routine), and 0 exactly when all nine pass |
| Setup.InitStatusOrdered | src/soft_i2c.c:339-350 | no failure is hidden by a later one: when check k fails the status is -k or the code of an earlier check, and a missing handle is always -1 |
| Setup.MaskKeepsAddress | src/soft_i2c.c:361-362 | masking the device address is idempotent and keeps it exactly when it fits the mask |
| Setup.ConfigOf | src/soft_i2c.c:352-365 | the stored configuration is valid; it keeps speed and sizes; it stores the bit order, the three endiannesses and the dummy-write flag decoded from their codes; it stores `d_addr & mask`, which is `d_addr` exactly when the address fits its size |
| Setup.Chosen | src/soft_i2c.c:377-418 | the installed routine is one that was supplied: the one suiting the period if supplied, else ns, us, ms in that order |
| Setup.Ticks | src/soft_i2c.c:377-418 | the delay argument is the clock period truncated to the unit of the installed routine |
| Setup.PeriodBounds | src/soft_i2c.c:377 | a legal speed has a period of 2500 ns to 10 ms, below 1 ms exactly above 1000 Hz |
| Setup.LegalSpeedPreference | src/soft_i2c.c:379-401 | at a legal speed the nanosecond routine is never preferred; microseconds are preferred exactly above 1000 Hz |
| Setup.MillisecondsOnlyTruncates | src/soft_i2c.c:402-418 | with only a millisecond routine, every legal speed above 1000 Hz gets a delay argument of 0 |
| Setup.InitDefaultsFailures | src/soft_i2c.c:423-435 | with the fixed settings of `soft_i2c_init`, only the handles (-1), the speed (-2) and the delay routines (-9) can fail |
| Engine.SoftI2c.constructor | src/soft_i2c.h:115-145 | a new handle has no pin table and no delay routine |
| Engine.SoftI2c.Start | src/soft_i2c.c:17-23 | `start` drives SDA high, SCL high, SDA low, SCL low and consumes no sample |
| Engine.SoftI2c.Restart | src/soft_i2c.c:25-31 | `restart` drives the same events as `start` |
| Engine.SoftI2c.Stop | src/soft_i2c.c:33-39 | `stop` drives SCL low, SDA low, SCL high, SDA high and consumes no sample |
| Engine.SoftI2c.WriteByte | src/soft_i2c.c:41-69 | `write_byte` drives the byte's bits in the configured order, releases SDA, samples the acknowledge once, and returns ACK or NACK |
| Engine.SoftI2c.ShiftIn | src/soft_i2c.c:78-93 | one pass of the read loop samples once and extends the assembled byte by that sample |
| Engine.SoftI2c.ReadByte | src/soft_i2c.c:71-104 | `read_byte` samples eight times, returns the byte assembled in the configured order, then drives the given acknowledge |
| Engine.SoftI2c.Send | src/soft_i2c.c:122-196 | sending one byte of a stream extends the trace by its `write_byte` events; the result is whether it was acknowledged |
| Engine.SoftI2c.SendFrame | src/soft_i2c.c:119-156 | sending a frame stops after the first refused byte, or sends all of it acknowledged |
| Engine.SoftI2c.SendElement | src/soft_i2c.c:162-199 | sending one element stops after the first refused byte, or sends all its `data_len` bytes acknowledged |
| Engine.SoftI2c.SendElements | src/soft_i2c.c:158-201 | the data loop counts the elements sent in full, and stops at the element holding the first refused byte |
| Engine.SoftI2c.SendHeader | src/soft_i2c.c:119-156 | the device address and the register address go out until the first refused byte |
| Engine.SoftI2c.SendWrite | src/soft_i2c.c:119-201 | everything a write sends between START and STOP is the stream up to the first refusal; the count is `WriteCount` |
| Engine.SoftI2c.Write | src/soft_i2c.c:106-208 | `soft_i2c_write` drives exactly `WriteTrace`, consumes one sample per byte sent and returns `WriteCount` |
| Engine.SoftI2c.Receive | src/soft_i2c.c:293-317 | receiving the j-th data byte extends the trace by its `read_byte` events and returns the byte assembled from its eight samples |
| Engine.SoftI2c.ReceiveByte | src/soft_i2c.c:293-317 | each received byte is acknowledged as planned and stored at its `ReadIndex` position (corrected storage; see Findings) |
| Engine.SoftI2c.ReceiveElement | src/soft_i2c.c:292-319 | all `data_len` bytes of an element are received and stored (corrected storage; see Findings) |
| Engine.SoftI2c.ReceiveElements | src/soft_i2c.c:289-320 | the data loop receives and stores all `size` elements and counts them (corrected storage; see Findings) |
| Engine.SoftI2c.ReadData | src/soft_i2c.c:288-320 | the data part of a read leaves the buffer as `ReadBuffer` of the bytes received (corrected storage; see Findings), consumes eight samples per byte and returns `size` |
| Engine.SoftI2c.SendDummy | src/soft_i2c.c:223-262 | the configured dummy write goes out until the first refused byte |
| Engine.SoftI2c.DummyWrite | src/soft_i2c.c:223-266 | the dummy write is sent in full and followed by the repeated START, or ends at its refused byte |
| Engine.SoftI2c.SendReadAddress | src/soft_i2c.c:268-286 | the read-direction address goes out until the first refused byte |
| Engine.SoftI2c.ReadAfterStart | src/soft_i2c.c:223-320 | everything a read does between START and STOP is `ReadBody`; it consumes `ReadConsumed` samples, returns `ReadCount` and leaves the buffer as `ReadBuffer` (corrected storage; see Findings) |
| Engine.SoftI2c.Read | src/soft_i2c.c:210-327 | `soft_i2c_read` drives exactly `ReadTrace` and returns `ReadCount`; once addressed it leaves the buffer as `ReadBuffer` of the bytes received (corrected storage; see Findings), otherwise unchanged; outside the shifted configuration that is `ReadBufferAsWritten`, the source's own storage |
| Engine.Store | src/soft_i2c.c:296-317 | storing one received byte keeps the invariant that the buffer is `ReadBuffer` of the bytes received so far (corrected storage; see Findings) |
| Engine.SelectDelay | src/soft_i2c.c:377-418 | the delay-selection branches install `Chosen` and leave `Ticks` as the delay argument |
| Engine.InitEx | src/soft_i2c.c:329-421 | `soft_i2c_init_ex` returns `InitStatus`; a failure leaves the handle unchanged; success stores the pin table, `ConfigOf`, a released mutex, the delay routines, `Chosen` and `Ticks` |
| Engine.Init | src/soft_i2c.c:423-435 | `soft_i2c_init` is `InitEx` with MSB first, little-endian throughout, the dummy write, a 7-bit address and 8-bit register and data |

## Left out

- The read/write direction macro (`IS_SOFT_I2C_RW_MODE`, src/soft_i2c.h:33-36): the driver never tests it. The two directions appear only as the constants `WRITE` and `READ`.
- Delays: `delay(x / 3)` and `delay(x / 2)` carry no observable effect on the
  lines, so they are not recorded in the trace. Only the routine chosen and
  its argument are modelled.
- The pin routines and delay routines are foreign functions. A pin table is
  modelled by `PinOps`, whose `sdaPresent`/`sclPresent` stand for pin
  routines that are not NULL. The delay routines are modelled by which of them were
  supplied (`Delays`).
- Bus.PinOps.ReadSda: when the queue of slave levels is empty the sample is
  1, the level of a released line pulled up.
- Engine.SoftI2c.Write and Engine.SoftI2c.Read require a successfully
  initialised handle (`Valid`). The source does not check this; calling them
  on an uninitialised handle is undefined in C.
- Engine.SoftI2c.Write and Engine.SoftI2c.Read take `offset` as `nat` and
  require the buffer to hold the `size` elements from `offset`. The source
  takes a signed `off_t` and an unchecked `void *`; a negative offset or a
  buffer overrun is undefined in C and is not modelled.
- The buffer is an array of bytes, not a `void *` to memory of any type.
- The `write` and `read` members installed by `soft_i2c_init_ex` are not
  modelled as stored functions: the methods `Write` and `Read` are called
  directly.
- The mutex (`count`, `holder_handle`) is stored and reset by `InitEx`. No
  code in the source takes or releases it, so no locking is modelled.
- Engine.InitEx: its integer parameters are not truncated to the C parameter
  types (`uint8_t` sizes, `uint32_t` codes). The checks are applied to the
  value passed.
- 10-bit read: as in the source, both 10-bit address bytes are sent after the
  repeated START, and the first one carries the READ bit. Section 3.1.11 of
  NXP UM10204 sends only the first byte again in the read direction. The model
  follows the code.
- Concurrency between handles sharing pins is not modelled.
- Engine.SoftI2c.Read: stores received bytes at the corrected index
  `ReadIndex`. In the shifted configuration (little-endian master, big-endian
  slave, 3-byte data) the source stores each byte one index higher (line 311).
  `Transfer.ReadBufferAsWritten` models that storage, and Read's contract
  equals it in every other configuration.
- Engine.SoftI2c.ReadAfterStart: the buffer it ensures is the corrected
  storage, as for Read.
- Engine.SoftI2c.ReadData: the buffer it ensures is the corrected storage, as
  for Read.
- Engine.SoftI2c.ReceiveElements: stores at the corrected index, as for Read.
- Engine.SoftI2c.ReceiveElement: stores at the corrected index, as for Read.
- Engine.SoftI2c.ReceiveByte: stores at the corrected index, as for Read.
- Engine.Store: keeps the corrected storage invariant, as for Read.
- Transfer.ReadSlot: the corrected index; `Transfer.ReadSlotAsWritten` is the
  source's.
- Transfer.ReadBuffer: the corrected storage; `Transfer.ReadBufferAsWritten` is
  the source's.
- Transfer.ReadBufferStep: a step of the corrected storage.
- Transfer.ReadBufferContents: the contents of the corrected storage; the
  source's differ in the shifted configuration
  (`Transfer.ReadBufferAsWrittenShifted`).
- Transfer.EchoRoundTrip: holds in every configuration for the corrected
  storage only. For the source's storage it holds outside the shifted
  configuration (`Transfer.EchoRoundTripAsWritten`) and fails in it
  (`Transfer.EchoShiftedAsWritten`).

## Findings

| source | as written | input that shows it | evidently intended | confidence | as-written member | corrected member |
|---|---|---|---|---|---|---|
| src/soft_i2c.c:311 | with a little-endian master and a big-endian slave, received byte i is stored at `data_len - (data_len == 3 ? 0 : 1) - i`, the big-endian master's index | `data_len` 3 (`data_size` 17..24), master little-endian, slave big-endian: byte 0 is stored at slot index 3 and slot index 0 is never written; an element written from [1, 2, 3, 0] is read back into [0, 0, 0, 0] as [0, 1, 2, 3] (Transfer.EchoShiftedExample) | `data_len - 1 - i`, the index the write side sends byte i from (line 176), so a read restores what a write sent | not executed | Transfer.EchoShiftedAsWritten | Transfer.EchoRoundTrip |
