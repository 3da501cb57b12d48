# The SPI bridge and its engines, verified

A Dafny model of the parts of the GhostBlade firmware and its Linux driver whose correctness is not visible
from any single function, with proofs about all inputs, all runs and all interleavings.

Host and microcontroller exchange frames: a 16-byte header protected by a CRC-64, up to 4092 payload bytes, a
CRC-32. There are two builders, three receivers and two ways of computing each checksum. Around them sit a
lock-free byte ring between interrupt and main loop, a frame buffer handed over flag by flag, a response ring,
a DMA block ring and a scatter-gather engine; and three pieces of fixed-point control code.

| file | what it holds |
|---|---|
| Bitwise.dfy, Crc.dfy | exclusive-or and shifts as arithmetic; the CRC register as iterated linear steps; what it detects |
| CrcValues.dfy | the same on 64-bit words, and the published check values |
| Codeword.dfy | error bursts anywhere in data and checksum field |
| CrcEngines.dfy | the bit-by-bit and the table-driven loops, both equal to the same function |
| Frame.dfy, Kernel.dfy | the wire format; the driver's builder and validator |
| GoldenFrame.dfy | one frame byte by byte |
| Assembler.dfy, Protocol.dfy | the main-loop receiver as a transition function and as the object that implements it |
| LoopBatch.dfy, IsrBatch.dfy | what the main-loop and the interrupt-level receiver make of a whole stream, counters included |
| Isr.dfy, Spi0.dfy, Handoff.dfy | the interrupt-level receiver, its object, and the handover of a frame store by store |
| Receivers.dfy | the three receivers compared on the same bytes |
| Resync.dfy | the stream that makes the resynchronisation bound the least one |
| ByteRing.dfy | what the two byte rings share |
| RxRing.dfy, TxRing.dfy | the receive ring, interleaved with the receiver behind it; the response ring, interleaved with its reader |
| SdrRing.dfy | the SDR block ring |
| ScatterGather.dfy, SgEngine.dfy | the scatter-gather engine as a transition function, and its object |
| CalRecord.dfy, AdcCalibration.dfy | the calibration record in flash; two-point calibration |
| Pll.dfy, Power.dfy | frequency synthesis and gain; the power state machine |

Code that works by changing state is a class with the same fields, or a method with the same loop, proved
against a function on values; the theorems are about that function. Where two contexts share memory, the
theorems are about a machine whose steps are the individual loads and stores to the shared variables, in any
order the two contexts can produce: both byte rings, the frame handover and the SDR block ring are treated this
way. Each context makes its own steps in program order. That is an assumption where the variables are not
volatile: the ring buffers themselves, and `state`, `pos` and `payload_len` of `spi0_rx`
(firmware/rp2350b/src/spi0_isr.c:93-99), whose three stores at the end of a release a compiler may reorder.

Machine integers are numbers with their width written out: 32-bit counters wrap (`Word`, `Inc`), uint8_t and
uint64_t counts wrap where they can, the 32-bit product in the battery conversion wraps, int32_t intermediates
are reduced to two's complement. Checksum registers are proved never to leave their 32 or 64 bits. The calibration
record, which is not declared packed, is laid out as the 32-bit Arm ABI lays it out.

Not all of this code is joined up in the firmware. `spi0_isr.c` is linked, and its `spi0_handler` replaces the weak
one (firmware/rp2350b/src/rp2350b_init.c:704-732) that RxRing is about; so as built the receive ring is never filled,
and no firmware source calls `spi0_rx_get_frame`. Nothing in the firmware advances `tx_tail`: the reader of TxRing is
the one its comments describe (firmware/rp2350b/src/spi_protocol.c:225-234). Of the SDR ring only
`sdr_dma_init` and, before a watchdog reset, `sdr_dma_stop` are called. The results are about these parts as their interfaces are meant to be used.

## What comes out

* The CRC register after any byte string is the bit step iterated over "initial value xor message", so a
  burst of errors no longer than the polynomial is always detected: 32 bits for the CRC-32, 63 for the CRC-64.
  The CRC-64 takes the constant of ECMA-182 Annex B unreversed in a right-shifting register; it is not the
  standard's CRC, and its register works on 63 bits because bit 63 of the constant is clear. The same holds for
  the whole codeword, checksum field included; and a burst of up to 32 bits anywhere in a frame with a payload is
  refused by all three receivers.
* The CRC-32 is the frame check sequence of RFC 1662, Appendix C.3.
* The three receivers do not accept the same frames. The main loop alone requires the reserved word to be
  zero; the interrupt handler alone checks the CRC-32 of an empty payload. Otherwise they agree exactly.
* Whatever the interleaving, while no byte is lost the main loop dispatches exactly the frames sent, in order.
* SDR blocks, over every run. With live = captured - released - overruns, corrected for overruns that fall
  between a release's load and store of the read index (the store erases them): write - read is live modulo 8;
  `get_block` points at the block the hardware is filling if and only if live is a multiple of 8, and else at the
  block captured (live mod 8) ago; an interrupt overruns if and only if live is 7 modulo 8; a published
  count between releases is live, for live from 0 to 255, if and only if the overruns not erased are a multiple
  of 256. A block handed out with live from 1 to 7 stays intact for 7 - live further captures and is
  the hardware's target after one more. Without overrun, blocks come out in capture order, whole.
* The SDR statistics do not tell the state of the ring, because a start does not reset them: after one capture, a
  restart, eight captures and seven releases they show 9 - 7 - 1 = 1 while the target is handed out. Between releases
  their change since the start does tell, modulo 8, if no overrun was erased.
* Calibration does not survive a power cycle, except by chance. The checksum is taken over all bytes of the
  structure but the last, which is padding, so at the next start it covers the checksum field as well; the record
  is accepted if and only if its other bytes add up to a multiple of 256.
* In continuous scatter-gather streaming `overruns` never counts: an unread buffer is simply refilled. A device that
  falls silent is never given up: only a refused submission, not a timeout, compares `errors` with 100. And a batch
  can end in IDLE with a filled buffer marked FREE, if its transfer completes just after the wait for it timed out.
* The response ring can never carry a payload over 4075 bytes, although the protocol allows 4092.
* The PLL computation refuses everything below 58.75 MHz, and is at least one fraction step low for half of
  all VCO frequencies, because the 24-bit fraction is clamped to 23 bits.
* The conversion of battery readings overflows 32 bits from about 4296 mV on.

Where code and documentation disagree the model follows the code: `battery_is_brownout` uses 2800 and 3000 mV
(firmware/rp2350b/include/battery_monitor.h:128-131 says 3000 and 3300); a frame without payload passes through
the PAYLOAD state (the comment at firmware/rp2350b/src/spi0_isr.c:250 says it completes at once); tuning starts
at 58.75 MHz (firmware/rp2350b/include/lms7002m_driver.h:41 says 100 kHz); calibration does not persist
(firmware/rp2350b/src/adc_calibration.c:16-17 says it does).

## Model

| member | source | states |
|---|---|---|
| `Crc.RunIsSteps` | software/linux-drivers/src/apex_bridge.c:144-152 | the register after any byte string is the bit step iterated 8n times over (initial value xor the message as one number) |
| `Crc.StepsLinear` | software/linux-drivers/src/apex_bridge.c:146-151 | any number of bit steps is linear over exclusive-or |
| `Crc.TableSplit` | firmware/rp2350b/src/spi_protocol.c:168-170 | eight bit steps depend on the low byte only, the rest of the register is shifted: what a table look-up needs |
| `Crc.SameChecksum` | software/linux-drivers/src/apex_bridge.c:137-179 | two messages of one length collide if and only if their difference is mapped to zero, whatever the initial value |
| `Crc.BurstDetected` | software/linux-drivers/src/apex_bridge.c:137-179 | every error burst of at most 32 (CRC-32) or 63 (CRC-64) bits, anywhere in a message of any length, changes the checksum |
| `Crc.StretchDetected` | firmware/rp2350b/src/spi_protocol.c:164-202 | replacing up to 4 (CRC-32) or 7 (CRC-64) consecutive bytes keeps the checksum if and only if they are the same bytes |
| `Crc.RegisterFits` | software/linux-drivers/src/apex_bridge.c:137-179 | at every point of both loops, i bytes absorbed and j steps into the next, the register fits uint64_t or uint32_t |
| `Crc.ChecksumFits` | software/linux-drivers/src/apex_bridge.c:137-179 | and so does the checksum returned |
| `CrcValues.XorOfWords` | software/linux-drivers/src/apex_bridge.c:144-149 | exclusive-or of machine words is the exclusive-or of the numbers they hold |
| `CrcValues.HalfOfWord` | software/linux-drivers/src/apex_bridge.c:147-150 | shifting a word right halves its number; its lowest bit is the remainder |
| `CrcValues.StepOfWord` | software/linux-drivers/src/apex_bridge.c:146-151 | the bit step on a uint64_t register is the step on its number |
| `CrcValues.RunOfWord` | software/linux-drivers/src/apex_bridge.c:144-152 | and so are the loops over a byte string |
| `CrcValues.CheckValues` | tests/test_spi_protocol.c:376-412 | the digits 1 to 9 give 0xB86883E6FA710A9F and 0xCBF43926, as the tests expect; no bytes give zero |
| `Codeword.PassesExactly` | software/linux-drivers/src/apex_bridge.c:137-179 | beside a codeword that passes, another of its shape passes if and only if the register maps their difference, checksum fields included, to zero |
| `Codeword.BurstSurvives` | software/linux-drivers/src/apex_bridge.c:146-151 | no burst of the register's width or less is mapped to zero, wherever it enters and however many steps follow or do not |
| `Codeword.CodewordBurst` | software/linux-drivers/src/apex_bridge.c:137-179 | every burst of at most 32 (CRC-32) or 63 (CRC-64) bits anywhere in data and checksum field is detected |
| `Codeword.HeaderBurst` | firmware/rp2350b/src/spi_protocol.c:652-658 | up to 63 bits anywhere in the sixteen header bytes |
| `Codeword.PayloadBurst` | firmware/rp2350b/src/spi_protocol.c:668-681 | up to 32 bits anywhere in payload and trailer |
| `CrcEngines.EightSteps` | software/linux-drivers/src/apex_bridge.c:146-151 | the inner loop is eight bit steps |
| `CrcEngines.BitwiseCrc` | software/linux-drivers/src/apex_bridge.c:137-179 | the kernel's loops compute the checksum function |
| `CrcEngines.CrcTable.constructor` | firmware/rp2350b/src/spi_protocol.c:145-146 | the table starts out not built |
| `CrcEngines.CrcTable.Init` | firmware/rp2350b/src/spi_protocol.c:148-162 | builds the right 256 entries: entry i is what eight bit steps make of i |
| `CrcEngines.CrcTable.Compute` | firmware/rp2350b/src/spi_protocol.c:164-172 | the table-driven loop computes the same function as the kernel's, built or unbuilt table alike |
| `Frame.HeaderExact` | firmware/rp2350b/src/spi_protocol.c:636-661 | a header passes the sync and CRC-64 tests if and only if it is the one built from the command, length and reserved bytes in it |
| `Frame.HeaderCorruptionRejected` | firmware/rp2350b/src/spi_protocol.c:652-658 | two accepted headers with the same CRC-64 field are equal: no change of bytes 0 to 7, of however many bits, goes unnoticed |
| `Frame.PayloadCorruptionRejected` | firmware/rp2350b/src/spi_protocol.c:668-681 | a change of up to four consecutive payload bytes under an intact trailer is always noticed |
| `Frame.ReadWrite` | firmware/rp2350b/src/spi_protocol.c:335-368 | little-endian fields read back what was written |
| `Frame.WriteRead` | firmware/rp2350b/src/spi_protocol.c:335-368 | and writing what was read reproduces the bytes |
| `GoldenFrame.TheFrame` | firmware/rp2350b/src/spi_protocol.c:410-428 | the 29 bytes of command 5 with the digits 1 to 9: sync, command, length low byte first, reserved word, CRC-64 and CRC-32 low byte first; and the validator reads them back |
| `Kernel.PutLe` | firmware/rp2350b/src/spi_protocol.c:351-368 | writes the field's bytes in place and nothing else |
| `Kernel.GetLe` | firmware/rp2350b/src/spi_protocol.c:335-349 | reads a field of any width |
| `Kernel.PutHeader` | software/linux-drivers/src/apex_bridge.c:262-271 | the 16 header bytes in place, the rest of the buffer untouched |
| `Kernel.BuildFrame` | software/linux-drivers/src/apex_bridge.c:246-282 | the encoding of command and payload at the front of the buffer, the rest untouched; an error and no change if it is too long; with a null payload, what the buffer held there |
| `Kernel.ValidateFrame` | software/linux-drivers/src/apex_bridge.c:289-345 | the verdict `View` and the message it extracts |
| `Kernel.AcceptsExactly` | software/linux-drivers/src/apex_bridge.c:298-344 | the validator accepts exactly the buffers that begin with a well-formed frame, reserved bytes arbitrary, trailer arbitrary if the payload is empty |
| `Kernel.BuiltIsAccepted` | software/linux-drivers/src/apex_bridge.c:246-345 | what a builder emits is accepted and read back unchanged, whatever follows it |
| `Assembler.RunsStayReachable` | firmware/rp2350b/src/spi_protocol.c:814-886 | over every byte stream the fill counters stay inside their buffers, and the default branch and the sync-error branch are dead |
| `Assembler.Incremental` | firmware/rp2350b/src/spi_protocol.c:802-890 | the byte-at-a-time machine computes the batch decoder from every reachable state: same events, and it holds exactly the unfinished frame |
| `Assembler.ParseConserves` | firmware/rp2350b/src/spi_protocol.c:814-886 | dispatched frames and the unfinished one never take more bytes than arrived |
| `Assembler.StreamRoundTrip` | firmware/rp2350b/src/spi_protocol.c:802-890 | any list of built frames with sync-free noise around them is dispatched one for one and in order |
| `Assembler.QuietSettles` | firmware/rp2350b/src/spi_protocol.c:814-886 | from any reachable state, enough bytes without a sync byte lead to IDLE with at most one dispatch |
| `Assembler.Resynchronises` | firmware/rp2350b/src/spi_protocol.c:814-886 | after anything at all, 4111 sync-free bytes suffice, and the following frames are all delivered |
| `Resync.BoundIsLeast` | firmware/rp2350b/src/spi_protocol.c:814-886 | 4110 do not: some stream leaves the receiver mid-frame after them |
| `Protocol.Link.constructor` | firmware/rp2350b/src/spi_protocol.c:902-909 | initialisation builds both CRC tables and leaves an idle receiver and zero counters |
| `Protocol.Link.HeaderDone` | firmware/rp2350b/src/spi_protocol.c:636-661 | the tests on a full header and the length test, in the code's order, with their counters |
| `Protocol.Link.FrameDone` | firmware/rp2350b/src/spi_protocol.c:668-723 | dispatches exactly the frames whose CRC-32 holds or whose payload is empty, with their message; wipes a dispatched payload |
| `Protocol.Link.TakeHeader` | firmware/rp2350b/src/spi_protocol.c:825-855 | the HEADER case in place |
| `Protocol.Link.TakePayload` | firmware/rp2350b/src/spi_protocol.c:857-864 | the PAYLOAD case in place |
| `Protocol.Link.TakeTrailer` | firmware/rp2350b/src/spi_protocol.c:866-881 | the CRC32 case in place |
| `Protocol.Link.Take` | firmware/rp2350b/src/spi_protocol.c:814-886 | the object refines the transition function on every byte in every state |
| `Protocol.Link.TakeNext` | firmware/rp2350b/src/spi_protocol.c:810-812 | takes the oldest queued byte and advances the tail |
| `Protocol.Link.Process` | firmware/rp2350b/src/spi_protocol.c:802-890 | drains the ring; state, counters, handler calls and the returned count are those of feeding all queued bytes |
| `Protocol.DeliveriesHandled` | firmware/rp2350b/src/spi_protocol.c:687-723 | for a stream of built frames the handlers get every message once, in order |
| `Protocol.CountersExactly` | firmware/rp2350b/src/spi_protocol.c:258-261 | over every stream: received = dispatched + bad payloads, CRC errors = all other frame ends and bad payloads, sync errors = 0, modulo 2^32 |
| `LoopBatch.LoopDecoded` | firmware/rp2350b/src/spi_protocol.c:636-723 | over every byte stream, from the bytes alone: the handlers get exactly the messages of the frames that pass, in order; received counts the frames that came to their trailer, CRC errors those refused by any test, sync errors stay 0, modulo 2^32 |
| `LoopBatch.HeaderVerdict` | firmware/rp2350b/src/spi_protocol.c:636-661 | which header is refused by which test |
| `Isr.OnByteKeepsReachable` | firmware/rp2350b/src/spi0_isr.c:258-358 | every byte keeps the invariant: position in bounds, flag set exactly in COMPLETE, and then a valid frame in the buffer |
| `Isr.BadHeaderRefused` | firmware/rp2350b/src/spi0_isr.c:278-287 | from any state without a frame under way, a header whose CRC-64 is wrong ends in ERROR with its sixteenth byte, and counts as a header error |
| `Isr.Midway` | firmware/rp2350b/src/spi0_isr.c:258-334 | from any such state, after the first k bytes of a frame with a good header the buffer holds exactly those; the last one completes it if the trailer is right, else ends in ERROR |
| `Isr.StatsAreCounts` | firmware/rp2350b/src/spi0_isr.c:112-121 | over every run each counter is the true number of its events modulo 2^32, and validated = received |
| `IsrBatch.ByteByByte` | firmware/rp2350b/src/spi0_isr.c:258-358 | from either waiting state the byte-at-a-time machine comes to what decoding the whole stream at once gives: state, bytes held, totals |
| `IsrBatch.RunDecoded` | firmware/rp2350b/src/spi0_isr.c:258-464 | over every run of bytes and releases: state, flag, position and buffer up to it are those decoded from the bytes since the last release, and all counters what the stretches between releases add up to, modulo 2^32 |
| `IsrBatch.CountersNumber` | firmware/rp2350b/src/spi0_isr.c:258-358 | over every run each counter is, modulo 2^32, the number of bytes that met the receiver in a given state with a given effect: not a sync byte while IDLE, the end of a header with a wrong CRC-64 or with a right one and a length over 4092, the end of a frame with a wrong or right CRC-32, any byte while COMPLETE |
| `Isr.ReleaseWipes` | firmware/rp2350b/src/spi0_isr.c:450-464 | a release zeroes the bytes below the position and no others, and resets the machine |
| `Isr.FramesAccountedFor` | firmware/rp2350b/src/spi0_isr.c:258-358 | over every run: frames started = validated + header CRC, length and payload CRC rejects + those a release cut short + 1 if one is arriving |
| `Isr.CutNothingExactly` | firmware/rp2350b/src/spi0_isr.c:450-464 | no frame is cut short if and only if no release comes while one is arriving |
| `Spi0.Receiver.constructor` | firmware/rp2350b/src/spi0_isr.c:498-501 | reset leaves a clean idle machine |
| `Spi0.Receiver.HeaderDone` | firmware/rp2350b/src/spi0_isr.c:278-305 | the checks on a full header, in place |
| `Spi0.Receiver.FrameDone` | firmware/rp2350b/src/spi0_isr.c:315-329 | the check on a full frame, in place |
| `Spi0.Receiver.ProcessByte` | firmware/rp2350b/src/spi0_isr.c:258-358 | the object refines the transition function and its statistics, which IsrBatch ties to the bytes |
| `Spi0.Receiver.GetFrame` | firmware/rp2350b/src/spi0_isr.c:428-441 | returns the buffer up to the position if the flag is set, and that is a valid frame |
| `Spi0.Receiver.ReleaseFrame` | firmware/rp2350b/src/spi0_isr.c:450-464 | every byte below the position is 0 and the rest as before; position and length 0, flag clear, IDLE; statistics unchanged |
| `Handoff.HandoffSafe` | firmware/rp2350b/src/spi0_isr.c:336-343 | with interrupts between any two stores: frame_ready implies COMPLETE; the bytes the main loop holds are the validated frame; frames are handed over once each, in order, all but possibly the last |
| `Handoff.InterruptsCannotInterfere` | firmware/rp2350b/src/spi0_isr.c:428-464 | until `state` is stored, any number of interrupts leaves the shared memory as it was |
| `Handoff.ReleaseLeavesClean` | firmware/rp2350b/src/spi0_isr.c:450-464 | the store of `state` leaves an idle machine with nothing of the old frame in its buffer, whatever arrived meanwhile |
| `Handoff.ReleaseInSteps` | firmware/rp2350b/src/spi0_isr.c:450-464 | the main loop's loads and stores from holding a frame to the end of its release are the release as one step |
| `Handoff.InTimeAllHanded` | firmware/rp2350b/src/spi0_isr.c:258-464 | built frames with sync-free noise between them, under every interleaving of arriving bytes and main-loop loads and stores in which no frame begins before the one before it is released: exactly the frames arrived are validated, get_frame has returned all or all but the last, and at the end every frame, once, in order, byte for byte |
| `Handoff.KeptExactly` | firmware/rp2350b/src/spi0_isr.c:258-464 | under every interleaving, frames that begin before the one before is released included if they have no sync byte after the first: exactly the frames that began while the receiver was not COMPLETE are validated, handed over once each in order, all but possibly the last |
| `Handoff.CanServe` | firmware/rp2350b/src/spi0_isr.c:428-464 | for every list of frames some interleaving of bytes and main-loop steps has every release in time and finishes, every frame handed over |
| `Handoff.EveryFrameHanded` | firmware/rp2350b/src/spi0_isr.c:258-464 | the schedule in which each frame arrives and the main loop then takes and releases it in length + 8 steps, for any list of frames: get_frame returns every frame once, in order |
| `Receivers.MainLoopExactly` | firmware/rp2350b/src/spi_protocol.c:636-681 | the main loop takes exactly the frames the kernel takes whose reserved word is zero, with the same message |
| `Receivers.IsrExactly` | firmware/rp2350b/src/spi0_isr.c:258-334 | the interrupt handler takes exactly the frames the kernel takes whose trailer is right even for an empty payload |
| `Receivers.AllAgree` | software/linux-drivers/src/apex_bridge.c:289-345 | with a zero reserved word and a payload, all three agree, message included |
| `Receivers.EmptyPayload` | firmware/rp2350b/src/spi0_isr.c:206-225 | without payload the interrupt handler insists on a trailer of four zero bytes, the others on nothing |
| `Receivers.BuiltIsTaken` | software/linux-drivers/src/apex_bridge.c:246-282 | every built frame is taken by all three |
| `Receivers.NoReceiverTakesCorruptHeader` | firmware/rp2350b/src/spi0_isr.c:182-197 | bytes 0 to 7 of a good frame changed in any way under an intact CRC-64 field, anything behind: the kernel refuses the buffer; with the sync byte kept, the main loop rejects the header with its 16th byte and the interrupt handler ends in ERROR; without, both ignore the byte |
| `Receivers.NoReceiverTakesCorruptPayload` | firmware/rp2350b/src/spi_protocol.c:668-681 | up to four consecutive payload bytes changed under an intact trailer, anything behind: the kernel refuses the buffer, the main loop rejects exactly this frame (at its header if the reserved word is not zero), the interrupt handler ends in ERROR |
| `Receivers.NoReceiverTakesHeaderBurst` | firmware/rp2350b/src/spi0_isr.c:182-197 | the same for a burst of up to 63 bits anywhere in the header, CRC-64 field included |
| `Receivers.NoReceiverTakesPayloadBurst` | firmware/rp2350b/src/spi_protocol.c:668-681 | the same for a burst of up to 32 bits anywhere in payload and trailer |
| `Receivers.NoReceiverTakesBurst` | firmware/rp2350b/src/spi0_isr.c:258-334 | a burst of up to 32 bits anywhere in a good frame: refused by all three, at the header if that is touched and else at the end; without payload a change of the trailer alone passes the kernel, and never the interrupt handler |
| `ByteRing.IndicesAreModulo` | firmware/rp2350b/src/rp2350b_init.c:740 | the index arithmetic of the two rings is the remainder the source computes |
| `RxRing.Ring.constructor` | firmware/rp2350b/src/rp2350b_init.c:713-717 | the ring starts empty |
| `RxRing.Ring.Receive` | firmware/rp2350b/src/rp2350b_init.c:739-757 | a byte is appended unless 8191 are queued; then the contents stay and one overrun is counted |
| `RxRing.InvAlways` | firmware/rp2350b/src/rp2350b_init.c:732-762 | the invariant of the interleaved machine holds in every reachable state |
| `RxRing.RefinesFifo` | firmware/rp2350b/src/rp2350b_init.c:740-750 | every load and store of either side is a FIFO step or invisible: publication appends the fetched byte, the tail store removes the loaded one |
| `RxRing.NothingTwiceNothingChanged` | firmware/rp2350b/src/rp2350b_init.c:732-762 | in every reachable state: at most 8191 queued; a byte is lost exactly when that many are; arrived = taken + queued + lost + in flight; bytes taken come unchanged from increasing wire positions |
| `RxRing.EndToEnd` | firmware/rp2350b/src/spi_protocol.c:802-890 | built frames through the ring under any interleaving, without loss: the log is always a prefix of the frames sent, and all of them once drained |
| `RxRing.CanFinish` | firmware/rp2350b/src/spi_protocol.c:810-812 | for every stream some interleaving loses nothing and drains everything |
| `TxRing.Ring.constructor` | firmware/rp2350b/src/spi_protocol.c:912-918 | the response ring starts empty |
| `TxRing.Ring.Assemble` | firmware/rp2350b/src/spi_protocol.c:410-428 | the firmware's frame bytes are those of the kernel's builder |
| `TxRing.Ring.Copy` | firmware/rp2350b/src/spi_protocol.c:440-444 | appends the frame to the unread bytes |
| `TxRing.Ring.BuildResponseFrame` | firmware/rp2350b/src/spi_protocol.c:399-456 | succeeds if and only if the whole frame fits, appending exactly the encoding of command and payload, which the host's validator reads back (with a null payload, of what the stack buffer held); otherwise the ring is unchanged, and one overrun counted unless the payload was too long for the protocol; the unread bytes stay the queued frames less a read prefix |
| `TxRing.Ring.Read` | firmware/rp2350b/src/spi_protocol.c:232-234 | a reader advancing the tail gets the oldest bytes |
| `TxRing.OnlyFramesInOrder` | firmware/rp2350b/src/spi_protocol.c:430-444 | under every interleaving of the writer's and a reader's loads and stores: bytes read plus bytes queued are the frames sent, in order, and the published part of the one being copied; a message is accepted if and only if its frame fits when the tail is loaded |
| `TxRing.HostReadsOn` | software/linux-drivers/src/apex_bridge.c:289-345 | a host reading while frames are copied in gets the k-th message as soon as it has read the k-th frame |
| `TxRing.LargestResponse` | firmware/rp2350b/src/spi_protocol.c:430-438 | in every reachable state a payload over 4075 bytes is refused; with nothing queued every smaller one is accepted, and one of 4075 only then |
| `TxRing.HostReadsBack` | software/linux-drivers/src/apex_bridge.c:289-345 | the host's validator, applied at each frame boundary of everything queued, returns every message |
| `SdrRing.AccountsAlways` | firmware/rp2350b/src/sdr_dma.c:184-196 | over every run, interrupts between any two loads and stores of a release: write - read = captured - released - overruns + erased modulo 8, so without the correction if and only if erased is a multiple of 8; count = captured - released modulo 256 |
| `SdrRing.HandedOutExactly` | firmware/rp2350b/src/sdr_dma.c:352-386 | over every run: the block handed out is the one being filled if and only if live is a multiple of 8, else the block captured (live mod 8) ago, unchanged: the next in order for live 1 to 7, a block of the lap before for -7 to -1 |
| `SdrRing.CountRightExactly` | firmware/rp2350b/src/sdr_dma.c:184-196 | between releases, for live from 0 to 255, the published count is live if and only if the overruns not erased are a multiple of 256 |
| `SdrRing.OverrunExactly` | firmware/rp2350b/src/sdr_dma.c:184-192 | in every reachable state an interrupt overruns if and only if live is 7 modulo 8, and then the block at the read index becomes the hardware's target |
| `SdrRing.StatisticsTell` | firmware/rp2350b/src/sdr_dma.c:396-404 | over every run, restarts and counter wrap included: the change of captured - sent - overruns since the last start is live - erased modulo 8, one more inside a release; between releases the target is handed out if and only if that change plus erased is a multiple of 8; the counters themselves say the same if and only if they said 0 modulo 8 at the start |
| `SdrRing.WholeReleases` | firmware/rp2350b/src/sdr_dma.c:380-404 | if no interrupt falls between the load and store of the read index, live is captured - released - overruns since the start, at most 7, and between releases the change of the statistics tells whether the target is handed out |
| `SdrRing.RestartMisleads` | firmware/rp2350b/src/sdr_dma.c:297-312 | a run with a restart after which the statistics show 1 and the target is handed out |
| `SdrRing.HeldBlockExactly` | firmware/rp2350b/src/sdr_dma.c:352-372 | how long a block stays intact after get_block returned it: with live 1 to 7, through 7 - live captures; it is the hardware's target after n captures if and only if live + n is a multiple of 8 |
| `SdrRing.BlocksInCaptureOrder` | firmware/rp2350b/src/sdr_dma.c:352-386 | without overrun, interrupts anywhere in a release: at most 7 blocks wait, the count is write - read modulo 8, the oldest is handed out unchanged, and the DMA target is none of those waiting |
| `SdrRing.OverrunHandsOutTarget` | firmware/rp2350b/src/sdr_dma.c:187-195 | a run, no release interrupted, after which the block handed out is the one being filled |
| `SdrRing.OverrunErased` | firmware/rp2350b/src/sdr_dma.c:380-386 | a run in which a release stores over an overrun's move of the read index |
| `SdrRing.TiesStep` | firmware/rp2350b/src/sdr_dma.c:184-197 | each counter is its value at the last start plus what has happened since, modulo 2^32 |
| `SdrRing.Dma.constructor` | firmware/rp2350b/src/sdr_dma.c:262-286 | the ring starts empty and stopped |
| `SdrRing.Dma.StartCapture` | firmware/rp2350b/src/sdr_dma.c:297-312 | resets indices and count but not the statistics; no effect while running |
| `SdrRing.Dma.StopCapture` | firmware/rp2350b/src/sdr_dma.c:322-343 | wipes the buffer; indices, count and statistics stay |
| `SdrRing.Dma.IrqHandler` | firmware/rp2350b/src/sdr_dma.c:173-206 | the object refines the machine's interrupt step, statistics included; the next target is the new write block |
| `SdrRing.Dma.BlockDone` | firmware/rp2350b/src/sdr_dma.c:184-197 | the part of the handler for a completed block |
| `SdrRing.Dma.GetStats` | firmware/rp2350b/src/sdr_dma.c:396-404 | the counters |
| `SdrRing.Dma.GetBlock` | firmware/rp2350b/src/sdr_dma.c:352-372 | the block at the read index, or an underrun |
| `SdrRing.Dma.ReleaseBlock` | firmware/rp2350b/src/sdr_dma.c:380-386 | an uninterrupted release is the machine's five steps |
| `ScatterGather.RunExplained` | software/linux-drivers/src/apex_bridge.c:1584-1697 | over every run, either mode, timeouts included: every field and every descriptor follows from the numbers of transfers, refusals and timeouts; ERROR exactly if the last submission was refused with more than 100 errors counted |
| `ScatterGather.BatchEnds` | software/linux-drivers/src/apex_bridge.c:1614-1697 | single batch: after buf_count + 100 turns at most, besides those of transfers that never complete, it has stopped; in ERROR with more than 100 errors, or in IDLE with buffer i filled by transfer i, READY unless it was marked FREE after its wait had timed out |
| `ScatterGather.PatientBatchEnds` | software/linux-drivers/src/apex_bridge.c:1614-1697 | without timeouts: in ERROR after exactly 101 refusals, or in IDLE with every buffer READY and buf_count times buf_size bytes |
| `ScatterGather.BatchDeliversExactly` | software/linux-drivers/src/apex_bridge.c:1659-1696 | the batch is delivered if and only if buf_count transfers complete before a refusal is fatal; without timeouts, before the 101st refusal |
| `ScatterGather.LateBatch` | software/linux-drivers/src/apex_bridge.c:1676-1696 | a batch that ends in IDLE with a filled buffer marked FREE |
| `ScatterGather.SilenceNeverEnds` | software/linux-drivers/src/apex_bridge.c:1676-1684 | any number of timeouts in a row leaves the engine running, in either mode |
| `ScatterGather.RefusalFrees` | software/linux-drivers/src/apex_bridge.c:1659-1684 | a refusal, or a transfer that never completes, marks the next buffer FREE whatever it held, changes no other and counts one error |
| `ScatterGather.ContinuousRun` | software/linux-drivers/src/apex_bridge.c:1584-1604 | continuous mode without counter wrap: next buffer = sequence modulo buf_count, bytes = frames times size, READY buffers hold distinct recent transfers congruent to their index, every other buffer is untouched, next or unmarked, ERROR exactly from a fatal refusal, overruns = 0 |
| `SgEngine.Engine.constructor` | software/linux-drivers/src/apex_bridge.c:1706-1717 | an idle engine without buffers |
| `SgEngine.Engine.Start` | software/linux-drivers/src/apex_bridge.c:1727-1854 | the error for every rejected configuration, state and allocation, in the code's order; otherwise a fresh running engine, the SPI speed overridden if the request is in range, and the stream-start frame sent if buffers for it were found |
| `SgEngine.Engine.Configure` | software/linux-drivers/src/apex_bridge.c:1802-1824 | the fresh running engine |
| `SgEngine.Engine.StreamCommand` | software/linux-drivers/src/apex_bridge.c:1826-1842 | the frame to start or stop streaming |
| `SgEngine.Engine.AllocateBuffers` | software/linux-drivers/src/apex_bridge.c:1769-1800 | all buffers or none kept |
| `SgEngine.Engine.DmaCallback` | software/linux-drivers/src/apex_bridge.c:1584-1604 | the callback in place: the current buffer with size, time, sequence and READY, no other changed; the counters; the next index |
| `SgEngine.Engine.LateCallback` | software/linux-drivers/src/apex_bridge.c:1676-1684 | a callback just before or just after the worker marks the buffer FREE |
| `SgEngine.Engine.TakeTurn` | software/linux-drivers/src/apex_bridge.c:1621-1697 | one turn of the worker's loop in place, with and without a timeout |
| `SgEngine.Engine.WorkHandler` | software/linux-drivers/src/apex_bridge.c:1614-1701 | the worker's loop in either mode, on every pattern of outcomes, until it stops by itself or is stopped; a single batch without timeouts stops by itself within buf_count + 100 turns, with the outcome above |
| `SgEngine.Engine.Stop` | software/linux-drivers/src/apex_bridge.c:1864-1925 | an idle engine stays as it is; any other ends idle, without buffers, and the stream-stop frame is sent |
| `AdcCalibration.MillivoltsExactly` | firmware/rp2350b/src/adc_calibration.c:229-237 | the conversion is right if and only if the raw reading is at most 1321 |
| `CalRecord.ComputeChecksum` | firmware/rp2350b/src/adc_calibration.c:96-107 | the sum of all bytes of the structure but the last |
| `CalRecord.ChecksumIgnored` | firmware/rp2350b/src/adc_calibration.c:126-130 | the test at start does not depend on the checksum field: it holds if and only if magic, version and flag are right and the other bytes add up to a multiple of 256 |
| `CalRecord.FieldsReadBack` | firmware/rp2350b/src/adc_calibration.c:131-134 | the coefficients read back as written |
| `CalRecord.PersistsExactly` | firmware/rp2350b/src/adc_calibration.c:16-17 | the record written is accepted at the next start if and only if 613 plus the bytes of offset, gain and timestamp is a multiple of 256; the promise that calibration persists holds exactly then |
| `CalRecord.PerfectBoardForgotten` | firmware/rp2350b/src/adc_calibration.c:288-294 | a record that is not accepted |
| `AdcCalibration.MillivoltsWrapped` | firmware/rp2350b/src/adc_calibration.c:229-237 | what the conversion gives otherwise: the product less the multiples of 2^32 it has outgrown, in millionths |
| `AdcCalibration.SolveMeans` | firmware/rp2350b/src/adc_calibration.c:259-263 | gain and offset of any two readings as truncated quotients, the product wrapped to 32 bits |
| `CalRecord.RecordBytes` | firmware/rp2350b/include/adc_calibration.h:94-127 | the record byte by byte |
| `CalRecord.FieldsAt` | firmware/rp2350b/include/adc_calibration.h:94-127 | which bytes the coefficients are read from |
| `AdcCalibration.Calibration.constructor` | firmware/rp2350b/src/adc_calibration.c:50-54 | nothing loaded; flash as it was |
| `AdcCalibration.Calibration.Init` | firmware/rp2350b/src/adc_calibration.c:111-153 | the coefficients in flash if the record there is accepted, else unity gain and no offset |
| `AdcCalibration.Calibration.BuildRecord` | firmware/rp2350b/src/adc_calibration.c:288-294 | the record, its checksum taken while that field is zero |
| `AdcCalibration.Calibration.FactoryCalibrate` | firmware/rp2350b/src/adc_calibration.c:204-324 | which inputs are refused with which code, both ways for each code, leaving everything as it was; accepted coefficients are in force even when the flash does not verify, and 0 is returned if and only if it holds the record |
| `AdcCalibration.Calibration.ApplyVbat` | firmware/rp2350b/src/adc_calibration.c:155-177 | the correction in the code's steps |
| `AdcCalibration.ApplyAny` | firmware/rp2350b/src/adc_calibration.c:155-177 | with any coefficients a record can hold: the product wrapped to 32 bits, in thousandths rounded down, clamped to 0 and 65535 |
| `AdcCalibration.AcceptedFacts` | firmware/rp2350b/src/adc_calibration.c:259-273 | accepted coefficients were computed without 32-bit overflow, and what they say about the readings |
| `AdcCalibration.ApplyNeverOverflows` | firmware/rp2350b/src/adc_calibration.c:165-168 | with sane coefficients no reading overflows |
| `AdcCalibration.LowReference` | firmware/rp2350b/src/adc_calibration.c:239-266 | the exact error at the low reference, when it is zero, and that it is at most 20 mV |
| `AdcCalibration.HighReference` | firmware/rp2350b/src/adc_calibration.c:239-266 | at most 22 mV at the high reference |
| `Pll.CalculatePllParams` | firmware/rp2350b/src/lms7002m_driver.c:198-258 | the divider search loop and the fixed-point division, for any reference clock |
| `Pll.SucceedsExactly` | firmware/rp2350b/src/lms7002m_driver.c:208-250 | success if and only if 58,750,000 <= f <= 3,800,000,000 |
| `Pll.AnnouncedMinimumFails` | firmware/rp2350b/include/lms7002m_driver.h:41 | the announced minimum of 100 kHz is refused |
| `Pll.ParametersFit` | firmware/rp2350b/src/lms7002m_driver.c:291-304 | least power-of-two divider, no 64-bit overflow, both parts fit their registers and can be put together again |
| `Pll.SynthesisError` | firmware/rp2350b/src/lms7002m_driver.c:239-256 | never above the wanted VCO; less than one fraction step below if and only if the VCO is in the lower half between two reference multiples; bounded by the clamp otherwise |
| `Pll.GreatestWord` | firmware/rp2350b/src/lms7002m_driver.c:239-256 | of the words with a 23-bit fraction the one programmed is the greatest not above the wanted VCO; in the upper half its fraction is 0x7FFFFF |
| `Pll.AnyReference` | firmware/rp2350b/src/lms7002m_driver.c:198-258 | for any reference clock: when the computation is refused, and integer part, fraction and divider otherwise |
| `Pll.MonotonePerDivider` | firmware/rp2350b/src/lms7002m_driver.c:245-256 | the programmed word grows with the frequency |
| `Pll.GainDelivered` | firmware/rp2350b/src/lms7002m_driver.c:423-452 | the gain split delivers the request to the dB if and only if it is within reach of the enabled stages, LNA first; out of reach, nothing or everything |
| `Power.Monitor.constructor` | firmware/rp2350b/src/battery_monitor.c:462-464 | power-on state |
| `Power.Monitor.IsBrownout` | firmware/rp2350b/src/battery_monitor.c:441-456 | the flag with its hysteresis |
| `Power.Monitor.Update` | firmware/rp2350b/src/battery_monitor.c:485-527 | one update in place |
| `Power.ShutdownExactly` | firmware/rp2350b/src/battery_monitor.c:485-527 | over every run: SHUTDOWN if and only if some sample was below 3000 mV or above 105 degrees; IDLE unreachable; brownout implies SHUTDOWN |
| `Power.SleepExactly` | firmware/rp2350b/src/battery_monitor.c:485-527 | over every run without a critical sample: SLEEP if and only if some sample was below 3300 mV without activity and none since has had any; ACTIVE otherwise |
| `Power.BrownoutExactly` | firmware/rp2350b/src/battery_monitor.c:441-456 | over every run: brownout if and only if some sample was below 2800 mV and none since has reached 3000 mV |

## Left out

- Protocol.Link.Process: runs without interrupts between its loads; RxRing interleaves the same loop with them.
- TxRing.Ring.BuildResponseFrame: runs without the reader moving; TxRing.OnlyFramesInOrder interleaves the two. The wipe of the stack buffer and INT_REQ are left out.
- Handoff.KeptExactly: a frame that begins before the one before it is released, and has a further sync byte in it, may be taken up from there; what that then does is not described beyond Isr.FramesAccountedFor.
- Handoff.HandoffSafe: the main loop takes a frame once and then releases it; a second get_frame before the release would return the same bytes.
- ScatterGather.ContinuousRun: the USERSPACE state, which no code enters; a transfer that completes only after the worker has gone on from its timeout, when the message on the worker's stack is already in use again; mmap.
- Pll.SucceedsExactly: and the other results on synthesis are for the 30.72 MHz clock, the only one the driver passes.
- The bodies of the six command handlers behind dispatch_frame: each decides about one message on its own.
- The transmit half of the interrupt handler in spi0_isr.c, INT_REQ signalling and register access.
- Telemetry packing and the sysfs, ioctl, character-device and power-management code of the driver.
- CC1101, ST25R3916, watchdog, sleep and peripheral power code, and the radio's register traffic: device access and constants.
- Temperature calibration, ADC sampling and flash programming: readings, time and what flash holds after programming are inputs. `cal_version`, `reserved` and `vref_mv` of the calibration state are not kept.
- libapex and the Python bindings: thin wrappers.
