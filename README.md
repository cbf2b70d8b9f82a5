# MAX30003 ECG front-end driver, modelled in Dafny

This project models the driver for the MAX30003 ECG analog front end, `max30003.c`. The driver does four things:

- It reads and writes 24-bit chip registers over SPI. Register-level transactions are framed by a chip-select pin and built from single full-duplex byte exchanges.
- It reads ECG samples from the chip's FIFO with a burst command and sign-extends each 24-bit word to 32 bits.
- It extracts the 18-bit ECG field from a sample. That field is the integer part of the millivolt conversion.
- It initialises the chip. A probe read of INFO fails fast on a stuck bus. Then come a software reset and five configuration writes, each followed by a fixed delay. Then up to 100 polls of STATUS bit 23, 10 ms apart. Finally the read-back of CNFG_GEN and CNFG_ECG, which only chooses which diagnostic is printed.

## Structure of the model

- `bits.dfy` (module `Bits`) holds the pure bit arithmetic: the command byte, the MSB-first split and join of payloads, the 24→32-bit sign extension, the ECG field and its value in millivolts. C's shifts and masks are written as division and remainder on unbounded integers. Integer widths (`uint8_t`, `uint32_t`, `int32_t`) are subset types.
- `registers.dfy` (module `Registers`) holds the register addresses, the configuration values written, the iteration bound of the poll loop and the field decoders used by the read-back step.
- `spi.dfy` (module `Spi`) models the bus as a record of events: CS high, CS low, delays and byte exchanges. The chip is a function from the bus history to the next byte it shifts out, so each reply depends on everything sent before it. `Shift` is a run of exchanges. `Sent`, `Received`, `Clocked` and `SelectedAfter` are views of a record.
- `frames.dfy` (module `Frames`) gives the exact event sequence of each register primitive as a function of the chip and the history. It proves their framing and their byte contents. It also relates a record of driver-level calls (`Events`, `Faithful`) to the bus.
- `transcript.dfy` (module `Transcript`) defines the driver-level record (`Op`). `InitRun` is a grammar of every record `max30003_init` can leave, and the init properties are lemmas over that grammar.
- `max30003.dfy` (module `Driver`) holds the class `Max30003`, whose state is:
  - the bus record `trace`;
  - a ghost record of calls `ops`.

  Its methods follow the C functions statement by statement:
  - `PinOutSet`, `PinOutClear`, `DelayMillisecond` and `TransferByte` are the hardware calls.
  - `WriteRegister`, `ReadRegister`, `ReadEcgSample` and `DataReady` are the driver's register primitives.
  - `Init` calls `Configure` and `AwaitFirstSample` for the two halves of its body.

  The class invariant `Valid()` says three things:
  - the bus record is the frames of the recorded calls;
  - every recorded read holds the word the chip returned on the bus;
  - consequently (`BetweenCalls`), between calls the chip is deselected and has clocked in exactly the bytes of the recorded calls.

`spi_transfer_simple` (`max30003.c:12-28`) is abstracted to one event, `Exchange(mosi, miso)`, with `miso` given by the chip function.

## Model

| member | source | states |
|---|---|---|
| Bits.CommandByte | max30003.c:41 | The command byte `(reg_addr << 1) \| rw` truncated to `uint8_t`: bits 7..1 carry the low seven address bits and bit 0 the read flag. |
| Bits.Join24 | max30003.c:73 | `b0 << 16 \| b1 << 8 \| b2` is below 2^24, and its three bytes are `b0`, `b1`, `b2` again. |
| Bits.PayloadBytes | max30003.c:42-44 | Three bytes, which join back into the low 24 bits of the value written. |
| Bits.JoinOfSplit | max30003.c:42-44 | The split bytes `(data >> 16) & 0xFF`, `(data >> 8) & 0xFF`, `data & 0xFF` join back into `data mod 2^24`. |
| Bits.PayloadOfJoin | max30003.c:42-44 | Splitting a joined word gives back the three bytes (the other direction of the round trip). |
| Bits.PayloadIgnoresHighBits | max30003.c:42-44 | Bits 24..31 of the value written do not affect the payload bytes. |
| Bits.SignExtend24 | max30003.c:92-95 | The result is `v` when bit 23 is clear and `v - 2^24` when it is set. It lies in [-2^23, 2^23), and its low 24 bits are `v`. |
| Bits.SignExtendOfLow24 | max30003.c:92-95 | The inverse direction: sign-extending the low 24 bits of any value in [-2^23, 2^23) gives it back. |
| Bits.ToInt32 | max30003.c:92-94 | Reading a 32-bit pattern as `int32_t` is undone by reading it back as `uint32_t`. |
| Bits.EcgField | max30003.c:103-112 | The result lies in [-2^17, 2^17) and is congruent modulo 2^18 to `(raw >> 6) & 0x3FFFF` of the unsigned pattern. |
| Bits.EcgFieldLow24 | max30003.c:103-104 | The field depends only on the low 24 bits of the sample. |
| Bits.EcgFieldOfSignExtended | max30003.c:92-112 | A sign-extended sample and its unsigned 24-bit pattern give the same field. |
| Bits.EcgFieldOfPlaced | max30003.c:103-112 | A field `f` placed in bits 6..23 over any low six bits is extracted as exactly `f`, from the sign-extended sample too. |
| Bits.PlaceFieldOfEcgField | max30003.c:103-112 | Every 24-bit sample is its field placed over its own low six bits (extraction loses only bits 0..5). |
| Bits.Millivolts | max30003.c:116 | Over the reals, the conversion is field·1000/(2^17·20) and lies in [-50, 50). |
| Bits.MillivoltsFullScale | max30003.c:116 | The most negative field is exactly -50 mV. |
| Registers.ProfileDecodes | max30003.c:140-171 | The values written decode under the read-back offsets to FMSTR = 1 with EN_ECG set, RATE = 2 and GAIN = 0, which the verification step accepts. |
| Spi.Shift | max30003.c:12-28 | One exchange per byte, in order, each sending its byte. |
| Spi.ShiftAt | max30003.c:12-28 | Exchange `i` sends byte `i` and carries the chip's reply to everything on the bus before it. |
| Spi.ShiftSent | max30003.c:41-44 | A run of exchanges sends exactly its bytes, all clocked in while the chip is selected, and leaves chip select unchanged. |
| Spi.ShiftReceived | max30003.c:63-68 | A run of exchanges receives one byte per byte sent, in order. |
| Frames.BurstCommandIsFifoRead | max30003.c:81-82 | The literal 0x43 is the read command of pseudo-register 0x21 (ECG_FIFO_BURST). |
| Frames.WriteFrameShape | max30003.c:33-51 | A register write first raises chip select. It is self-contained: from either chip-select level, every byte it sends is clocked in and the chip is deselected at its end. It sends exactly the write command and the three payload bytes. |
| Frames.ReadFrameShape | max30003.c:56-71 | A register read first raises chip select, is self-contained, and sends exactly the read command and three 0x00 bytes. |
| Frames.BurstFrameShape | max30003.c:78-89 | A burst read first lowers chip select, with no leading raise. It is self-contained and sends exactly 0x43 and three 0x00 bytes. |
| Frames.ReadWordReceived | max30003.c:66-73 | The word a read returns is the join of the three bytes received after the command byte, each the chip's reply to the bus history so far. |
| Frames.BurstWordReceived | max30003.c:84-92 | The same for the FIFO word of a burst read. |
| Frames.BurstSampleValue | max30003.c:91-97 | The sample of a burst read is the 24-bit two's-complement value of its FIFO word, in [-2^23, 2^23). |
| Frames.WriteIgnoresHighBits | max30003.c:42-44 | Bits above 23 of the value written change nothing on the bus. |
| Frames.WriteThenReadBack | max30003.c:42-73 | Write and read agree on byte order. A chip that answers a read's zero bytes with the payload bytes of a write of `data` makes the read return `data mod 2^24`. |
| Frames.OpFrameShape | max30003.c:31-98 | Each recorded call sends exactly its command and payload bytes, all clocked in, and leaves the chip deselected. |
| Frames.EventsBetweenCalls | max30003.c:31-98 | After any sequence of calls the chip is deselected, and the bytes on the bus and the bytes clocked in are the calls' bytes in order. |
| Frames.RecordedSnoc | max30003.c:31-98 | Appending a call and its frame to a record of the bus keeps it a record. |
| Frames.RecordedEvents | max30003.c:31-98 | A bus record cut into per-call frames is the frames of its calls, and its reads hold the chip's answers. |
| Transcript.StepOps | max30003.c:135-158 | The record of the configuration steps has two entries per step, each a write or a delay. |
| Transcript.ConfigureSpelt | max30003.c:135-158 | The configuration record is, in order: `0x08←0` then 500 ms, `0x15←0x800000` then 100 ms, `0x10←0x180000` then 200 ms, `0x09←0` then 200 ms, `0x14←0` then 100 ms, `0x09←0` then 500 ms. |
| Transcript.PollRunOutcome | max30003.c:161-201 | A poll run makes at most the remaining number of polls. It succeeds if and only if one poll sees bit 23, and only the last can. On failure every remaining poll was made. |
| Transcript.PollRunReadback | max30003.c:164-201 | A successful poll run ends with one read of CNFG_GEN and one of CNFG_ECG. A failing one reads neither. |
| Transcript.PollRunIgnoresReadback | max30003.c:166-194 | Whatever CNFG_GEN and CNFG_ECG read back, a successful poll run stays successful. |
| Transcript.PollRunWritesNothing | max30003.c:161-201 | The poll loop writes no register. |
| Transcript.ProbeFailureStops | max30003.c:126-131 | If INFO reads 0x000000 or 0xFFFFFF, init fails right after the probe, with no register write and no status poll. |
| Transcript.InitWriteOrder | max30003.c:135-198 | Past the probe, init writes exactly the six profile values in their fixed order, and none after its first status poll. |
| Transcript.ProfileWrites | max30003.c:135-158 | The writes of the profile, spelt out. |
| Transcript.InitOutcome | max30003.c:120-202 | Init makes at most 100 status polls. It returns true if and only if one of them sees bit 23, and only the last can. |
| Transcript.InitTimeout | max30003.c:161-201 | Failing past the probe means exactly 100 status polls, none with bit 23. |
| Transcript.InitReadback | max30003.c:164-201 | A successful init ends with reads of CNFG_GEN and CNFG_ECG, one of each. A failing init reads neither. |
| Transcript.InitIgnoresReadback | max30003.c:166-194 | The values read back (FMSTR, RATE, GAIN) never change the result. |
| Transcript.InitRunDeterministic | max30003.c:120-202 | A record allows only one result. |
| Driver.Max30003.TransferByte | max30003.c:12-28 | The byte exchange sends `b` and returns the chip's reply to the bus history, appending exactly that exchange. |
| Driver.Max30003.WriteTransaction | max30003.c:33-51 | The bus events of a register write, statement by statement, equal `WriteFrame`. |
| Driver.Max30003.WriteRegister | max30003.c:31-52 | Keeps the invariant, records the write and appends its frame. |
| Driver.Max30003.ReadTransaction | max30003.c:56-73 | The bus events of a register read equal `ReadFrame`. It returns `ReadWord`, the join of the three bytes received. |
| Driver.Max30003.ReadRegister | max30003.c:55-74 | Keeps the invariant, returns the word the chip answered, and records the read with that word. |
| Driver.Max30003.BurstTransaction | max30003.c:78-92 | The bus events of a burst read equal `BurstFrame`. It returns the 24-bit FIFO word. |
| Driver.Max30003.ReadEcgSample | max30003.c:77-98 | Returns `BurstSample`, the sign-extended FIFO word, and records it. |
| Driver.Max30003.DataReady | max30003.c:205-210 | Returns just bit 23 of one fresh read of STATUS. |
| Driver.Max30003.Configure | max30003.c:134-158 | Records exactly the configuration steps, in order. |
| Driver.Max30003.AwaitFirstSample | max30003.c:160-201 | What it records is a poll run (`PollRun`) from poll 0 with the result it returns. |
| Driver.Max30003.Init | max30003.c:120-202 | What it records is an init run (`InitRun`) with the result it returns, so every `Init*` and `ProbeFailure*` lemma holds of it. |
| Driver.Max30003.BetweenCalls | max30003.c:31-98 | Under the invariant, the bus record is the frames of the recorded calls and every read holds the chip's answer. The chip is deselected, and the bytes sent and clocked in are those of the calls. |

## Left out

- `app.c` is not part of this model: clock and pin setup, the global init flag and the printing loop are glue around the driver.
- The inside of `spi_transfer_simple` (`max30003.c:12-28`) is abstracted. Its busy-waits on the EUSART flags, with no timeout, reduce to one byte exchange whose reply comes from the chip function.
- Delays are recorded as events with their millisecond count and have no timing semantics.
- `printf` output (`max30003.c:124-192`) is not modelled. In `AwaitFirstSample`, FMSTR, RATE, GAIN and the confirmation flag are computed as in the source but only select messages. `InitIgnoresReadback` states that they do not affect the result.
- Bits.Millivolts: the float arithmetic of `max30003.c:116` is stated exactly over the reals, without single-precision rounding.
- `max30003.h` holds only prototypes. `max30003_test_gain` is declared there but has no definition, so it is not modelled.
- The chip is a deterministic function of the bus history. Electrical behaviour, concurrent access and interrupts are outside the model.
- The record of driver calls (`ops`) and the frame boundaries (`marks`) are ghost state: they describe the run and have no counterpart in the C code.
- The body of `max30003_init` is split into `Init`, `Configure` (lines 134-158) and `AwaitFirstSample` (lines 160-201). The statement sequence is unchanged.
