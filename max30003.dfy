/**
 * The MAX30003 driver as an object: the bus it drives, the chip on the
 * other end, and the register primitives, the sample read, the readiness
 * check and the initialisation sequence built on them.
 *
 * `trace` is everything that has happened on the bus; `ops` is the ghost
 * driver-level record of the calls made.  `Valid()` ties the two: the bus
 * trace is exactly the frames of the recorded calls, and every recorded
 * read holds the word the chip answered on the bus at that point.
 */
module Driver {
  import opened Bits
  import opened Registers
  import opened Spi
  import opened Transcript
  import opened Frames

  /** Regrouping a transaction's events: opening, exchanges, closing. */
  lemma JoinFrame(h: seq<Event>, open: seq<Event>, xs: seq<Event>, close: seq<Event>, t: seq<Event>)
    requires |close| >= 1 && t == h + open + xs + close[..|close| - 1] + [close[|close| - 1]]
    ensures t == h + (open + xs + close)
  {
    assert close == close[..|close| - 1] + [close[|close| - 1]];
  }

  /** `a + b` starts with `a` and continues with `b`. */
  lemma AppendedSplit<T>(a: seq<T>, b: seq<T>)
    ensures |a + b| >= |a| && (a + b)[..|a|] == a && (a + b)[|a|..] == b
  {
  }

  /** Appending nothing changes nothing. */
  lemma AppendEmpty<T>(s: seq<T>)
    ensures s + [] == s
  {
  }

  /** A sequence is its prefix followed by the rest. */
  lemma SplitAt<T>(s: seq<T>, n: nat)
    requires n <= |s|
    ensures s == s[..n] + s[n..]
  {
  }

  /** The record after the six profile writes and their delays, call by call. */
  lemma ConfigureAppended(base: seq<Op>)
    ensures base + [Write(SW_RST, 0)] + [Op.Pause(500)] + [Write(CNFG_ECG, CNFG_ECG_PROFILE)]
      + [Op.Pause(100)] + [Write(CNFG_GEN, CNFG_GEN_PROFILE)] + [Op.Pause(200)]
      + [Write(SYNCH, 0)] + [Op.Pause(200)] + [Write(CNFG_EMUX, 0)] + [Op.Pause(100)]
      + [Write(SYNCH, 0)] + [Op.Pause(500)]
      == base + CONFIGURE
  {
    ConfigureSpelt();
  }

  /** The record after one more unanswered poll and its delay. */
  lemma PollAppended(pre: seq<Op>, vs: seq<nat>, v: nat)
    ensures pre + PollOps(vs) + [Read(STATUS, v)] + [Op.Pause(10)] == pre + PollOps(vs + [v])
  {
    PollOpsSnoc(vs, v);
  }

  /** The record after the answered poll and the two read-backs. */
  lemma ReadbackAppended(pre: seq<Op>, polls: seq<Op>, status: nat, gen: nat, ecg: nat)
    ensures pre + polls + [Read(STATUS, status)] + [Read(CNFG_GEN, gen)] + [Read(CNFG_ECG, ecg)]
      == pre + (polls + [Read(STATUS, status), Read(CNFG_GEN, gen), Read(CNFG_ECG, ecg)])
  {
  }

  /** The record after the probe. */
  lemma ProbeAppended(base: seq<Op>, info: nat)
    ensures base + [Op.Release] + [Op.Pause(500)] + [Read(INFO, info)]
      == base + [Op.Release, Op.Pause(500), Read(INFO, info)]
  {
  }

  /** The record after the probe, the configuration and the polls. */
  lemma InitAppended(base: seq<Op>, info: nat, polls: seq<Op>)
    ensures base + [Op.Release] + [Op.Pause(500)] + [Read(INFO, info)] + CONFIGURE + polls
      == base + ([Op.Release, Op.Pause(500), Read(INFO, info)] + CONFIGURE + polls)
  {
  }

  class Max30003 {
    /** The chip: the byte it shifts out next, given what happened on the bus. */
    const device: Device
    /** Everything that happened on the bus, in order. */
    var trace: seq<Event>
    /** The driver-level record of the calls made. */
    ghost var ops: seq<Op>
    /** Where each recorded call's frame starts in `trace`, and where the last one ends. */
    ghost var marks: seq<nat>

    ghost predicate Valid()
      reads this
    {
      Recorded(device, ops, marks, trace)
    }

    constructor(device: Device)
      ensures this.device == device && trace == [] && ops == []
      ensures Valid()
    {
      this.device := device;
      trace := [];
      ops := [];
      marks := [0];
      RecordedEmpty(device);
    }

    /**
     * Between calls the bus trace is the frames of the recorded calls, each
     * recorded read holds what the chip answered, the chip is deselected,
     * and every byte sent was clocked in by it.
     */
    lemma BetweenCalls()
      requires Valid()
      ensures trace == Events(device, ops) && Faithful(device, ops)
      ensures !SelectedAfter(trace, false)
      ensures Sent(trace) == Wire(ops) && Clocked(trace, false) == Wire(ops)
    {
      RecordedEvents(device, ops, marks, trace);
      EventsBetweenCalls(device, ops);
    }

    /** Appends `op` to the record, once its frame has gone out after `h`. */
    ghost method Log(h: seq<Event>, op: Op)
      requires Recorded(device, ops, marks, h) && Answered(device, h, op)
      requires trace == h + OpFrame(device, h, op)
      modifies this
      ensures Valid() && ops == old(ops) + [op] && trace == old(trace)
    {
      RecordedSnoc(device, ops, marks, h, op);
      ops := ops + [op];
      marks := marks + [|trace|];
    }

    /** `GPIO_PinOutSet` on the chip-select pin: deselects the chip. */
    method PinOutSet()
      modifies this
      ensures trace == old(trace) + [CsHigh] && ops == old(ops) && marks == old(marks)
    {
      trace := trace + [CsHigh];
    }

    /** `GPIO_PinOutClear` on the chip-select pin: selects the chip. */
    method PinOutClear()
      modifies this
      ensures trace == old(trace) + [CsLow] && ops == old(ops) && marks == old(marks)
    {
      trace := trace + [CsLow];
    }

    /** `sl_sleeptimer_delay_millisecond`. */
    method DelayMillisecond(ms: nat)
      modifies this
      ensures trace == old(trace) + [Delay(ms)] && ops == old(ops) && marks == old(marks)
    {
      trace := trace + [Delay(ms)];
    }

    /** `spi_transfer_simple`: sends `b` and returns the byte the chip shifted out meanwhile. */
    method TransferByte(b: Byte) returns (r: Byte)
      modifies this
      ensures r == device(old(trace))
      ensures trace == old(trace) + [Exchange(b, r)] && ops == old(ops) && marks == old(marks)
    {
      r := device(trace);
      trace := trace + [Exchange(b, r)];
    }

    /** Sends byte `k` of `bs`, continuing the exchanges of the bytes before it after `h`. */
    method TransferNext(ghost h: seq<Event>, ghost bs: seq<Byte>, k: nat, b: Byte) returns (r: Byte)
      requires k < |bs| && b == bs[k]
      requires trace == h + Shift(device, h, bs[..k])
      modifies this
      ensures trace == h + Shift(device, h, bs[..k + 1]) && ops == old(ops) && marks == old(marks)
      ensures r == Shift(device, h, bs)[k].miso
    {
      r := TransferByte(b);
      assert bs[..k + 1] == bs[..k] + [b];
      ShiftSnoc(device, h, bs[..k], b);
      ShiftReply(device, h, bs, k);
    }

    /** `GPIO_PinOutSet` called by the driver outside any transaction, recorded. */
    method Release()
      requires Valid()
      modifies this
      ensures Valid()
      ensures ops == old(ops) + [Op.Release] && trace == old(trace) + [CsHigh]
    {
      ghost var h := trace;
      PinOutSet();
      Log(h, Op.Release);
    }

    /** A delay called by the driver between transactions, recorded. */
    method Pause(ms: nat)
      requires Valid()
      modifies this
      ensures Valid()
      ensures ops == old(ops) + [Op.Pause(ms)] && trace == old(trace) + [Delay(ms)]
    {
      ghost var h := trace;
      DelayMillisecond(ms);
      Log(h, Op.Pause(ms));
    }

    /** The bus side of `max30003_write_register` (lines 33-51). */
    method WriteTransaction(addr: Byte, data: UInt32)
      modifies this
      ensures trace == old(trace) + WriteFrame(device, old(trace), addr, data) && ops == old(ops) && marks == old(marks)
    {
      ghost var h := trace;
      PinOutSet();
      DelayMillisecond(2);
      PinOutClear();
      DelayMillisecond(1);
      ghost var h1 := trace;
      var payload := PayloadBytes(data);
      ghost var bs := [CommandByte(addr, false)] + payload;
      assert h1 == h + WRITE_OPEN;
      assert h1 + Shift(device, h1, bs[..0]) == h1;
      var _ := TransferNext(h1, bs, 0, CommandByte(addr, false));
      var _ := TransferNext(h1, bs, 1, payload[0]);
      var _ := TransferNext(h1, bs, 2, payload[1]);
      var _ := TransferNext(h1, bs, 3, payload[2]);
      assert bs[..4] == bs;
      ghost var xs := Shift(device, h1, bs);
      DelayMillisecond(1);
      PinOutSet();
      DelayMillisecond(10);
      JoinFrame(h, WRITE_OPEN, xs, WRITE_CLOSE, trace);
    }

    /** `max30003_write_register`: one write transaction (`WriteFrameShape`). */
    method WriteRegister(addr: Byte, data: UInt32)
      requires Valid()
      modifies this
      ensures Valid()
      ensures ops == old(ops) + [Write(addr, data)]
      ensures trace == old(trace) + WriteFrame(device, old(trace), addr, data)
    {
      ghost var h := trace;
      WriteTransaction(addr, data);
      Log(h, Write(addr, data));
    }

    /** The bus side of `max30003_read_register` (lines 56-73). */
    method ReadTransaction(addr: Byte) returns (value: UInt32)
      modifies this
      ensures value == ReadWord(device, old(trace), addr)
      ensures trace == old(trace) + ReadFrame(device, old(trace), addr) && ops == old(ops) && marks == old(marks)
    {
      ghost var h := trace;
      PinOutSet();
      DelayMillisecond(1);
      PinOutClear();
      DelayMillisecond(1);
      ghost var h1 := trace;
      ghost var bs := ReadBytes(addr);
      assert h1 == h + READ_OPEN;
      assert h1 + Shift(device, h1, bs[..0]) == h1;
      var _ := TransferNext(h1, bs, 0, CommandByte(addr, true));
      var b0 := TransferNext(h1, bs, 1, 0x00);
      var b1 := TransferNext(h1, bs, 2, 0x00);
      var b2 := TransferNext(h1, bs, 3, 0x00);
      assert bs[..4] == bs;
      ghost var xs := Shift(device, h1, bs);
      DelayMillisecond(1);
      PinOutSet();
      JoinFrame(h, READ_OPEN, xs, READ_CLOSE, trace);
      value := Join24(b0, b1, b2);
    }

    /** `max30003_read_register`: one read transaction, returning the word the chip answered. */
    method ReadRegister(addr: Byte) returns (value: UInt32)
      requires Valid()
      modifies this
      ensures Valid()
      ensures value == ReadWord(device, old(trace), addr)
      ensures ops == old(ops) + [Read(addr, value)]
      ensures trace == old(trace) + ReadFrame(device, old(trace), addr)
    {
      ghost var h := trace;
      value := ReadTransaction(addr);
      Log(h, Read(addr, value));
    }

    /** The bus side of `max30003_read_ecg_sample` (lines 78-92): the 24-bit FIFO word. */
    method BurstTransaction() returns (word: UInt24)
      modifies this
      ensures word == BurstWord(device, old(trace))
      ensures trace == old(trace) + BurstFrame(device, old(trace)) && ops == old(ops) && marks == old(marks)
    {
      ghost var h := trace;
      PinOutClear();
      DelayMillisecond(1);
      ghost var h1 := trace;
      ghost var bs := BURST_BYTES;
      assert h1 == h + BURST_OPEN;
      assert h1 + Shift(device, h1, bs[..0]) == h1;
      var _ := TransferNext(h1, bs, 0, BURST_COMMAND);
      var b0 := TransferNext(h1, bs, 1, 0x00);
      var b1 := TransferNext(h1, bs, 2, 0x00);
      var b2 := TransferNext(h1, bs, 3, 0x00);
      assert bs[..4] == bs;
      ghost var xs := Shift(device, h1, bs);
      DelayMillisecond(1);
      PinOutSet();
      JoinFrame(h, BURST_OPEN, xs, READ_CLOSE, trace);
      word := Join24(b0, b1, b2);
    }

    /**
     * `max30003_read_ecg_sample`: one FIFO burst read, returning its 24-bit
     * word with bit 23 copied into the upper byte (`BurstSampleValue`).
     */
    method ReadEcgSample() returns (sample: Int32)
      requires Valid()
      modifies this
      ensures Valid()
      ensures sample == BurstSample(device, old(trace))
      ensures ops == old(ops) + [Burst(sample)]
      ensures trace == old(trace) + BurstFrame(device, old(trace))
    {
      ghost var h := trace;
      var word := BurstTransaction();
      var bits: UInt32 := word;
      if Bit23(word) {
        bits := word as int + 0xFF00_0000;
      }
      sample := ToInt32(bits);
      Log(h, Burst(sample));
    }

    /** `max30003_data_ready`: whether bit 23 of STATUS, read once, is set. */
    method DataReady() returns (ready: bool)
      requires Valid()
      modifies this
      ensures Valid()
      ensures ready == Ready(ReadWord(device, old(trace), STATUS))
      ensures ops == old(ops) + [Read(STATUS, ReadWord(device, old(trace), STATUS))]
      ensures trace == old(trace) + ReadFrame(device, old(trace), STATUS)
    {
      var status := ReadRegister(STATUS);
      ready := Bit23(status);
    }

    /** Lines 135-158 of `max30003_init`: reset, then the profile writes, each with its delay. */
    method Configure()
      requires Valid()
      modifies this
      ensures Valid()
      ensures ops == old(ops) + CONFIGURE
    {
      ghost var base := ops;
      WriteRegister(SW_RST, 0x00_0000);
      Pause(500);
      WriteRegister(CNFG_ECG, CNFG_ECG_PROFILE);
      Pause(100);
      WriteRegister(CNFG_GEN, CNFG_GEN_PROFILE);
      Pause(200);
      WriteRegister(SYNCH, 0x00_0000);
      Pause(200);
      WriteRegister(CNFG_EMUX, 0x00_0000);
      Pause(100);
      WriteRegister(SYNCH, 0x00_0000);
      Pause(500);
      ConfigureAppended(base);
    }

    /**
     * Lines 161-201 of `max30003_init`: up to 100 polls of STATUS, 10 ms
     * apart, until one sees bit 23; then the read-back of CNFG_GEN and
     * CNFG_ECG, whose FMSTR and RATE decide only which message is printed.
     */
    method AwaitFirstSample() returns (ok: bool)
      requires Valid()
      modifies this
      ensures Valid()
      ensures |ops| >= |old(ops)| && ops[..|old(ops)|] == old(ops)
      ensures PollRun(ops[|old(ops)|..], 0, ok)
    {
      ghost var pre := ops;
      var timeout := 0;
      ghost var vs: seq<nat> := [];
      while timeout < READY_POLLS
        invariant Valid()
        invariant timeout == |vs| <= READY_POLLS
        invariant forall i :: 0 <= i < |vs| ==> !Ready(vs[i])
        invariant ops == pre + PollOps(vs)
      {
        var status := ReadRegister(STATUS);
        if Bit23(status) {
          var gen := ReadRegister(CNFG_GEN);
          var ecg := ReadRegister(CNFG_ECG);
          var fmstr := Fmstr(gen);
          var rate := Rate(ecg);
          var gain := Gain(ecg);
          var confirmed := fmstr == 1 && rate == 2;
          ghost var tail := [Read(STATUS, status), Read(CNFG_GEN, gen), Read(CNFG_ECG, ecg)];
          ReadbackAppended(pre, PollOps(vs), status, gen, ecg);
          PollRunAfter(vs, 0, tail, true);
          AppendedSplit(pre, PollOps(vs) + tail);
          return true;
        }
        Pause(10);
        PollAppended(pre, vs, status);
        vs := vs + [status];
        timeout := timeout + 1;
      }
      PollRunAfter(vs, 0, [], false);
      AppendEmpty(PollOps(vs));
      AppendedSplit(pre, PollOps(vs));
      return false;
    }

    /**
     * `max30003_init`: the run it records is one that `InitRun` describes,
     * so the lemmas about `InitRun` hold of it, whatever the chip answers.
     */
    method Init() returns (ok: bool)
      requires Valid()
      modifies this
      ensures Valid()
      ensures |ops| >= |old(ops)| && ops[..|old(ops)|] == old(ops)
      ensures InitRun(ops[|old(ops)|..], ok)
    {
      ghost var base := ops;
      Release();
      Pause(500);
      var info := ReadRegister(INFO);
      ghost var probe := [Op.Release, Op.Pause(500), Read(INFO, info)];
      if info == 0x00_0000 || info == 0xFF_FFFF {
        InitRunProbeFailure(info);
        ProbeAppended(base, info);
        AppendedSplit(base, probe);
        return false;
      }
      Configure();
      ghost var pre := ops;
      ok := AwaitFirstSample();
      ghost var polls := ops[|pre|..];
      SplitAt(ops, |pre|);
      InitAppended(base, info, polls);
      InitRunIntro(info, polls, ok);
      AppendedSplit(base, probe + CONFIGURE + polls);
    }
  }
}
