/**
 * The bus transactions of the driver's register primitives, as functions of
 * the chip and the bus history before them.
 *
 * `max30003_write_register` raises chip select, waits 2 ms, lowers it, waits
 * 1 ms, sends the command byte and three payload bytes, waits 1 ms, raises
 * chip select and waits 10 ms.  `max30003_read_register` does the same with
 * 1 ms waits, a read command and three zero bytes whose answers form the
 * word, and no final wait.  `max30003_read_ecg_sample` lowers chip select
 * without raising it first and sends the fixed burst command 0x43.
 */
module Frames {
  import opened Bits
  import opened Registers
  import opened Spi
  import opened Transcript

  /** The command byte of the ECG FIFO burst read, written as a literal by the driver. */
  const BURST_COMMAND: Byte := 0x43

  const WRITE_OPEN: seq<Event> := [CsHigh, Delay(2), CsLow, Delay(1)]
  const WRITE_CLOSE: seq<Event> := [Delay(1), CsHigh, Delay(10)]
  const READ_OPEN: seq<Event> := [CsHigh, Delay(1), CsLow, Delay(1)]
  const READ_CLOSE: seq<Event> := [Delay(1), CsHigh]
  const BURST_OPEN: seq<Event> := [CsLow, Delay(1)]

  /** The bytes a register write sends: the write command, then the payload MSB first. */
  function WriteBytes(addr: Byte, data: UInt32): seq<Byte>
  {
    [CommandByte(addr, false)] + PayloadBytes(data)
  }

  /** The bytes a register read sends: the read command, then three zero bytes. */
  function ReadBytes(addr: Byte): seq<Byte>
  {
    [CommandByte(addr, true), 0, 0, 0]
  }

  /** The bytes a FIFO burst read sends. */
  const BURST_BYTES: seq<Byte> := [BURST_COMMAND, 0, 0, 0]

  function WriteFrame(device: Device, h: seq<Event>, addr: Byte, data: UInt32): seq<Event>
  {
    WRITE_OPEN + Shift(device, h + WRITE_OPEN, WriteBytes(addr, data)) + WRITE_CLOSE
  }

  function ReadExchanges(device: Device, h: seq<Event>, addr: Byte): seq<Event>
  {
    Shift(device, h + READ_OPEN, ReadBytes(addr))
  }

  function ReadFrame(device: Device, h: seq<Event>, addr: Byte): seq<Event>
  {
    READ_OPEN + ReadExchanges(device, h, addr) + READ_CLOSE
  }

  /** The word a register read returns: the answers to its three zero bytes, MSB first. */
  function ReadWord(device: Device, h: seq<Event>, addr: Byte): UInt24
  {
    var xs := ReadExchanges(device, h, addr);
    Join24(xs[1].miso, xs[2].miso, xs[3].miso)
  }

  function BurstExchanges(device: Device, h: seq<Event>): seq<Event>
  {
    Shift(device, h + BURST_OPEN, BURST_BYTES)
  }

  function BurstFrame(device: Device, h: seq<Event>): seq<Event>
  {
    BURST_OPEN + BurstExchanges(device, h) + READ_CLOSE
  }

  /** The 24-bit FIFO word a burst read receives. */
  function BurstWord(device: Device, h: seq<Event>): UInt24
  {
    var xs := BurstExchanges(device, h);
    Join24(xs[1].miso, xs[2].miso, xs[3].miso)
  }

  /** The sample a burst read returns: its FIFO word, sign-extended. */
  function BurstSample(device: Device, h: seq<Event>): Int32
  {
    SignExtend24(BurstWord(device, h))
  }

  /** 0x43 is the read command of the ECG FIFO burst pseudo-register 0x21. */
  lemma BurstCommandIsFifoRead()
    ensures BURST_COMMAND == CommandByte(ECG_FIFO_BURST, true)
  {
  }

  /**
   * Exchanges between an opening that leaves the chip selected and a closing
   * that deselects it form a transaction that sends exactly those bytes.
   */
  lemma {:induction false} TransactionFramed(device: Device, h: seq<Event>, open: seq<Event>, mosi: seq<Byte>, close: seq<Event>, selected: bool)
    requires forall k :: 0 <= k < |open| ==> !open[k].Exchange?
    requires forall k :: 0 <= k < |close| ==> !close[k].Exchange?
    requires SelectedAfter(open, selected) && !SelectedAfter(close, true)
    ensures var f := open + Shift(device, h + open, mosi) + close;
      Sent(f) == mosi && Clocked(f, selected) == mosi && !SelectedAfter(f, selected)
  {
    var xs := Shift(device, h + open, mosi);
    QuietEvents(open, selected);
    QuietEvents(close, true);
    ShiftSent(device, h + open, mosi, true);
    SentAppend(open + xs, close);
    SentAppend(open, xs);
    ClockedAppend(open + xs, close, selected);
    ClockedAppend(open, xs, selected);
    SelectedAfterAppend(open + xs, close, selected);
    SelectedAfterAppend(open, xs, selected);
  }

  /**
   * A register write is a self-contained transaction that starts by raising
   * chip select and sends the write command and the payload bytes.
   */
  lemma WriteFrameShape(device: Device, h: seq<Event>, addr: Byte, data: UInt32)
    ensures WriteFrame(device, h, addr, data)[0] == CsHigh
    ensures Framed(WriteFrame(device, h, addr, data))
    ensures Sent(WriteFrame(device, h, addr, data)) == WriteBytes(addr, data)
  {
    SelectedAfterLastEdge(WRITE_OPEN, false, 2);
    SelectedAfterLastEdge(WRITE_OPEN, true, 2);
    SelectedAfterLastEdge(WRITE_CLOSE, true, 1);
    TransactionFramed(device, h, WRITE_OPEN, WriteBytes(addr, data), WRITE_CLOSE, false);
    TransactionFramed(device, h, WRITE_OPEN, WriteBytes(addr, data), WRITE_CLOSE, true);
  }

  /**
   * A register read is a self-contained transaction that starts by raising
   * chip select and sends the read command and three zero bytes.
   */
  lemma ReadFrameShape(device: Device, h: seq<Event>, addr: Byte)
    ensures ReadFrame(device, h, addr)[0] == CsHigh
    ensures Framed(ReadFrame(device, h, addr))
    ensures Sent(ReadFrame(device, h, addr)) == ReadBytes(addr)
  {
    SelectedAfterLastEdge(READ_OPEN, false, 2);
    SelectedAfterLastEdge(READ_OPEN, true, 2);
    SelectedAfterLastEdge(READ_CLOSE, true, 1);
    TransactionFramed(device, h, READ_OPEN, ReadBytes(addr), READ_CLOSE, false);
    TransactionFramed(device, h, READ_OPEN, ReadBytes(addr), READ_CLOSE, true);
  }

  /**
   * A burst read starts by lowering chip select, never raising it first, and
   * is still a self-contained transaction sending 0x43 and three zero bytes.
   */
  lemma BurstFrameShape(device: Device, h: seq<Event>)
    ensures BurstFrame(device, h)[0] == CsLow
    ensures Framed(BurstFrame(device, h))
    ensures Sent(BurstFrame(device, h)) == BURST_BYTES
  {
    SelectedAfterLastEdge(BURST_OPEN, false, 0);
    SelectedAfterLastEdge(BURST_OPEN, true, 0);
    SelectedAfterLastEdge(READ_CLOSE, true, 1);
    TransactionFramed(device, h, BURST_OPEN, BURST_BYTES, READ_CLOSE, false);
    TransactionFramed(device, h, BURST_OPEN, BURST_BYTES, READ_CLOSE, true);
  }

  /** What the answers of an opening, exchanges and closing are, with quiet ends. */
  lemma ReceivedOfTransaction(open: seq<Event>, xs: seq<Event>, close: seq<Event>)
    requires forall k :: 0 <= k < |open| ==> !open[k].Exchange?
    requires forall k :: 0 <= k < |close| ==> !close[k].Exchange?
    ensures Received(open + xs + close) == Received(xs)
  {
    QuietEvents(open, false);
    QuietEvents(close, false);
    ReceivedAppend(open + xs, close);
    ReceivedAppend(open, xs);
  }

  /**
   * The word a read returns is the three bytes the chip shifted out after
   * the command byte, MSB first, each its answer to the bus history so far.
   */
  lemma ReadWordReceived(device: Device, h: seq<Event>, addr: Byte)
    ensures var r := Received(ReadFrame(device, h, addr));
      |r| == 4 && ReadWord(device, h, addr) == Join24(r[1], r[2], r[3])
    ensures var xs := ReadExchanges(device, h, addr);
      forall i :: 1 <= i < 4 ==> xs[i].miso == device(h + READ_OPEN + xs[..i])
  {
    var xs := ReadExchanges(device, h, addr);
    ReceivedOfTransaction(READ_OPEN, xs, READ_CLOSE);
    ShiftReceived(device, h + READ_OPEN, ReadBytes(addr));
    forall i | 1 <= i < 4
      ensures xs[i].miso == device(h + READ_OPEN + xs[..i])
    {
      ShiftAt(device, h + READ_OPEN, ReadBytes(addr), i);
    }
  }

  /** The same for the FIFO word of a burst read. */
  lemma BurstWordReceived(device: Device, h: seq<Event>)
    ensures var r := Received(BurstFrame(device, h));
      |r| == 4 && BurstWord(device, h) == Join24(r[1], r[2], r[3])
    ensures var xs := BurstExchanges(device, h);
      forall i :: 1 <= i < 4 ==> xs[i].miso == device(h + BURST_OPEN + xs[..i])
  {
    var xs := BurstExchanges(device, h);
    ReceivedOfTransaction(BURST_OPEN, xs, READ_CLOSE);
    ShiftReceived(device, h + BURST_OPEN, BURST_BYTES);
    forall i | 1 <= i < 4
      ensures xs[i].miso == device(h + BURST_OPEN + xs[..i])
    {
      ShiftAt(device, h + BURST_OPEN, BURST_BYTES, i);
    }
  }

  /** The sample of a burst read is the 24-bit two's-complement value of its FIFO word. */
  lemma BurstSampleValue(device: Device, h: seq<Event>)
    ensures var w := BurstWord(device, h);
      BurstSample(device, h) == (if w < 0x80_0000 then w else w - 0x100_0000)
    ensures -0x80_0000 <= BurstSample(device, h) < 0x80_0000
    ensures BurstSample(device, h) % 0x100_0000 == BurstWord(device, h)
  {
  }

  /** Bits above 23 of the value written change nothing on the bus. */
  lemma WriteIgnoresHighBits(device: Device, h: seq<Event>, addr: Byte, data: UInt32)
    ensures WriteFrame(device, h, addr, data) == WriteFrame(device, h, addr, data % 0x100_0000)
  {
    PayloadIgnoresHighBits(data);
  }

  /**
   * Write and read agree on the byte order: a chip that answers a read's
   * three zero bytes with the three payload bytes a write of `data` sends
   * (`WriteFrameShape`) makes the read return the low 24 bits of `data`.
   */
  lemma WriteThenReadBack(device: Device, h: seq<Event>, h': seq<Event>, addr: Byte, data: UInt32)
    requires forall i :: 1 <= i < 4 ==> ReadExchanges(device, h', addr)[i].miso == WriteBytes(addr, data)[i]
    ensures ReadWord(device, h', addr) == data % 0x100_0000
  {
    var p := PayloadBytes(data);
    assert WriteBytes(addr, data)[1..] == p;
  }

  /** The bus events of one recorded driver action, after history `h`. */
  function OpFrame(device: Device, h: seq<Event>, op: Op): seq<Event>
  {
    match op
    case Release => [CsHigh]
    case Pause(ms) => [Delay(ms)]
    case Write(addr, data) => WriteFrame(device, h, addr, data)
    case Read(addr, _) => ReadFrame(device, h, addr)
    case Burst(_) => BurstFrame(device, h)
  }

  /** A recorded read holds the word the chip actually returned on the bus. */
  predicate Answered(device: Device, h: seq<Event>, op: Op)
  {
    match op
    case Read(addr, value) => value == ReadWord(device, h, addr)
    case Burst(sample) => sample == BurstSample(device, h)
    case _ => true
  }

  /** The bytes one recorded action sends. */
  function OpBytes(op: Op): seq<Byte>
  {
    match op
    case Release => []
    case Pause(_) => []
    case Write(addr, data) => WriteBytes(addr, data)
    case Read(addr, _) => ReadBytes(addr)
    case Burst(_) => BURST_BYTES
  }

  /** The bus events of a whole record, action after action. */
  function Events(device: Device, ops: seq<Op>): seq<Event>
    decreases |ops|
  {
    if ops == [] then []
    else
      var h := Events(device, ops[..|ops| - 1]);
      h + OpFrame(device, h, ops[|ops| - 1])
  }

  /** Every read in the record holds what the chip answered at that point. */
  predicate Faithful(device: Device, ops: seq<Op>)
    decreases |ops|
  {
    ops == [] ||
    (Faithful(device, ops[..|ops| - 1]) && Answered(device, Events(device, ops[..|ops| - 1]), ops[|ops| - 1]))
  }

  /** The bytes a whole record sends, in order. */
  function Wire(ops: seq<Op>): seq<Byte>
    decreases |ops|
  {
    if ops == [] then [] else Wire(ops[..|ops| - 1]) + OpBytes(ops[|ops| - 1])
  }

  /** Recording one more action appends its frame and asks only that it be answered truly. */
  lemma EventsSnoc(device: Device, ops: seq<Op>, op: Op)
    ensures Events(device, ops + [op]) == Events(device, ops) + OpFrame(device, Events(device, ops), op)
    ensures Faithful(device, ops + [op]) <==> Faithful(device, ops) && Answered(device, Events(device, ops), op)
    ensures Wire(ops + [op]) == Wire(ops) + OpBytes(op)
  {
    assert (ops + [op])[..|ops|] == ops;
  }

  /** Each recorded action is a self-contained transaction, or sends nothing. */
  lemma OpFrameShape(device: Device, h: seq<Event>, op: Op)
    ensures Clocked(OpFrame(device, h, op), false) == OpBytes(op)
    ensures Sent(OpFrame(device, h, op)) == OpBytes(op)
    ensures !SelectedAfter(OpFrame(device, h, op), false)
  {
    match op
    case Release =>
    case Pause(_) =>
    case Write(addr, data) => WriteFrameShape(device, h, addr, data);
    case Read(addr, _) => ReadFrameShape(device, h, addr);
    case Burst(_) => BurstFrameShape(device, h);
  }

  /**
   * Between driver calls the chip is deselected, and every byte the driver
   * has sent was clocked in by the chip: the bus carries exactly the command
   * and payload bytes of the recorded actions.
   */
  lemma {:induction false} EventsBetweenCalls(device: Device, ops: seq<Op>)
    ensures !SelectedAfter(Events(device, ops), false)
    ensures Sent(Events(device, ops)) == Wire(ops)
    ensures Clocked(Events(device, ops), false) == Wire(ops)
    decreases |ops|
  {
    if ops != [] {
      var init, op := ops[..|ops| - 1], ops[|ops| - 1];
      var h := Events(device, init);
      var f := OpFrame(device, h, op);
      EventsBetweenCalls(device, init);
      OpFrameShape(device, h, op);
      SentAppend(h, f);
      ClockedAppend(h, f, false);
      SelectedAfterAppend(h, f, false);
    }
  }

  /**
   * Entry `k` of `ops` occupies `trace[marks[k]..marks[k + 1]]`, which is its
   * frame given the bus history before it, and a read entry holds what the
   * chip answered.
   */
  predicate FrameAt(device: Device, ops: seq<Op>, marks: seq<nat>, trace: seq<Event>, k: nat)
    requires k < |ops| && |marks| == |ops| + 1 && marks[k] <= marks[k + 1] <= |trace|
  {
    trace[marks[k]..marks[k + 1]] == OpFrame(device, trace[..marks[k]], ops[k]) &&
    Answered(device, trace[..marks[k]], ops[k])
  }

  /** `trace` cut at the ascending `marks` into one frame per entry of `ops`. */
  predicate Recorded(device: Device, ops: seq<Op>, marks: seq<nat>, trace: seq<Event>)
  {
    |marks| == |ops| + 1 && marks[0] == 0 && marks[|ops|] == |trace| &&
    (forall i, j :: 0 <= i <= j < |marks| ==> marks[i] <= marks[j]) &&
    forall k :: 0 <= k < |ops| ==> FrameAt(device, ops, marks, trace, k)
  }

  /** Nothing recorded, nothing on the bus. */
  lemma RecordedEmpty(device: Device)
    ensures Recorded(device, [], [0], [])
  {
  }

  /** An entry's frame does not change when more is recorded after it. */
  lemma FrameAtSnoc(device: Device, ops: seq<Op>, marks: seq<nat>, trace: seq<Event>, op: Op, f: seq<Event>, k: nat)
    requires k < |ops| && |marks| == |ops| + 1 && marks[k] <= marks[k + 1] <= |trace|
    requires FrameAt(device, ops, marks, trace, k)
    ensures FrameAt(device, ops + [op], marks + [|trace| + |f|], trace + f, k)
  {
    var trace' := trace + f;
    assert trace'[marks[k]..marks[k + 1]] == trace[marks[k]..marks[k + 1]];
    assert trace'[..marks[k]] == trace[..marks[k]];
  }

  /** Recording an answered action together with its frame keeps the record. */
  lemma RecordedSnoc(device: Device, ops: seq<Op>, marks: seq<nat>, trace: seq<Event>, op: Op)
    requires Recorded(device, ops, marks, trace)
    requires Answered(device, trace, op)
    ensures var f := OpFrame(device, trace, op);
      Recorded(device, ops + [op], marks + [|trace| + |f|], trace + f)
  {
    var f := OpFrame(device, trace, op);
    var ops', marks', trace' := ops + [op], marks + [|trace| + |f|], trace + f;
    forall k | 0 <= k < |ops|
      ensures FrameAt(device, ops', marks', trace', k)
    {
      FrameAtSnoc(device, ops, marks, trace, op, f, k);
    }
    assert trace'[..|trace|] == trace && trace'[|trace|..|trace| + |f|] == f;
    assert FrameAt(device, ops', marks', trace', |ops|);
  }

  /** An entry's frame does not change when a later part of the trace is cut off. */
  lemma FrameAtPrefix(device: Device, ops: seq<Op>, marks: seq<nat>, trace: seq<Event>, n: nat, k: nat)
    requires k < n <= |ops| && |marks| == |ops| + 1
    requires marks[k] <= marks[k + 1] <= marks[n] <= |trace|
    requires FrameAt(device, ops, marks, trace, k)
    ensures FrameAt(device, ops[..n], marks[..n + 1], trace[..marks[n]], k)
  {
    var h := trace[..marks[n]];
    assert h[marks[k]..marks[k + 1]] == trace[marks[k]..marks[k + 1]];
    assert h[..marks[k]] == trace[..marks[k]];
  }

  /** Dropping the last action and its frame leaves a record. */
  lemma RecordedPrefix(device: Device, ops: seq<Op>, marks: seq<nat>, trace: seq<Event>)
    requires Recorded(device, ops, marks, trace) && ops != []
    ensures Recorded(device, ops[..|ops| - 1], marks[..|ops|], trace[..marks[|ops| - 1]])
  {
    var n := |ops| - 1;
    var ops', marks', h := ops[..n], marks[..n + 1], trace[..marks[n]];
    forall k | 0 <= k < n
      ensures FrameAt(device, ops', marks', h, k)
    {
      FrameAtPrefix(device, ops, marks, trace, n, k);
    }
  }

  /** A record's bus trace is the frames of its actions, and its reads hold the chip's answers. */
  lemma {:induction false} RecordedEvents(device: Device, ops: seq<Op>, marks: seq<nat>, trace: seq<Event>)
    requires Recorded(device, ops, marks, trace)
    ensures trace == Events(device, ops) && Faithful(device, ops)
    decreases |ops|
  {
    if ops != [] {
      var n := |ops| - 1;
      var h, f := trace[..marks[n]], trace[marks[n]..];
      RecordedPrefix(device, ops, marks, trace);
      RecordedEvents(device, ops[..n], marks[..n + 1], h);
      assert FrameAt(device, ops, marks, trace, n);
      assert f == OpFrame(device, h, ops[n]) && Answered(device, h, ops[n]);
      assert trace == h + f;
    }
  }
}
