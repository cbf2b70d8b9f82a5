/**
 * The driver's register-level record: one entry per register write, register
 * read (with the word it returned), FIFO burst read (with the sample it
 * returned), delay between transactions and stand-alone chip-select release.
 *
 * `InitRun` describes every record `max30003_init` can leave, whatever the
 * chip answers; the lemmas below state what such a record guarantees.
 */
module Transcript {
  import opened Bits
  import opened Registers

  datatype Op =
    | Release                          // chip select raised outside any transaction
    | Pause(ms: nat)                   // a delay between transactions
    | Write(addr: Byte, data: UInt32)  // a register write
    | Read(addr: Byte, value: nat)     // a register read and the word it returned
    | Burst(sample: Int32)             // a FIFO burst read and the sample it returned

  predicate IsRead(op: Op, addr: Byte)
  {
    op.Read? && op.addr == addr
  }

  /** A configuration step: a register write and the settling delay after it. */
  datatype Step = Step(addr: Byte, data: UInt32, settle: nat)

  /** Reset and configuration: the six profile writes in their required order. */
  const PROFILE: seq<Step> := [
    Step(SW_RST, 0, 500),
    Step(CNFG_ECG, CNFG_ECG_PROFILE, 100),
    Step(CNFG_GEN, CNFG_GEN_PROFILE, 200),
    Step(SYNCH, 0, 200),
    Step(CNFG_EMUX, 0, 100),
    Step(SYNCH, 0, 500)
  ]

  /** The record of configuration steps: each write followed by its delay. */
  function StepOps(ps: seq<Step>): (t: seq<Op>)
    ensures |t| == 2 * |ps|
    ensures forall k :: 0 <= k < |t| ==> t[k].Write? || t[k].Pause?
  {
    if ps == [] then []
    else
      var rest := StepOps(ps[1..]);
      var t := [Write(ps[0].addr, ps[0].data), Pause(ps[0].settle)] + rest;
      assert forall k :: 2 <= k < |t| ==> t[k] == rest[k - 2];
      t
  }

  /** The writes of configuration steps, in order. */
  function StepWrites(ps: seq<Step>): seq<Op>
  {
    seq(|ps|, i requires 0 <= i < |ps| => Write(ps[i].addr, ps[i].data))
  }

  /** Reset and configuration as recorded. */
  const CONFIGURE: seq<Op> := StepOps(PROFILE)

  /** Where the status polls start in a record of `max30003_init`. */
  const POLL_START: nat := 3 + 2 * |PROFILE|

  /**
   * `t` is what `max30003_init` records when it returns `ok`: chip select
   * released and a 500 ms power-up wait; the probe read of INFO, after which
   * a stuck bus ends the run with failure; otherwise the configuration
   * writes and the status polls.
   */
  predicate InitRun(t: seq<Op>, ok: bool)
  {
    |t| >= 3 && t[0] == Release && t[1] == Pause(500) && IsRead(t[2], INFO) &&
    if ProbeFails(t[2].value) then |t| == 3 && !ok
    else |t| >= POLL_START && t[3..POLL_START] == CONFIGURE && PollRun(t[POLL_START..], 0, ok)
  }

  /**
   * The status polls from poll number `done` on: a poll that sees bit 23 is
   * followed by the read-back of CNFG_GEN and CNFG_ECG and success, whatever
   * they hold; one that does not is followed by a 10 ms delay and the next
   * poll; after the last poll comes failure.
   */
  predicate PollRun(t: seq<Op>, done: nat, ok: bool)
    decreases READY_POLLS - done
  {
    if done >= READY_POLLS then t == [] && !ok
    else
      |t| >= 1 && IsRead(t[0], STATUS) &&
      if Ready(t[0].value) then |t| == 3 && IsRead(t[1], CNFG_GEN) && IsRead(t[2], CNFG_ECG) && ok
      else |t| >= 2 && t[1] == Pause(10) && PollRun(t[2..], done + 1, ok)
  }

  /** The record of status polls that each read a word in `vs` without bit 23. */
  function PollOps(vs: seq<nat>): (t: seq<Op>)
    ensures |t| == 2 * |vs|
  {
    if vs == [] then [] else [Read(STATUS, vs[0]), Pause(10)] + PollOps(vs[1..])
  }

  /** The words the status polls of `t` returned, in order. */
  function StatusReads(t: seq<Op>): seq<nat>
  {
    if t == [] then []
    else (if IsRead(t[0], STATUS) then [t[0].value] else []) + StatusReads(t[1..])
  }

  /** The register writes of `t`, in order. */
  function Writes(t: seq<Op>): seq<Op>
  {
    if t == [] then [] else (if t[0].Write? then [t[0]] else []) + Writes(t[1..])
  }

  /** How many reads of register `addr` `t` holds. */
  function ReadCount(t: seq<Op>, addr: Byte): nat
  {
    if t == [] then 0 else (if IsRead(t[0], addr) then 1 else 0) + ReadCount(t[1..], addr)
  }

  lemma {:induction false} StatusReadsAppend(a: seq<Op>, b: seq<Op>)
    ensures StatusReads(a + b) == StatusReads(a) + StatusReads(b)
  {
    if a == [] {
      assert a + b == b;
    } else {
      var head := if IsRead(a[0], STATUS) then [a[0].value] else [];
      assert (a + b)[0] == a[0] && (a + b)[1..] == a[1..] + b;
      StatusReadsAppend(a[1..], b);
      calc {
        StatusReads(a + b);
        head + StatusReads(a[1..] + b);
        head + (StatusReads(a[1..]) + StatusReads(b));
        (head + StatusReads(a[1..])) + StatusReads(b);
      }
    }
  }

  lemma {:induction false} WritesAppend(a: seq<Op>, b: seq<Op>)
    ensures Writes(a + b) == Writes(a) + Writes(b)
  {
    if a == [] {
      assert a + b == b;
    } else {
      var head := if a[0].Write? then [a[0]] else [];
      assert (a + b)[0] == a[0] && (a + b)[1..] == a[1..] + b;
      WritesAppend(a[1..], b);
      calc {
        Writes(a + b);
        head + Writes(a[1..] + b);
        head + (Writes(a[1..]) + Writes(b));
        (head + Writes(a[1..])) + Writes(b);
      }
    }
  }

  lemma {:induction false} ReadCountAppend(a: seq<Op>, b: seq<Op>, addr: Byte)
    ensures ReadCount(a + b, addr) == ReadCount(a, addr) + ReadCount(b, addr)
  {
    if a == [] {
      assert a + b == b;
    } else {
      assert (a + b)[0] == a[0] && (a + b)[1..] == a[1..] + b;
      ReadCountAppend(a[1..], b, addr);
    }
  }

  /** One more unanswered poll extends the record by a read and a 10 ms delay. */
  lemma {:induction false} PollOpsSnoc(vs: seq<nat>, v: nat)
    ensures PollOps(vs + [v]) == PollOps(vs) + [Read(STATUS, v), Pause(10)]
  {
    if vs == [] {
      assert [v][1..] == [];
    } else {
      assert (vs + [v])[0] == vs[0] && (vs + [v])[1..] == vs[1..] + [v];
      PollOpsSnoc(vs[1..], v);
    }
  }

  /** The first poll of a non-empty run of unanswered polls, and the rest. */
  lemma PollOpsCons(vs: seq<nat>, tail: seq<Op>)
    requires vs != []
    ensures PollOps(vs) + tail == [Read(STATUS, vs[0]), Pause(10)] + (PollOps(vs[1..]) + tail)
  {
  }

  /** Unanswered polls, followed by a valid continuation, form a valid poll run. */
  lemma {:induction false} PollRunAfter(vs: seq<nat>, done: nat, tail: seq<Op>, ok: bool)
    requires done + |vs| <= READY_POLLS
    requires forall i :: 0 <= i < |vs| ==> !Ready(vs[i])
    requires PollRun(tail, done + |vs|, ok)
    ensures PollRun(PollOps(vs) + tail, done, ok)
    decreases |vs|
  {
    if vs != [] {
      var head, rest := [Read(STATUS, vs[0]), Pause(10)], PollOps(vs[1..]) + tail;
      PollOpsCons(vs, tail);
      assert (head + rest)[2..] == rest;
      assert !Ready(vs[0]);
      assert forall i :: 0 <= i < |vs[1..]| ==> vs[1..][i] == vs[i + 1];
      PollRunAfter(vs[1..], done + 1, tail, ok);
    } else {
      assert PollOps(vs) + tail == tail;
    }
  }

  /** A poll run writes nothing, anywhere. */
  lemma {:induction false} PollRunWritesNothing(t: seq<Op>, done: nat, ok: bool)
    requires PollRun(t, done, ok)
    ensures forall k :: 0 <= k < |t| ==> !t[k].Write?
    decreases READY_POLLS - done
  {
    if done < READY_POLLS && !Ready(t[0].value) {
      PollRunWritesNothing(t[2..], done + 1, ok);
      forall k | 2 <= k < |t|
        ensures !t[k].Write?
      {
        assert t[k] == t[2..][k - 2];
      }
    }
  }

  /**
   * A poll run makes at most the polls left; it succeeds exactly when one of
   * them sees bit 23, which can only be the last; on failure every allowed
   * poll was made.
   */
  lemma {:induction false} PollRunOutcome(t: seq<Op>, done: nat, ok: bool)
    requires done <= READY_POLLS && PollRun(t, done, ok)
    ensures var s := StatusReads(t);
      |s| <= READY_POLLS - done
      && (ok <==> exists i :: 0 <= i < |s| && Ready(s[i]))
      && (forall i :: 0 <= i < |s| - 1 ==> !Ready(s[i]))
      && (!ok ==> |s| == READY_POLLS - done)
    decreases READY_POLLS - done
  {
    if done >= READY_POLLS {
    } else if Ready(t[0].value) {
      assert t == [t[0], t[1], t[2]];
      assert t == [t[0]] + t[1..];
      StatusReadsAppend([t[0]], t[1..]);
      NoStatusReads(t[1..]);
      assert StatusReads([t[0]]) == [t[0].value];
      assert StatusReads(t)[0] == t[0].value;
    } else {
      var rest := t[2..];
      PollRunOutcome(rest, done + 1, ok);
      assert t == [t[0], t[1]] + rest;
      StatusReadsAppend([t[0], t[1]], rest);
      StatusReadsAppend([t[0]], [t[1]]);
      assert [t[0], t[1]] == [t[0]] + [t[1]];
      assert StatusReads([t[0]]) == [t[0].value];
      NoStatusReads([t[1]]);
      var s := StatusReads(t);
      assert s == [t[0].value] + StatusReads(rest);
      if ok {
        var j :| 0 <= j < |StatusReads(rest)| && Ready(StatusReads(rest)[j]);
        assert Ready(s[j + 1]);
      }
      forall i | 0 <= i < |s| && Ready(s[i])
        ensures ok
      {
        assert i > 0 && s[i] == StatusReads(rest)[i - 1];
      }
      forall i | 0 <= i < |s| - 1
        ensures !Ready(s[i])
      {
        if i > 0 {
          assert s[i] == StatusReads(rest)[i - 1];
        }
      }
    }
  }

  /**
   * A poll run reads CNFG_GEN and CNFG_ECG once each, as its last two
   * entries, when it succeeds, and never when it fails.
   */
  lemma {:induction false} PollRunReadback(t: seq<Op>, done: nat, ok: bool)
    requires PollRun(t, done, ok)
    ensures ok ==> |t| >= 3 && IsRead(t[|t| - 2], CNFG_GEN) && IsRead(t[|t| - 1], CNFG_ECG)
    ensures ReadCount(t, CNFG_GEN) == (if ok then 1 else 0)
    ensures ReadCount(t, CNFG_ECG) == (if ok then 1 else 0)
    decreases READY_POLLS - done
  {
    if done >= READY_POLLS {
    } else if Ready(t[0].value) {
      assert t == [t[0]] + [t[1]] + [t[2]];
      ReadCountAppend([t[0]] + [t[1]], [t[2]], CNFG_GEN);
      ReadCountAppend([t[0]], [t[1]], CNFG_GEN);
      ReadCountAppend([t[0]] + [t[1]], [t[2]], CNFG_ECG);
      ReadCountAppend([t[0]], [t[1]], CNFG_ECG);
    } else {
      var rest := t[2..];
      PollRunReadback(rest, done + 1, ok);
      assert t == [t[0]] + [t[1]] + rest;
      ReadCountAppend([t[0]] + [t[1]], rest, CNFG_GEN);
      ReadCountAppend([t[0]], [t[1]], CNFG_GEN);
      ReadCountAppend([t[0]] + [t[1]], rest, CNFG_ECG);
      ReadCountAppend([t[0]], [t[1]], CNFG_ECG);
      if ok {
        assert t[|t| - 2] == rest[|rest| - 2] && t[|t| - 1] == rest[|rest| - 1];
      }
    }
  }

  /** The words read back from CNFG_GEN and CNFG_ECG play no part in a poll run's outcome. */
  lemma {:induction false} PollRunIgnoresReadback(t: seq<Op>, done: nat, gen: nat, ecg: nat)
    requires PollRun(t, done, true)
    ensures |t| >= 2 && PollRun(t[..|t| - 2] + [Read(CNFG_GEN, gen), Read(CNFG_ECG, ecg)], done, true)
    decreases READY_POLLS - done
  {
    var t' := t[..|t| - 2] + [Read(CNFG_GEN, gen), Read(CNFG_ECG, ecg)];
    if Ready(t[0].value) {
      assert t' == [t[0], Read(CNFG_GEN, gen), Read(CNFG_ECG, ecg)];
    } else {
      var rest := t[2..];
      PollRunIgnoresReadback(rest, done + 1, gen, ecg);
      assert t'[0] == t[0] && t'[1] == t[1];
      assert t'[2..] == rest[..|rest| - 2] + [Read(CNFG_GEN, gen), Read(CNFG_ECG, ecg)];
    }
  }

  /** Configuration steps record their writes, and read nothing. */
  lemma {:induction false} StepOpsViews(ps: seq<Step>)
    ensures Writes(StepOps(ps)) == StepWrites(ps)
    ensures forall k :: 0 <= k < |StepOps(ps)| ==> !StepOps(ps)[k].Read?
  {
    if ps != [] {
      var w := Write(ps[0].addr, ps[0].data);
      var rest := StepOps(ps[1..]);
      assert StepOps(ps) == [w] + ([Pause(ps[0].settle)] + rest);
      StepOpsViews(ps[1..]);
      WritesAppend([w], [Pause(ps[0].settle)] + rest);
      WritesAppend([Pause(ps[0].settle)], rest);
      assert Writes([w]) == [w];
      assert Writes([Pause(ps[0].settle)]) == [];
      assert StepWrites(ps) == [w] + StepWrites(ps[1..]);
    }
  }

  /** The record of a run that stops at a failed probe. */
  lemma InitRunProbeFailure(info: nat)
    requires ProbeFails(info)
    ensures InitRun([Release, Pause(500), Read(INFO, info)], false)
  {
  }

  /** The record of a run past the probe: probe, configuration, polls. */
  lemma InitRunIntro(info: nat, polls: seq<Op>, ok: bool)
    requires !ProbeFails(info) && PollRun(polls, 0, ok)
    ensures InitRun([Release, Pause(500), Read(INFO, info)] + CONFIGURE + polls, ok)
  {
    var t := [Release, Pause(500), Read(INFO, info)] + CONFIGURE + polls;
    assert t[3..POLL_START] == CONFIGURE;
    assert t[POLL_START..] == polls;
  }

  /** The configuration record, spelt out entry by entry. */
  lemma ConfigureSpelt()
    ensures CONFIGURE == [
      Write(SW_RST, 0), Pause(500), Write(CNFG_ECG, CNFG_ECG_PROFILE), Pause(100),
      Write(CNFG_GEN, CNFG_GEN_PROFILE), Pause(200), Write(SYNCH, 0), Pause(200),
      Write(CNFG_EMUX, 0), Pause(100), Write(SYNCH, 0), Pause(500)]
  {
    var ps := PROFILE;
    assert StepOps(ps[5..]) == [Write(SYNCH, 0), Pause(500)] by {
      assert ps[5..][1..] == [];
    }
    assert StepOps(ps[4..]) == [Write(CNFG_EMUX, 0), Pause(100)] + StepOps(ps[5..]) by {
      assert ps[4..][1..] == ps[5..];
    }
    assert StepOps(ps[3..]) == [Write(SYNCH, 0), Pause(200)] + StepOps(ps[4..]) by {
      assert ps[3..][1..] == ps[4..];
    }
    assert StepOps(ps[2..]) == [Write(CNFG_GEN, CNFG_GEN_PROFILE), Pause(200)] + StepOps(ps[3..]) by {
      assert ps[2..][1..] == ps[3..];
    }
    assert StepOps(ps[1..]) == [Write(CNFG_ECG, CNFG_ECG_PROFILE), Pause(100)] + StepOps(ps[2..]) by {
      assert ps[1..][1..] == ps[2..];
    }
  }

  /** The six writes of the profile, spelt out. */
  lemma ProfileWrites()
    ensures Writes(CONFIGURE) == [
      Write(SW_RST, 0), Write(CNFG_ECG, CNFG_ECG_PROFILE), Write(CNFG_GEN, CNFG_GEN_PROFILE),
      Write(SYNCH, 0), Write(CNFG_EMUX, 0), Write(SYNCH, 0)]
  {
    StepOpsViews(PROFILE);
  }

  /**
   * A run past the probe is its setup, which writes the profile and polls and
   * reads back nothing, followed by its status polls.
   */
  lemma PastProbe(t: seq<Op>, ok: bool)
    requires InitRun(t, ok) && !ProbeFails(t[2].value)
    ensures t == t[..POLL_START] + t[POLL_START..] && PollRun(t[POLL_START..], 0, ok)
    ensures Writes(t[..POLL_START]) == Writes(CONFIGURE)
    ensures forall k :: 0 <= k < POLL_START ==> !IsRead(t[..POLL_START][k], STATUS)
    ensures StatusReads(t[..POLL_START]) == []
    ensures ReadCount(t[..POLL_START], CNFG_GEN) == 0 && ReadCount(t[..POLL_START], CNFG_ECG) == 0
  {
    var head, setup := t[..3], t[..POLL_START];
    assert setup == head + CONFIGURE;
    StepOpsViews(PROFILE);
    WritesAppend(head, CONFIGURE);
    NoWrites(head);
    forall k | 3 <= k < POLL_START
      ensures !t[k].Read?
    {
      assert t[k] == CONFIGURE[k - 3];
    }
    NoStatusReads(setup);
    NoReadsOf(setup, CNFG_GEN);
    NoReadsOf(setup, CNFG_ECG);
  }

  lemma {:induction false} NoStatusReads(t: seq<Op>)
    requires forall k :: 0 <= k < |t| ==> !IsRead(t[k], STATUS)
    ensures StatusReads(t) == []
  {
    if t != [] {
      assert forall k :: 0 <= k < |t[1..]| ==> t[1..][k] == t[k + 1];
      NoStatusReads(t[1..]);
    }
  }

  lemma {:induction false} NoReadsOf(t: seq<Op>, addr: Byte)
    requires forall k :: 0 <= k < |t| ==> !IsRead(t[k], addr)
    ensures ReadCount(t, addr) == 0
  {
    if t != [] {
      assert forall k :: 0 <= k < |t[1..]| ==> t[1..][k] == t[k + 1];
      NoReadsOf(t[1..], addr);
    }
  }

  /** A stuck-bus probe ends initialisation with failure, before any write or status poll. */
  lemma ProbeFailureStops(t: seq<Op>, ok: bool)
    requires InitRun(t, ok) && ProbeFails(t[2].value)
    ensures !ok && t == [Release, Pause(500), t[2]]
    ensures Writes(t) == []
    ensures StatusReads(t) == []
  {
    NoWrites(t);
    NoStatusReads(t);
  }

  /**
   * Past the probe, initialisation writes exactly the six profile values in
   * their fixed order, and never writes once it has started polling.
   */
  lemma {:induction false} InitWriteOrder(t: seq<Op>, ok: bool)
    requires InitRun(t, ok) && !ProbeFails(t[2].value)
    ensures Writes(t) == [
      Write(SW_RST, 0), Write(CNFG_ECG, CNFG_ECG_PROFILE), Write(CNFG_GEN, CNFG_GEN_PROFILE),
      Write(SYNCH, 0), Write(CNFG_EMUX, 0), Write(SYNCH, 0)]
    ensures forall i, j :: 0 <= i < j < |t| && IsRead(t[i], STATUS) ==> !t[j].Write?
  {
    PastProbe(t, ok);
    ProfileWrites();
    SetupThenWrites(t[..POLL_START], t[POLL_START..], ok);
  }

  /** Writes after a setup that polls nothing are the setup's, all before the first poll. */
  lemma SetupThenWrites(setup: seq<Op>, polls: seq<Op>, ok: bool)
    requires forall k :: 0 <= k < |setup| ==> !IsRead(setup[k], STATUS)
    requires PollRun(polls, 0, ok)
    ensures Writes(setup + polls) == Writes(setup)
    ensures var t := setup + polls;
      forall i, j :: 0 <= i < j < |t| && IsRead(t[i], STATUS) ==> !t[j].Write?
  {
    var t := setup + polls;
    PollRunWritesNothing(polls, 0, ok);
    WritesAppend(setup, polls);
    NoWrites(polls);
    assert Writes(setup) + [] == Writes(setup);
    forall k | 0 <= k < |setup|
      ensures !IsRead(t[k], STATUS)
    {
      assert t[k] == setup[k];
    }
    forall i, j | 0 <= i < j < |t| && IsRead(t[i], STATUS)
      ensures !t[j].Write?
    {
      assert t[j] == polls[j - |setup|];
    }
  }

  lemma {:induction false} NoWrites(t: seq<Op>)
    requires forall k :: 0 <= k < |t| ==> !t[k].Write?
    ensures Writes(t) == []
  {
    if t != [] {
      NoWrites(t[1..]);
    }
  }

  /**
   * Initialisation succeeds exactly when one of its status polls sees bit 23;
   * it makes at most 100 polls, and only the last can see bit 23.
   */
  lemma InitOutcome(t: seq<Op>, ok: bool)
    requires InitRun(t, ok)
    ensures var s := StatusReads(t);
      |s| <= READY_POLLS
      && (ok <==> exists i :: 0 <= i < |s| && Ready(s[i]))
      && (forall i :: 0 <= i < |s| - 1 ==> !Ready(s[i]))
  {
    if ProbeFails(t[2].value) {
      ProbeFailureStops(t, ok);
    } else {
      var polls := t[POLL_START..];
      PastProbe(t, ok);
      StatusReadsAppend(t[..POLL_START], polls);
      assert StatusReads(t) == StatusReads(polls);
      PollRunOutcome(polls, 0, ok);
    }
  }

  /** Failing past the probe means all 100 polls were made, none seeing bit 23. */
  lemma InitTimeout(t: seq<Op>)
    requires InitRun(t, false) && !ProbeFails(t[2].value)
    ensures |StatusReads(t)| == READY_POLLS
    ensures forall i :: 0 <= i < READY_POLLS ==> !Ready(StatusReads(t)[i])
  {
    var polls := t[POLL_START..];
    PastProbe(t, false);
    StatusReadsAppend(t[..POLL_START], polls);
    assert StatusReads(t) == StatusReads(polls);
    PollRunOutcome(polls, 0, false);
  }

  /**
   * Success ends with one read of CNFG_GEN and one of CNFG_ECG, the
   * verification step's read-back; failure reads neither.
   */
  lemma InitReadback(t: seq<Op>, ok: bool)
    requires InitRun(t, ok)
    ensures ok ==> |t| >= 2 && IsRead(t[|t| - 2], CNFG_GEN) && IsRead(t[|t| - 1], CNFG_ECG)
    ensures ReadCount(t, CNFG_GEN) == (if ok then 1 else 0)
    ensures ReadCount(t, CNFG_ECG) == (if ok then 1 else 0)
  {
    if ProbeFails(t[2].value) {
      ProbeFailureReadsNothing(t, ok);
    } else {
      PastProbe(t, ok);
      SetupThenReadback(t[..POLL_START], t[POLL_START..], ok);
    }
  }

  /** A run stopped by the probe reads neither CNFG_GEN nor CNFG_ECG. */
  lemma ProbeFailureReadsNothing(t: seq<Op>, ok: bool)
    requires InitRun(t, ok) && ProbeFails(t[2].value)
    ensures !ok && ReadCount(t, CNFG_GEN) == 0 && ReadCount(t, CNFG_ECG) == 0
  {
    NoReadsOf(t, CNFG_GEN);
    NoReadsOf(t, CNFG_ECG);
  }

  /** Read-backs after a setup that has none are those of the polls. */
  lemma SetupThenReadback(setup: seq<Op>, polls: seq<Op>, ok: bool)
    requires ReadCount(setup, CNFG_GEN) == 0 && ReadCount(setup, CNFG_ECG) == 0
    requires PollRun(polls, 0, ok)
    ensures var t := setup + polls;
      (ok ==> |t| >= 2 && IsRead(t[|t| - 2], CNFG_GEN) && IsRead(t[|t| - 1], CNFG_ECG))
      && ReadCount(t, CNFG_GEN) == (if ok then 1 else 0)
      && ReadCount(t, CNFG_ECG) == (if ok then 1 else 0)
  {
    var t := setup + polls;
    ReadCountAppend(setup, polls, CNFG_GEN);
    ReadCountAppend(setup, polls, CNFG_ECG);
    PollRunReadback(polls, 0, ok);
    if ok {
      assert t[|t| - 2] == polls[|polls| - 2] && t[|t| - 1] == polls[|polls| - 1];
    }
  }

  /**
   * Soft verification: whatever CNFG_GEN and CNFG_ECG read back (and so
   * whatever FMSTR, RATE and GAIN they hold), a successful run stays a
   * successful run.
   */
  lemma InitIgnoresReadback(t: seq<Op>, gen: nat, ecg: nat)
    requires InitRun(t, true)
    ensures |t| >= 2 && InitRun(t[..|t| - 2] + [Read(CNFG_GEN, gen), Read(CNFG_ECG, ecg)], true)
  {
    var polls := t[POLL_START..];
    PollRunIgnoresReadback(polls, 0, gen, ecg);
    var t' := t[..|t| - 2] + [Read(CNFG_GEN, gen), Read(CNFG_ECG, ecg)];
    assert t'[..3] == t[..3];
    assert t'[3..POLL_START] == t[3..POLL_START];
    assert t'[POLL_START..] == polls[..|polls| - 2] + [Read(CNFG_GEN, gen), Read(CNFG_ECG, ecg)];
  }

  /** A record determines the outcome it was recorded with. */
  lemma InitRunDeterministic(t: seq<Op>, ok1: bool, ok2: bool)
    requires InitRun(t, ok1) && InitRun(t, ok2)
    ensures ok1 == ok2
  {
    InitOutcome(t, ok1);
    InitOutcome(t, ok2);
  }
}
