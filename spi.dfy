/**
 * The serial bus as the driver sees it: chip-select edges, delays and
 * full-duplex byte exchanges, recorded in order.  The inside of the byte
 * exchange (draining the receive buffer, waiting for the transmit and
 * receive flags) is abstracted to one event whose answer comes from the
 * chip, modelled as a function of everything that happened on the bus
 * before.
 */
module Spi {
  import opened Bits

  /** One thing visible on the bus. */
  datatype Event =
    | CsHigh                             // chip select released: chip deselected
    | CsLow                              // chip select asserted: chip selected
    | Delay(ms: nat)                     // a millisecond delay, without timing semantics
    | Exchange(mosi: Byte, miso: Byte)   // one byte out, one byte back

  /** The byte the chip shifts out during the next exchange, given the bus history. */
  type Device = seq<Event> -> Byte

  /**
   * The exchanges of `mosi`, byte by byte, after history `h`: one exchange
   * per byte, in order, each answered by the device from the history before
   * it (`ShiftAt`).
   */
  function Shift(device: Device, h: seq<Event>, mosi: seq<Byte>): (xs: seq<Event>)
    ensures |xs| == |mosi|
    ensures forall i :: 0 <= i < |xs| ==> xs[i].Exchange? && xs[i].mosi == mosi[i]
    decreases |mosi|
  {
    if mosi == [] then []
    else
      var n := |mosi| - 1;
      var done := Shift(device, h, mosi[..n]);
      done + [Exchange(mosi[n], device(h + done))]
  }

  /** Exchanging one more byte extends the exchanges so far by one. */
  lemma ShiftSnoc(device: Device, h: seq<Event>, mosi: seq<Byte>, b: Byte)
    ensures Shift(device, h, mosi + [b])
         == Shift(device, h, mosi) + [Exchange(b, device(h + Shift(device, h, mosi)))]
  {
    assert (mosi + [b])[..|mosi|] == mosi;
  }

  /** The `i`th exchange sends `mosi[i]` and carries the device's reply to the history before it. */
  lemma {:induction false} ShiftAt(device: Device, h: seq<Event>, mosi: seq<Byte>, i: nat)
    requires i < |mosi|
    ensures Shift(device, h, mosi)[i] == Exchange(mosi[i], device(h + Shift(device, h, mosi)[..i]))
    decreases |mosi|
  {
    var n := |mosi| - 1;
    var done := Shift(device, h, mosi[..n]);
    var xs := Shift(device, h, mosi);
    assert xs == done + [Exchange(mosi[n], device(h + done))];
    if i == n {
      assert xs[..i] == done;
    } else {
      ShiftAt(device, h, mosi[..n], i);
      assert xs[i] == done[i] && xs[..i] == done[..i];
    }
  }

  /** The exchanges of a prefix of the bytes are a prefix of the exchanges. */
  lemma {:induction false} ShiftPrefix(device: Device, h: seq<Event>, mosi: seq<Byte>, k: nat)
    requires k <= |mosi|
    ensures Shift(device, h, mosi[..k]) == Shift(device, h, mosi)[..k]
    decreases |mosi|
  {
    if k == |mosi| {
      assert mosi[..k] == mosi;
    } else {
      var n := |mosi| - 1;
      var done := Shift(device, h, mosi[..n]);
      assert Shift(device, h, mosi) == done + [Exchange(mosi[n], device(h + done))];
      ShiftPrefix(device, h, mosi[..n], k);
      assert mosi[..n][..k] == mosi[..k];
    }
  }

  /** The reply in exchange `k` is the device's answer to the history plus the first `k` exchanges. */
  lemma ShiftReply(device: Device, h: seq<Event>, mosi: seq<Byte>, k: nat)
    requires k < |mosi|
    ensures Shift(device, h, mosi)[k].miso == device(h + Shift(device, h, mosi[..k]))
  {
    ShiftAt(device, h, mosi, k);
    ShiftPrefix(device, h, mosi, k);
  }

  /** The bytes sent, in order. */
  function Sent(evs: seq<Event>): seq<Byte>
  {
    if evs == [] then []
    else (if evs[0].Exchange? then [evs[0].mosi] else []) + Sent(evs[1..])
  }

  /** The bytes received, in order. */
  function Received(evs: seq<Event>): seq<Byte>
  {
    if evs == [] then []
    else (if evs[0].Exchange? then [evs[0].miso] else []) + Received(evs[1..])
  }

  /** The chip-select level after `evs`, starting at `selected`. */
  function SelectedAfter(evs: seq<Event>, selected: bool): bool
  {
    if evs == [] then selected
    else SelectedAfter(evs[1..], if evs[0] == CsLow then true else if evs[0] == CsHigh then false else selected)
  }

  /** The bytes the chip clocks in: those sent while it is selected. */
  function Clocked(evs: seq<Event>, selected: bool): seq<Byte>
  {
    if evs == [] then []
    else
      var now := if evs[0] == CsLow then true else if evs[0] == CsHigh then false else selected;
      (if evs[0].Exchange? && selected then [evs[0].mosi] else []) + Clocked(evs[1..], now)
  }

  /**
   * A self-contained transaction: whatever the chip-select level before it,
   * every byte it sends is clocked in by the chip, and the chip is
   * deselected at its end.
   */
  predicate Framed(evs: seq<Event>)
  {
    Clocked(evs, false) == Sent(evs) && Clocked(evs, true) == Sent(evs)
    && !SelectedAfter(evs, false) && !SelectedAfter(evs, true)
  }

  lemma {:induction false} SentAppend(a: seq<Event>, b: seq<Event>)
    ensures Sent(a + b) == Sent(a) + Sent(b)
  {
    if a == [] {
      assert a + b == b;
    } else {
      var head := if a[0].Exchange? then [a[0].mosi] else [];
      assert (a + b)[0] == a[0];
      assert (a + b)[1..] == a[1..] + b;
      SentAppend(a[1..], b);
      calc {
        Sent(a + b);
        head + Sent(a[1..] + b);
        head + (Sent(a[1..]) + Sent(b));
        (head + Sent(a[1..])) + Sent(b);
      }
    }
  }

  lemma {:induction false} ReceivedAppend(a: seq<Event>, b: seq<Event>)
    ensures Received(a + b) == Received(a) + Received(b)
  {
    if a == [] {
      assert a + b == b;
    } else {
      var head := if a[0].Exchange? then [a[0].miso] else [];
      assert (a + b)[0] == a[0];
      assert (a + b)[1..] == a[1..] + b;
      ReceivedAppend(a[1..], b);
      calc {
        Received(a + b);
        head + Received(a[1..] + b);
        head + (Received(a[1..]) + Received(b));
        (head + Received(a[1..])) + Received(b);
      }
    }
  }

  lemma {:induction false} SelectedAfterAppend(a: seq<Event>, b: seq<Event>, selected: bool)
    ensures SelectedAfter(a + b, selected) == SelectedAfter(b, SelectedAfter(a, selected))
  {
    if a == [] {
      assert a + b == b;
    } else {
      assert (a + b)[0] == a[0];
      assert (a + b)[1..] == a[1..] + b;
      var now := if a[0] == CsLow then true else if a[0] == CsHigh then false else selected;
      SelectedAfterAppend(a[1..], b, now);
    }
  }

  lemma {:induction false} ClockedAppend(a: seq<Event>, b: seq<Event>, selected: bool)
    ensures Clocked(a + b, selected) == Clocked(a, selected) + Clocked(b, SelectedAfter(a, selected))
  {
    if a == [] {
      assert a + b == b;
    } else {
      assert (a + b)[0] == a[0];
      assert (a + b)[1..] == a[1..] + b;
      var now := if a[0] == CsLow then true else if a[0] == CsHigh then false else selected;
      var head := if a[0].Exchange? && selected then [a[0].mosi] else [];
      ClockedAppend(a[1..], b, now);
      calc {
        Clocked(a + b, selected);
        head + Clocked(a[1..] + b, now);
        head + (Clocked(a[1..], now) + Clocked(b, SelectedAfter(a[1..], now)));
        (head + Clocked(a[1..], now)) + Clocked(b, SelectedAfter(a[1..], now));
      }
    }
  }

  /**
   * A run of exchanges sends exactly its bytes, all clocked in when the chip
   * is selected, and leaves chip select alone.
   */
  lemma {:induction false} ShiftSent(device: Device, h: seq<Event>, mosi: seq<Byte>, selected: bool)
    ensures Sent(Shift(device, h, mosi)) == mosi
    ensures Clocked(Shift(device, h, mosi), true) == mosi
    ensures SelectedAfter(Shift(device, h, mosi), selected) == selected
    decreases |mosi|
  {
    if mosi != [] {
      var n := |mosi| - 1;
      var done := Shift(device, h, mosi[..n]);
      var x := Exchange(mosi[n], device(h + done));
      assert Shift(device, h, mosi) == done + [x];
      ShiftSent(device, h, mosi[..n], selected);
      ShiftSent(device, h, mosi[..n], true);
      SentAppend(done, [x]);
      ClockedAppend(done, [x], true);
      SelectedAfterAppend(done, [x], selected);
      assert mosi == mosi[..n] + [x.mosi];
    }
  }

  /** A run of exchanges receives one byte per byte sent, in order. */
  lemma {:induction false} ShiftReceived(device: Device, h: seq<Event>, mosi: seq<Byte>)
    ensures |Received(Shift(device, h, mosi))| == |mosi|
    ensures forall i :: 0 <= i < |mosi| ==> Received(Shift(device, h, mosi))[i] == Shift(device, h, mosi)[i].miso
    decreases |mosi|
  {
    if mosi != [] {
      var n := |mosi| - 1;
      var done := Shift(device, h, mosi[..n]);
      var x := Exchange(mosi[n], device(h + done));
      var xs := Shift(device, h, mosi);
      assert xs == done + [x];
      ShiftReceived(device, h, mosi[..n]);
      ReceivedAppend(done, [x]);
      assert Received(xs) == Received(done) + [x.miso];
      forall i | 0 <= i < n
        ensures Received(xs)[i] == xs[i].miso
      {
        assert xs[i] == done[i];
      }
    }
  }

  /** Chip-select edges and delays alone send nothing and clock nothing in. */
  lemma {:induction false} QuietEvents(evs: seq<Event>, selected: bool)
    requires forall k :: 0 <= k < |evs| ==> !evs[k].Exchange?
    ensures Sent(evs) == [] && Clocked(evs, selected) == [] && Received(evs) == []
  {
    if evs != [] {
      var now := if evs[0] == CsLow then true else if evs[0] == CsHigh then false else selected;
      assert forall k :: 0 <= k < |evs[1..]| ==> evs[1..][k] == evs[k + 1];
      QuietEvents(evs[1..], now);
    }
  }

  /** Without chip-select edges the level stays where it was. */
  lemma {:induction false} SelectedAfterNoEdge(evs: seq<Event>, selected: bool)
    requires forall j :: 0 <= j < |evs| ==> evs[j] != CsLow && evs[j] != CsHigh
    ensures SelectedAfter(evs, selected) == selected
  {
    if evs != [] {
      assert forall j :: 0 <= j < |evs[1..]| ==> evs[1..][j] == evs[j + 1];
      SelectedAfterNoEdge(evs[1..], selected);
    }
  }

  /** The chip-select level after `evs` is the one its last edge set. */
  lemma {:induction false} SelectedAfterLastEdge(evs: seq<Event>, selected: bool, k: nat)
    requires k < |evs| && (evs[k] == CsLow || evs[k] == CsHigh)
    requires forall j :: k < j < |evs| ==> evs[j] != CsLow && evs[j] != CsHigh
    ensures SelectedAfter(evs, selected) == (evs[k] == CsLow)
  {
    var now := if evs[0] == CsLow then true else if evs[0] == CsHigh then false else selected;
    assert forall j :: 0 <= j < |evs[1..]| ==> evs[1..][j] == evs[j + 1];
    if k == 0 {
      SelectedAfterNoEdge(evs[1..], now);
    } else {
      SelectedAfterLastEdge(evs[1..], now, k - 1);
    }
  }
}
