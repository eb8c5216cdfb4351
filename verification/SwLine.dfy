/**
 The software UART's line between transmitter and receiver: the interrupt that starts the receiver
 fires on an edge, which edge depends on the port's polarity.
 */
module SwLine {
  import opened SwSerial

  /** One bit time. sw_write raises the line for a moment before the start bit. */
  datatype Slot = Slot(raised: bool, level: bool)

  /** One call of sw_write, and how long the line then rests high. */
  datatype Sending = Sending(line: Levels, pause: nat)

  function Frame(line: Levels): seq<Slot> {
    seq(10, i requires 0 <= i < 10 => Slot(i == 0, line[i]))
  }

  function Rest(n: nat): seq<Slot> {
    seq(n, _ => Slot(false, true))
  }

  function OnLine(sendings: seq<Sending>): seq<Slot> {
    if sendings == [] then []
    else Frame(sendings[0].line) + (Rest(sendings[0].pause) + OnLine(sendings[1..]))
  }

  /** The edge that sw_enableRx arms comes at the start of the slot: rising for an inverted port, falling
      for the other. */
  predicate Triggered(invert: bool, before: bool, slot: Slot) {
    if invert then !before && (slot.raised || slot.level) else (before || slot.raised) && !slot.level
  }

  function LineOf(slots: seq<Slot>): Levels
    requires |slots| >= 10
  {
    seq(10, i requires 0 <= i < 10 => slots[i].level)
  }

  /** The bytes a receiver makes of the line: an edge starts it, it gives up when the start sample is
      high, and otherwise it is busy for ten slots. */
  function Heard(invert: bool, before: bool, slots: seq<Slot>): seq<bv8>
    decreases |slots|
  {
    if slots == [] then []
    else if Triggered(invert, before, slots[0]) && !slots[0].level && |slots| >= 10 then
      var line := LineOf(slots);
      (if Framed(line) then [ByteOf(line, invert)] else []) + Heard(invert, line[9], slots[10..])
    else Heard(invert, slots[0].level, slots[1..])
  }

  /** A receiver that is started by the start bit takes the byte. */
  lemma HeardFrame(invert: bool, before: bool, line: Levels, b: bv8, rest: seq<Slot>)
    requires Carries(line, b, invert) && (invert ==> !before)
    ensures Heard(invert, before, Frame(line) + rest) == [b] + Heard(invert, true, rest)
  {
    var slots := Frame(line) + rest;
    assert LineOf(slots) == line && slots[10..] == rest;
    RoundTrip(line, b, invert);
  }

  /** A resting line is not heard. */
  lemma {:induction false} HeardRest(invert: bool, n: nat, rest: seq<Slot>)
    ensures Heard(invert, true, Rest(n) + rest) == Heard(invert, true, rest)
  {
    if n == 0 {
      assert Rest(0) + rest == rest;
    } else {
      assert (Rest(n) + rest)[1..] == Rest(n - 1) + rest;
      HeardRest(invert, n - 1, rest);
    }
  }

  /** Nor does an inverted receiver take anything from slots that do not begin with a raised line: every
      rising edge leaves its start sample high. */
  lemma {:induction false} InvertedSkips(before: bool, slots: seq<Slot>, rest: seq<Slot>)
    requires forall i :: 0 <= i < |slots| ==> !slots[i].raised
    ensures Heard(true, before, slots + rest) ==
            Heard(true, if slots == [] then before else slots[|slots| - 1].level, rest)
    decreases |slots|
  {
    if slots == [] {
      assert slots + rest == rest;
    } else {
      assert (slots + rest)[1..] == slots[1..] + rest;
      InvertedSkips(slots[0].level, slots[1..], rest);
    }
  }

  /** On a line that rests high, an inverted receiver misses the whole frame. */
  lemma InvertedMissesFrame(line: Levels, rest: seq<Slot>)
    requires !line[0] && line[9]
    ensures Heard(true, true, Frame(line) + rest) == Heard(true, true, rest)
  {
    var slots := Frame(line) + rest;
    var data := Frame(line)[1..];
    assert slots[1..] == data + rest;
    InvertedSkips(false, data, rest);
  }

  ghost predicate AllCarry(sendings: seq<Sending>, bytes: seq<bv8>, invert: bool) {
    |sendings| == |bytes| && forall i :: 0 <= i < |bytes| ==> Carries(sendings[i].line, bytes[i], invert)
  }

  lemma {:induction false} NormalHearsAll(before: bool, sendings: seq<Sending>, bytes: seq<bv8>)
    requires AllCarry(sendings, bytes, false)
    ensures Heard(false, before, OnLine(sendings)) == bytes
    decreases |bytes|
  {
    if bytes != [] {
      var later := OnLine(sendings[1..]);
      HeardFrame(false, before, sendings[0].line, bytes[0], Rest(sendings[0].pause) + later);
      HeardRest(false, sendings[0].pause, later);
      NormalHearsAll(true, sendings[1..], bytes[1..]);
      assert bytes == [bytes[0]] + bytes[1..];
    }
  }

  lemma {:induction false} InvertedHearsNothing(sendings: seq<Sending>, bytes: seq<bv8>)
    requires AllCarry(sendings, bytes, true)
    ensures Heard(true, true, OnLine(sendings)) == []
    decreases |bytes|
  {
    if bytes != [] {
      var later := OnLine(sendings[1..]);
      InvertedMissesFrame(sendings[0].line, Rest(sendings[0].pause) + later);
      HeardRest(true, sendings[0].pause, later);
      InvertedHearsNothing(sendings[1..], bytes[1..]);
    }
  }

  /** Whatever bytes are sent and however long the pauses, a normal receiver gets all of them, and an
      inverted one nothing but the first byte on a line that has never been high. */
  lemma BytesHeard(invert: bool, before: bool, sendings: seq<Sending>, bytes: seq<bv8>)
    requires AllCarry(sendings, bytes, invert)
    ensures Heard(invert, before, OnLine(sendings)) ==
            if !invert then bytes else if before || bytes == [] then [] else [bytes[0]]
  {
    if !invert {
      NormalHearsAll(before, sendings, bytes);
    } else if before {
      InvertedHearsNothing(sendings, bytes);
    } else if bytes != [] {
      var later := OnLine(sendings[1..]);
      HeardFrame(true, before, sendings[0].line, bytes[0], Rest(sendings[0].pause) + later);
      HeardRest(true, sendings[0].pause, later);
      InvertedHearsNothing(sendings[1..], bytes[1..]);
    }
  }

  /** So everything sent is received exactly on a port that is not inverted, or when there is no more
      than that first byte. */
  lemma AllHeardIff(invert: bool, before: bool, sendings: seq<Sending>, bytes: seq<bv8>)
    requires AllCarry(sendings, bytes, invert)
    ensures Heard(invert, before, OnLine(sendings)) == bytes <==>
            !invert || bytes == [] || (!before && |bytes| == 1)
  {
    BytesHeard(invert, before, sendings, bytes);
  }
}
