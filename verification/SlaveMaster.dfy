/**
 The master's side of the link: requests with a bounded wait for the acknowledgement, and the relay
 command cache driven by those acknowledgements.
 */
module SlaveMaster {
  import opened Basics
  import opened SlaveFrame
  import opened SlaveDecoder
  import opened SlaveRequests
  import opened RelayCache

  const SERIAL_FEEDBACK_TIME: nat := 10
  const FIRMWARE_FEEDBACK_TIME: nat := 500
  const RELAY_ID: byte := 2

  /** What goes out for a relay command. */
  lemma RelayCommandBytes(relay: byte, state: byte)
    ensures Frame(Setting(RELAY_ID, relay, state))[..10] == [0x55, 0xAA, 8, 0, 2, 1, relay, state, 0, 0]
    ensures |Frame(Setting(RELAY_ID, relay, state))| == 12
  {
    FrameLayout(Setting(RELAY_ID, relay, state));
  }

  /** The ids for which SlaveSendID lowers and polls a flag; for any other it reports failure. */
  predicate HasFeedback(id: byte) {
    id in {8, 9, 11, 12, 13, 14, 15, 16}
  }

  lemma {:induction false} SafeSoFar(n: Node, windows: seq<seq<Act>>, k: nat)
    requires k <= |windows| && Safe(n, Flatten(windows))
    ensures Safe(n, Flatten(windows[..k]))
  {
    if k == |windows| {
      assert windows[..k] == windows;
    } else {
      var init := windows[..|windows| - 1];
      PerformConcat(n, Flatten(init), windows[|windows| - 1]);
      SafeSoFar(n, init, k);
      assert init[..k] == windows[..k];
    }
  }

  /** What the receiver and other senders do while a request is written, in the pause after its flag is
      lowered, and in each of the polling delays. */
  datatype Traffic = Traffic(writing: seq<Act>, pause: seq<Act>, windows: seq<seq<Act>>)

  /** The link when the request's flag has just been lowered. */
  ghost function Lowered(n: Node, t: Traffic, id: byte): Node
    requires Safe(n, t.writing)
  {
    var written := PerformAll(n, t.writing);
    written.(flags := written.flags - {id})
  }

  ghost predicate SafeTraffic(n: Node, t: Traffic, id: byte) {
    Safe(n, t.writing) && Safe(Lowered(n, t, id), t.pause + Flatten(t.windows))
  }

  /** The request has been acknowledged by the end of its k-th polling delay. */
  ghost predicate AcknowledgedBy(n: Node, t: Traffic, id: byte, k: nat)
    requires SafeTraffic(n, t, id) && k <= |t.windows|
  {
    Acknowledged(Lowered(n, t, id), t.pause + Flatten(t.windows[..k]), id)
  }

  /** The flag is up at one of the moments it is looked at. */
  ghost predicate Seen(n: Node, t: Traffic, id: byte)
    requires SafeTraffic(n, t, id)
  {
    exists k: nat :: k <= |t.windows| && AcknowledgedBy(n, t, id, k)
  }

  ghost predicate Down(n: Node, acts: seq<Act>, id: byte) {
    Safe(n, acts) && id !in PerformAll(n, acts).flags
  }

  /** Looking at the flag after k delays tells whether the request has been acknowledged by then. */
  lemma LookDecides(n: Node, pause: seq<Act>, windows: seq<seq<Act>>, k: nat, id: byte)
    requires Safe(n, pause + Flatten(windows)) && id !in n.flags && 1 <= id <= LAST_ID && k <= |windows|
    ensures Safe(n, pause) && Safe(PerformAll(n, pause), Flatten(windows[..k]))
    ensures Acknowledged(n, pause + Flatten(windows[..k]), id) <==>
            id in PerformAll(PerformAll(n, pause), Flatten(windows[..k])).flags
  {
    PerformConcat(n, pause, Flatten(windows));
    SafeSoFar(PerformAll(n, pause), windows, k);
    PerformConcat(n, pause, Flatten(windows[..k]));
    FlagIffFrame(n, pause + Flatten(windows[..k]), id);
  }

  /** Any intact frame with the relay id, whatever relay it is about, counts as the acknowledgement of the
      relay command that is waiting. */
  lemma AnyRelayReplyIsSeen(n: Node, reply: Message, windows: seq<seq<Act>>)
    requires n.rx.Idle? && WellFormed(reply) && WireId(reply) % 256 == RELAY_ID
    requires SafeTraffic(n, Traffic([], Arrivals(Frame(reply)), windows), RELAY_ID)
    ensures Seen(n, Traffic([], Arrivals(Frame(reply)), windows), RELAY_ID)
  {
    var t := Traffic([], Arrivals(Frame(reply)), windows);
    IntactReplyAcknowledges(Lowered(n, t, RELAY_ID), reply, RELAY_ID);
    assert t.pause + Flatten(t.windows[..0]) == t.pause;
    assert AcknowledgedBy(n, t, RELAY_ID, 0);
  }

  class Master {
    const decoder: Decoder
    /** config.vcharge_lite_1_4: the board has a slave. */
    const fitted: bool
    const relayState: array<bool>
    /** Everything written to the line. */
    var wire: seq<byte>

    ghost predicate Valid()
      reads this, decoder, decoder.slaveData
    {
      decoder.Valid() && relayState.Length == NUM_OF_CONNECTORS
    }

    ghost function Link(): Node
      reads this, decoder, decoder.slaveData
      requires Valid()
    {
      Node(decoder.State(), decoder.received)
    }

    constructor (fitted: bool)
      ensures Valid() && fresh(decoder) && fresh(decoder.slaveData) && fresh(relayState)
      ensures this.fitted == fitted && wire == []
      ensures forall i :: 0 <= i < NUM_OF_CONNECTORS ==> !relayState[i]
    {
      decoder := new Decoder();
      this.fitted := fitted;
      relayState := new bool[NUM_OF_CONNECTORS](_ => false);
      wire := [];
    }

    method Delay(acts: seq<Act>)
      requires Valid() && Safe(Link(), acts)
      modifies decoder, decoder.slaveData
      ensures Valid() && Link() == PerformAll(old(Link()), acts)
    {
      ghost var start := Link();
      for i := 0 to |acts|
        invariant Valid() && Safe(start, acts[..i]) && Link() == PerformAll(start, acts[..i])
        modifies decoder, decoder.slaveData
      {
        PerformNext(start, acts, i);
        match acts[i]
        case Arrive(b) => var _ := decoder.Receive(b);
        case Clear(id) => decoder.received := decoder.received - {id};
      }
      assert acts[..|acts|] == acts;
    }

    /** The polling loop: one delay per turn, at most |windows| of them, then a last look. */
    method AwaitAck(id: byte, windows: seq<seq<Act>>) returns (sent: bool, polls: nat)
      requires Valid() && Safe(Link(), Flatten(windows))
      modifies decoder, decoder.slaveData
      ensures Valid() && polls <= |windows|
      ensures Safe(old(Link()), Flatten(windows[..polls]))
      ensures Link() == PerformAll(old(Link()), Flatten(windows[..polls]))
      ensures sent <==> id in Link().flags
      ensures !sent ==> polls == |windows|
      ensures forall k: nat :: k < polls ==> Down(old(Link()), Flatten(windows[..k]), id)
    {
      ghost var start := Link();
      polls := 0;
      assert Flatten(windows[..0]) == [];
      while id !in decoder.received && polls < |windows|
        invariant Valid() && polls <= |windows|
        invariant Safe(start, Flatten(windows[..polls])) && Link() == PerformAll(start, Flatten(windows[..polls]))
        invariant forall k: nat :: k < polls ==> Down(start, Flatten(windows[..k]), id)
      {
        SafeSoFar(start, windows, polls + 1);
        assert windows[..polls + 1][..polls] == windows[..polls];
        PerformConcat(start, Flatten(windows[..polls]), windows[polls]);
        Delay(windows[polls]);
        polls := polls + 1;
      }
      sent := id in decoder.received;
    }

    method Write(m: Message)
      requires WellFormed(m)
      modifies this`wire
      ensures wire == old(wire) + Frame(m)
    {
      var data := Encode(m);
      wire := wire + data[..];
    }

    method WriteAndLower(m: Message, id: byte, t: Traffic)
      requires Valid() && WellFormed(m) && Safe(Link(), t.writing)
      modifies this`wire, decoder, decoder.slaveData
      ensures Valid() && wire == old(wire) + Frame(m)
      ensures Link() == Lowered(old(Link()), t, id)
    {
      Write(m);
      Delay(t.writing);
      decoder.received := decoder.received - {id};
    }

    /** Write a request, lower its flag, and wait for the slave to raise it: success means exactly that a
        valid frame with the awaited id was decoded after the flag was lowered, in time for one of the
        looks, and not lowered again by another sender. */
    method Request(m: Message, id: byte, t: Traffic) returns (sent: bool, polls: nat)
      requires Valid() && WellFormed(m) && 1 <= id <= LAST_ID && SafeTraffic(Link(), t, id)
      modifies this`wire, decoder, decoder.slaveData
      ensures Valid() && wire == old(wire) + Frame(m) && polls <= |t.windows|
      ensures sent <==> AcknowledgedBy(old(Link()), t, id, polls)
      ensures sent <==> Seen(old(Link()), t, id)
    {
      WriteAndLower(m, id, t);
      ghost var lowered := Link();
      PerformConcat(lowered, t.pause, Flatten(t.windows));
      Delay(t.pause);
      ghost var waiting := Link();
      sent, polls := AwaitAck(id, t.windows);
      forall k: nat | k <= polls
        ensures AcknowledgedBy(old(Link()), t, id, k) <==> sent && k == polls
      {
        LookDecides(lowered, t.pause, t.windows, k, id);
        assert k < polls ==> Down(waiting, Flatten(t.windows[..k]), id);
      }
    }

    /** SlaveSendID. */
    method SendID(id: byte, t: Traffic) returns (sent: bool, polls: nat)
      requires Valid() && |t.windows| == SERIAL_FEEDBACK_TIME
      requires Safe(Link(), t.writing + t.pause) && SafeTraffic(Link(), t, id)
      modifies this`wire, decoder, decoder.slaveData
      ensures Valid() && polls <= SERIAL_FEEDBACK_TIME
      ensures wire == if fitted then old(wire) + Frame(Command(id)) else old(wire)
      ensures sent <==> fitted && id in {8, 9, 11, 12, 13, 14, 15, 16} && Seen(old(Link()), t, id)
    {
      sent, polls := false, 0;
      if fitted {
        if HasFeedback(id) {
          sent, polls := Request(Command(id), id, t);
        } else {
          Write(Command(id));
          Delay(t.writing + t.pause);
        }
      }
    }

    /** SlaveSendControlPilotConfig. */
    method SendControlPilotConfig(pilotConfig: seq<byte>, t: Traffic) returns (sent: bool, polls: nat)
      requires Valid() && |t.windows| == SERIAL_FEEDBACK_TIME && |pilotConfig| == CP_CONFIG_SIZE
      requires SafeTraffic(Link(), t, CP_CONFIG_ID)
      modifies this`wire, decoder, decoder.slaveData
      ensures Valid() && polls <= SERIAL_FEEDBACK_TIME
      ensures wire == if fitted then old(wire) + Frame(CpConfig(pilotConfig)) else old(wire)
      ensures sent <==> fitted && Seen(old(Link()), t, CP_CONFIG_ID)
    {
      sent, polls := false, 0;
      if fitted {
        sent, polls := Request(CpConfig(pilotConfig), CP_CONFIG_ID, t);
      }
    }

    /** sendFirmwareData: no pause, and fifty times as many polls. */
    method SendFirmwareData(data: seq<byte>, packetNo: u32, t: Traffic) returns (sent: bool, polls: nat)
      requires Valid() && |t.windows| == FIRMWARE_FEEDBACK_TIME && t.pause == [] && |data| + 8 <= MAX_LENGTH
      requires SafeTraffic(Link(), t, FIRMWARE_DATA_ID)
      modifies this`wire, decoder, decoder.slaveData
      ensures Valid() && polls <= FIRMWARE_FEEDBACK_TIME
      ensures wire == if fitted then old(wire) + Frame(FirmwareData(packetNo, data)) else old(wire)
      ensures sent <==> fitted && Seen(old(Link()), t, FIRMWARE_DATA_ID)
    {
      sent, polls := false, 0;
      if fitted {
        sent, polls := Request(FirmwareData(packetNo, data), FIRMWARE_DATA_ID, t);
      }
    }

    /** SlaveUpdateRelay: only a state that differs from the cached one is sent, and the cache changes
        only when the slave acknowledges. */
    method UpdateRelay(relay: byte, state: byte, t: Traffic) returns (sent: bool, polls: nat)
      requires Valid() && |t.windows| == SERIAL_FEEDBACK_TIME && relay < NUM_OF_CONNECTORS
      requires SafeTraffic(Link(), t, RELAY_ID)
      modifies this`wire, relayState, decoder, decoder.slaveData
      ensures Valid() && polls <= SERIAL_FEEDBACK_TIME
      ensures var acked := Seen(old(Link()), t, RELAY_ID);
              var r := RelayStep(old(relayState[..]), RelayCall(relay, state, acked));
              if fitted then
                relayState[..] == r.cache && sent == r.sent &&
                wire == old(wire) + if r.transmitted then Frame(Setting(RELAY_ID, relay, state)) else []
              else
                relayState[..] == old(relayState[..]) && !sent && wire == old(wire)
    {
      sent, polls := false, 0;
      if fitted {
        if CBool(relayState[relay]) != state {
          sent, polls := Request(Setting(RELAY_ID, relay, state), RELAY_ID, t);
          if sent {
            relayState[relay] := state != 0;
          }
        } else {
          sent := true;
          assert wire + [] == wire;
        }
      }
    }
  }
}
