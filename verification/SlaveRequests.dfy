/**
 Requests to the slave: write a frame, lower the awaited flag, then poll it between delays while the
 receiving task and other senders run. Everything that happens in a delay is a list of acts.
 */
module SlaveRequests {
  import opened Basics
  import opened SlaveFrame
  import opened SlaveDecoder
  import opened SlaveStream

  datatype Act = Arrive(b: byte) | Clear(id: byte)

  datatype Node = Node(rx: Rx, flags: set<byte>)

  ghost predicate Enabled(n: Node, a: Act) {
    Reachable(n.rx) && (a.Arrive? ==> Fits(n.rx, a.b))
  }

  function Perform(n: Node, a: Act): (r: Node)
    requires Enabled(n, a)
    ensures Reachable(r.rx)
  {
    match a
    case Arrive(b) => Node(Step(n.rx, b).rx, FlagsAfter(n.flags, Step(n.rx, b).event))
    case Clear(id) => n.(flags := n.flags - {id})
  }

  /** No frame in the run declares more bytes than the receiver's buffer holds. */
  ghost predicate Safe(n: Node, acts: seq<Act>)
    decreases |acts|
  {
    Reachable(n.rx) && (acts == [] || (Enabled(n, acts[0]) && Safe(Perform(n, acts[0]), acts[1..])))
  }

  ghost function PerformAll(n: Node, acts: seq<Act>): (r: Node)
    requires Safe(n, acts)
    ensures Reachable(r.rx)
    decreases |acts|
  {
    if acts == [] then n else PerformAll(Perform(n, acts[0]), acts[1..])
  }

  lemma {:induction false} PerformConcat(n: Node, s: seq<Act>, t: seq<Act>)
    ensures Safe(n, s + t) <==> Safe(n, s) && Safe(PerformAll(n, s), t)
    ensures Safe(n, s + t) ==> PerformAll(n, s + t) == PerformAll(PerformAll(n, s), t)
    decreases |s|
  {
    if s == [] {
      assert s + t == t;
    } else {
      assert (s + t)[0] == s[0] && (s + t)[1..] == s[1..] + t;
      if Enabled(n, s[0]) {
        PerformConcat(Perform(n, s[0]), s[1..], t);
      }
    }
  }

  /** The act is the last byte of a frame with a valid checksum whose first body byte is id. */
  ghost predicate FrameEnds(rx: Rx, a: Act, id: byte) {
    && a.Arrive?
    && rx.InBody? && 0 < |rx.body| + 1 == rx.length as int
    && var body := rx.body + [a.b];
    Accepts(body) && body[0] == id
  }

  lemma SafePrefix(n: Node, acts: seq<Act>, i: nat)
    requires Safe(n, acts) && i <= |acts|
    ensures Safe(n, acts[..i])
    ensures i < |acts| ==> Enabled(PerformAll(n, acts[..i]), acts[i])
  {
    PerformConcat(n, acts[..i], acts[i..]);
    assert acts[..i] + acts[i..] == acts;
  }

  lemma PerformNext(n: Node, acts: seq<Act>, i: nat)
    requires Safe(n, acts) && i < |acts|
    ensures Safe(n, acts[..i]) && Safe(n, acts[..i + 1]) && Enabled(PerformAll(n, acts[..i]), acts[i])
    ensures PerformAll(n, acts[..i + 1]) == Perform(PerformAll(n, acts[..i]), acts[i])
  {
    SafePrefix(n, acts, i);
    SafePrefix(n, acts, i + 1);
    PerformConcat(n, acts[..i], [acts[i]]);
    assert acts[..i + 1] == acts[..i] + [acts[i]];
  }

  /** At act i a valid frame with this id ends, and no other sender lowers the flag after it. */
  ghost predicate AcknowledgedAt(n: Node, acts: seq<Act>, id: byte, i: nat) {
    && i < |acts| && Safe(n, acts[..i])
    && FrameEnds(PerformAll(n, acts[..i]).rx, acts[i], id)
    && Clear(id) !in acts[i + 1..]
  }

  ghost predicate Acknowledged(n: Node, acts: seq<Act>, id: byte) {
    exists i: nat :: AcknowledgedAt(n, acts, id, i)
  }

  lemma FlagAfterAct(n: Node, a: Act, id: byte)
    requires Enabled(n, a) && 1 <= id <= LAST_ID
    ensures id in Perform(n, a).flags <==> (id in n.flags && a != Clear(id)) || FrameEnds(n.rx, a, id)
  {
  }

  lemma AcknowledgedAfterAct(n: Node, acts: seq<Act>, a: Act, id: byte)
    requires Safe(n, acts)
    ensures Acknowledged(n, acts + [a], id) <==>
            (Acknowledged(n, acts, id) && a != Clear(id)) || FrameEnds(PerformAll(n, acts).rx, a, id)
  {
    var all := acts + [a];
    assert all[..|acts|] == acts && all[|acts| + 1..] == [];
    forall i: nat | i < |acts|
      ensures AcknowledgedAt(n, all, id, i) <==> AcknowledgedAt(n, acts, id, i) && a != Clear(id)
    {
      assert all[..i] == acts[..i] && all[i + 1..] == acts[i + 1..] + [a];
    }
    assert AcknowledgedAt(n, all, id, |acts|) <==> FrameEnds(PerformAll(n, acts).rx, a, id);
  }

  /** A lowered flag is up again exactly when a valid frame with its id has been decoded since, and
      no other sender has lowered it after that. */
  lemma {:induction false} FlagIffFrame(n: Node, acts: seq<Act>, id: byte)
    requires Safe(n, acts) && id !in n.flags && 1 <= id <= LAST_ID
    ensures id in PerformAll(n, acts).flags <==> Acknowledged(n, acts, id)
    decreases |acts|
  {
    if acts != [] {
      var init, a := acts[..|acts| - 1], acts[|acts| - 1];
      SafePrefix(n, acts, |init|);
      assert init + [a] == acts;
      PerformConcat(n, init, [a]);
      assert PerformAll(n, acts) == Perform(PerformAll(n, init), a);
      FlagIffFrame(n, init, id);
      FlagAfterAct(PerformAll(n, init), a, id);
      AcknowledgedAfterAct(n, init, a, id);
    }
  }

  function Arrivals(bytes: seq<byte>): seq<Act> {
    seq(|bytes|, i requires 0 <= i < |bytes| => Arrive(bytes[i]))
  }

  ghost function FlagsAfterAll(flags: set<byte>, events: seq<Event>): set<byte>
    decreases |events|
  {
    if events == [] then flags else FlagsAfterAll(FlagsAfter(flags, events[0]), events[1..])
  }

  /** Every declared length in the bytes fits the receiver's buffer. */
  ghost predicate FitsAll(rx: Rx, bytes: seq<byte>)
    requires Reachable(rx)
    decreases |bytes|
  {
    bytes == [] || (Fits(rx, bytes[0]) && FitsAll(Step(rx, bytes[0]).rx, bytes[1..]))
  }

  /** Bytes that arrive undisturbed act on the link as they do on the decoder alone. */
  lemma {:induction false} ArrivalsFeed(n: Node, bytes: seq<byte>)
    requires Reachable(n.rx) && FitsAll(n.rx, bytes)
    ensures Safe(n, Arrivals(bytes))
    ensures PerformAll(n, Arrivals(bytes)) == Node(Feed(n.rx, bytes), FlagsAfterAll(n.flags, Events(n.rx, bytes)))
    decreases |bytes|
  {
    if bytes != [] {
      assert Arrivals(bytes)[1..] == Arrivals(bytes[1..]);
      var next := Perform(n, Arrive(bytes[0]));
      ArrivalsFeed(next, bytes[1..]);
      FeedFirst(n.rx, bytes);
      var rest := Events(next.rx, bytes[1..]);
      assert Step(n.rx, bytes[0]).event == Nothing ==> [] + rest == rest;
    }
  }

  lemma {:induction false} FitsConcat(rx: Rx, s: seq<byte>, t: seq<byte>)
    requires Reachable(rx) && FitsAll(rx, s) && FitsAll(Feed(rx, s), t)
    ensures FitsAll(rx, s + t)
    decreases |s|
  {
    if s == [] {
      assert s + t == t;
    } else {
      assert (s + t)[0] == s[0] && (s + t)[1..] == s[1..] + t;
      FitsConcat(Step(rx, s[0]).rx, s[1..], t);
    }
  }

  lemma {:induction false} BodyFits(length: u16, body: seq<byte>, rest: seq<byte>)
    requires |body| + |rest| == length as int
    ensures rest != [] ==> FitsAll(InBody(length, body), rest)
    decreases |rest|
  {
    if rest != [] {
      BodyFits(length, body + [rest[0]], rest[1..]);
    }
  }

  /** Start bytes and a length that fits. */
  lemma HeaderFits(armed: bool, length: u16)
    requires length <= MAX_LENGTH
    ensures FitsAll(Idle(armed), [START0, START1] + Le16(length))
    ensures Feed(Idle(armed), [START0, START1] + Le16(length)) == InBody(length, [])
  {
    var tail := Le16(length);
    var header := [START0, START1] + tail;
    assert header[1..][1..] == tail && tail[1..] == [tail[1]] && [tail[1]][1..] == [];
    assert Step(Length2(tail[0]), tail[1]).rx == InBody(length, []);
    assert FitsAll(InBody(length, []), []) && Feed(InBody(length, []), []) == InBody(length, []);
    assert FitsAll(Length2(tail[0]), tail[1..]) && Feed(Length2(tail[0]), tail[1..]) == InBody(length, []);
    assert FitsAll(Length1, tail) && Feed(Length1, tail) == InBody(length, []);
    assert FitsAll(Idle(true), header[1..]) && Feed(Idle(true), header[1..]) == InBody(length, []);
  }

  lemma FrameFits(armed: bool, m: Message)
    requires WellFormed(m)
    ensures FitsAll(Idle(armed), Frame(m))
  {
    var header := [START0, START1] + Le16(Length(m));
    assert Frame(m) == header + Body(m);
    HeaderFits(armed, Length(m));
    BodyFits(Length(m), [], Body(m));
    FitsConcat(Idle(armed), header, Body(m));
  }

  /** End to end: an intact reply that an encoder wrote, arriving at an idle receiver while nobody lowers
      the flag, acknowledges the request that awaits its id. */
  lemma IntactReplyAcknowledges(n: Node, m: Message, id: byte)
    requires n.rx.Idle? && WellFormed(m)
    requires 1 <= id <= LAST_ID && id == WireId(m) % 256 && id !in n.flags
    ensures Safe(n, Arrivals(Frame(m))) && Acknowledged(n, Arrivals(Frame(m)), id)
  {
    FrameFits(n.rx.armed, m);
    ArrivalsFeed(n, Frame(m));
    var s := Segment([], m, Intact);
    SegmentEvents(n.rx.armed, s);
    IntactSegmentIsFrame(s);
    assert [] + Frame(m) == Frame(m);
    var delivered := Delivered(Body(m));
    assert Events(n.rx, Frame(m)) == [delivered];
    assert Body(m)[0] == id;
    assert FlagsAfterAll(n.flags, [delivered]) == FlagsAfterAll(FlagsAfter(n.flags, delivered), [delivered][1..]);
    FlagIffFrame(n, Arrivals(Frame(m)), id);
  }

  /** errorMessage after some events. */
  ghost function ErrorAfterAll(error: bool, events: seq<Event>): bool {
    if events == [] then error
    else ErrorAfter(ErrorAfterAll(error, events[..|events| - 1]), events[|events| - 1])
  }

  lemma ErrorOfVerdict(error: bool, s: Segment)
    requires Genuine(s)
    ensures ErrorAfter(error, Verdict(s)) <==> s.damage.Altered? || !(1 <= WireId(s.message) % 256 <= 16)
  {
    var m := s.message;
    assert Body(m)[0] == Content(m)[0] == Le16(WireId(m))[0] == WireId(m) % 256;
  }

  /** After a stream of frames errorMessage tells of the last one: up exactly when it was altered or its
      id is none of the sixteen. */
  lemma ErrorTellsLastFrame(armed: bool, segments: seq<Segment>, error: bool)
    requires segments != [] && (forall s :: s in segments ==> Genuine(s)) && QuietGaps(armed, segments)
    ensures var last := segments[|segments| - 1];
            ErrorAfterAll(error, Events(Idle(armed), Stream(segments))) <==>
            last.damage.Altered? || !(1 <= WireId(last.message) % 256 <= 16)
  {
    StreamDecodes(armed, segments);
    var n := |segments| - 1;
    var verdicts := Verdicts(segments);
    assert segments[n] in segments && verdicts[n] == Verdict(segments[n]);
    ErrorOfVerdict(ErrorAfterAll(error, verdicts[..n]), segments[n]);
  }
}
