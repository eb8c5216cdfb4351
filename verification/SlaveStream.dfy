/** What the decoder makes of whole byte streams: the encoders and the decoder fit together. */
module SlaveStream {
  import opened Basics
  import opened SlaveFrame
  import opened SlaveDecoder

  function Feed(rx: Rx, bytes: seq<byte>): (r: Rx)
    requires Reachable(rx)
    ensures Reachable(r)
    decreases |bytes|
  {
    if bytes == [] then rx else Feed(Step(rx, bytes[0]).rx, bytes[1..])
  }

  /** The accepted and rejected frames of a stream, in order. */
  function Events(rx: Rx, bytes: seq<byte>): seq<Event>
    requires Reachable(rx)
    decreases |bytes|
  {
    if bytes == [] then []
    else
      var r := Step(rx, bytes[0]);
      (if r.event == Nothing then [] else [r.event]) + Events(r.rx, bytes[1..])
  }

  lemma {:induction false} FeedConcat(rx: Rx, s: seq<byte>, t: seq<byte>)
    requires Reachable(rx)
    ensures Feed(rx, s + t) == Feed(Feed(rx, s), t)
    ensures Events(rx, s + t) == Events(rx, s) + Events(Feed(rx, s), t)
    decreases |s|
  {
    if s == [] {
      assert s + t == t;
    } else {
      var next := Step(rx, s[0]).rx;
      assert (s + t)[0] == s[0] && (s + t)[1..] == s[1..] + t;
      FeedConcat(next, s[1..], t);
      FeedFirst(rx, s);
      FeedFirst(rx, s + t);
      ConcatAssociative(FirstEvents(rx, s[0]), Events(next, s[1..]), Events(Feed(next, s[1..]), t));
    }
  }

  /** The events of the first byte. */
  function FirstEvents(rx: Rx, b: byte): seq<Event>
    requires Reachable(rx)
  {
    if Step(rx, b).event == Nothing then [] else [Step(rx, b).event]
  }

  lemma FeedFirst(rx: Rx, bytes: seq<byte>)
    requires Reachable(rx) && bytes != []
    ensures Feed(rx, bytes) == Feed(Step(rx, bytes[0]).rx, bytes[1..])
    ensures Events(rx, bytes) == FirstEvents(rx, bytes[0]) + Events(Step(rx, bytes[0]).rx, bytes[1..])
  {
  }

  lemma {:induction false} FeedBody(length: u16, body: seq<byte>, rest: seq<byte>)
    requires rest != [] && |body| + |rest| == length as int
    ensures Feed(InBody(length, body), rest) == Idle(true)
    ensures Events(InBody(length, body), rest) == [Outcome(body + rest)]
    decreases |rest|
  {
    assert body + rest == (body + [rest[0]]) + rest[1..];
    if |rest| == 1 {
      assert body + rest == body + [rest[0]];
    } else {
      FeedBody(length, body + [rest[0]], rest[1..]);
    }
  }

  /** Start bytes, a length and that many bytes end the frame, whatever the bytes are. */
  lemma FeedFrame(armed: bool, length: u16, body: seq<byte>)
    requires |body| == length as int > 0
    ensures Feed(Idle(armed), [START0, START1] + Le16(length) + body) == Idle(true)
    ensures Events(Idle(armed), [START0, START1] + Le16(length) + body) == [Outcome(body)]
  {
    var header := [START0, START1] + Le16(length);
    var tail := Le16(length);
    assert header[1..][1..] == tail;
    assert tail[1..] == [tail[1]];
    assert Feed(Idle(armed), header) == Feed(Idle(true), header[1..]) == Feed(Length1, tail)
        == Feed(Length2(tail[0]), tail[1..]) == InBody(length, []);
    assert Events(Idle(armed), header) == Events(Idle(true), header[1..]) == Events(Length1, tail)
        == Events(Length2(tail[0]), tail[1..]) == [];
    FeedConcat(Idle(armed), header, body);
    FeedBody(length, [], body);
    assert [] + body == body;
  }

  /** Noise is harmless when no 0xAA directly follows a 0x55, counting one that arrived before. */
  ghost predicate Harmless(armed: bool, noise: seq<byte>) {
    forall i :: 0 <= i < |noise| && noise[i] == START1 ==>
      (i == 0 ==> !armed) && (i > 0 ==> noise[i - 1] != START0)
  }

  /** Harmless noise is exactly the noise during which the receiver stays idle. */
  lemma {:induction false} HarmlessIffIdle(armed: bool, noise: seq<byte>)
    ensures Harmless(armed, noise) <==> forall k :: 0 <= k <= |noise| ==> Feed(Idle(armed), noise[..k]).Idle?
    ensures Harmless(armed, noise) ==> Events(Idle(armed), noise) == []
    decreases |noise|
  {
    if noise != [] {
      var rx := Step(Idle(armed), noise[0]).rx;
      forall k | 1 <= k <= |noise|
        ensures Feed(Idle(armed), noise[..k]) == Feed(rx, noise[1..][..k - 1])
      {
        assert noise[..k][1..] == noise[1..][..k - 1];
      }
      if rx.Idle? {
        HarmlessIffIdle(rx.armed, noise[1..]);
        HarmlessShift(armed, noise);
        assert forall k :: 0 <= k <= |noise| - 1 ==>
          Feed(Idle(armed), noise[..k + 1]) == Feed(rx, noise[1..][..k]);
      } else {
        assert noise[0] == START1 && armed;
        assert !Harmless(armed, noise);
        assert Feed(Idle(armed), noise[..1]) == Feed(rx, noise[1..][..0]) == rx;
      }
    }
  }

  lemma HarmlessShift(armed: bool, noise: seq<byte>)
    requires noise != [] && !(armed && noise[0] == START1)
    ensures Harmless(armed, noise) <==> Harmless(noise[0] == START0, noise[1..])
  {
    if Harmless(noise[0] == START0, noise[1..]) {
      forall i | 0 < i < |noise| && noise[i] == START1
        ensures noise[i - 1] != START0
      {
        var j := i - 1;
        assert noise[1..][j] == START1;
        assert j > 0 ==> noise[1..][j - 1] == noise[j];
      }
    }
  }

  /** Damage on the line: one byte of a frame's body or checksum is replaced. */
  datatype Damage = Intact | Altered(pos: nat, value: byte)

  datatype Segment = Segment(noise: seq<byte>, message: Message, damage: Damage)

  ghost predicate Genuine(s: Segment) {
    && WellFormed(s.message)
    && (s.damage.Altered? ==>
          s.damage.pos < |Body(s.message)| && s.damage.value != Body(s.message)[s.damage.pos])
  }

  ghost function ArrivingBody(s: Segment): seq<byte>
    requires Genuine(s)
  {
    match s.damage
    case Intact => Body(s.message)
    case Altered(pos, value) => Body(s.message)[pos := value]
  }

  ghost function Arriving(s: Segment): seq<byte>
    requires Genuine(s)
  {
    s.noise + ([START0, START1] + Le16(Length(s.message)) + ArrivingBody(s))
  }

  ghost function Stream(segments: seq<Segment>): seq<byte>
    requires forall s :: s in segments ==> Genuine(s)
  {
    if segments == [] then [] else Arriving(segments[0]) + Stream(segments[1..])
  }

  ghost function Verdict(s: Segment): Event
    requires Genuine(s)
  {
    if s.damage.Intact? then Delivered(Body(s.message)) else Rejected
  }

  ghost function Verdicts(segments: seq<Segment>): seq<Event>
    requires forall s :: s in segments ==> Genuine(s)
  {
    seq(|segments|, i requires 0 <= i < |segments| && segments[i] in segments => Verdict(segments[i]))
  }

  /** An undamaged segment is noise followed by exactly what the encoder writes. */
  lemma IntactSegmentIsFrame(s: Segment)
    requires Genuine(s) && s.damage.Intact?
    ensures Arriving(s) == s.noise + Frame(s.message)
  {
    var m := s.message;
    assert Frame(m) == [START0, START1] + Le16(Length(m)) + Body(m);
  }

  lemma HeaderSum(n: u16)
    ensures Sum([START0, START1] + Le16(n)) == START0 + START1 + Sum(Le16(n))
  {
    var first: seq<byte>, second: seq<byte> := [START0], [START1];
    assert first + second == [START0, START1];
    SumConcat(first + second, Le16(n));
    SumConcat(first, second);
    SumSingle(START0);
    SumSingle(START1);
  }

  lemma PrefixSum(m: Message)
    requires WellFormed(m)
    ensures Sum(Prefix(m)) == START0 + START1 + Sum(Le16(Length(m))) + Sum(Content(m))
  {
    SumConcat([START0, START1] + Le16(Length(m)), Content(m));
    HeaderSum(Length(m));
  }

  lemma EncodedBodyAccepted(m: Message)
    requires WellFormed(m)
    ensures Accepts(Body(m))
  {
    PrefixSum(m);
    var body := Body(m);
    assert Covered(body) == Content(m);
    assert Trailer(body) == Sum(Prefix(m)) % 0x1_0000;
  }

  /** One altered byte always spoils the checksum. */
  lemma AlteredBodyRejected(m: Message, pos: nat, value: byte)
    requires WellFormed(m) && pos < |Body(m)| && value != Body(m)[pos]
    ensures !Accepts(Body(m)[pos := value])
  {
    EncodedBodyAccepted(m);
    if pos < |Body(m)| - 2 {
      AlteredContent(Body(m), pos, value);
    } else {
      AlteredTrailer(Body(m), pos, value);
    }
  }

  lemma AlteredContent(body: seq<byte>, pos: nat, value: byte)
    requires 2 <= |body| < 0x1_0000 && Accepts(body) && pos < |body| - 2 && value != body[pos]
    ensures !Accepts(body[pos := value])
  {
    var altered := body[pos := value];
    assert Covered(altered) == Covered(body)[pos := value];
    SumUpdate(Covered(body), pos, value);
    ModuloDiffers(START0 + START1 + Sum(Le16(|body|)) + Sum(Covered(body)), value - body[pos]);
  }

  lemma AlteredTrailer(body: seq<byte>, pos: nat, value: byte)
    requires 2 <= |body| < 0x1_0000 && Accepts(body) && |body| - 2 <= pos < |body| && value != body[pos]
    ensures !Accepts(body[pos := value])
  {
    assert Covered(body[pos := value]) == Covered(body);
  }

  lemma ModuloDiffers(a: int, d: int)
    requires -256 < d < 256 && d != 0
    ensures (a + d) % 0x1_0000 != a % 0x1_0000
  {
  }

  lemma SegmentEvents(armed: bool, s: Segment)
    requires Genuine(s) && Harmless(armed, s.noise)
    ensures Feed(Idle(armed), Arriving(s)) == Idle(true)
    ensures Events(Idle(armed), Arriving(s)) == [Verdict(s)]
  {
    HarmlessIffIdle(armed, s.noise);
    assert s.noise[..|s.noise|] == s.noise;
    var rx := Feed(Idle(armed), s.noise);
    FeedFrame(rx.armed, Length(s.message), ArrivingBody(s));
    FeedConcat(Idle(armed), s.noise, [START0, START1] + Le16(Length(s.message)) + ArrivingBody(s));
    if s.damage.Intact? {
      EncodedBodyAccepted(s.message);
    } else {
      AlteredBodyRejected(s.message, s.damage.pos, s.damage.value);
    }
  }

  /** The noise before each frame is harmless; after a frame the receiver is armed. */
  ghost predicate QuietGaps(armed: bool, segments: seq<Segment>) {
    forall i :: 0 <= i < |segments| ==> Harmless(i > 0 || armed, segments[i].noise)
  }

  lemma VerdictsFirst(segments: seq<Segment>)
    requires segments != [] && forall s :: s in segments ==> Genuine(s)
    ensures Verdicts(segments) == [Verdict(segments[0])] + Verdicts(segments[1..])
  {
  }

  /** Main result: from any idle state, whatever the payloads hold, every intact frame of the stream
      is delivered unchanged and in order, every altered one is rejected, and none costs another. */
  lemma {:induction false} StreamDecodes(armed: bool, segments: seq<Segment>)
    requires forall s :: s in segments ==> Genuine(s)
    requires QuietGaps(armed, segments)
    ensures Feed(Idle(armed), Stream(segments)).Idle?
    ensures Events(Idle(armed), Stream(segments)) == Verdicts(segments)
    decreases |segments|
  {
    if segments != [] {
      var first, rest := segments[0], segments[1..];
      assert Harmless(armed, first.noise);
      assert QuietGaps(true, rest);
      SegmentEvents(armed, first);
      FeedConcat(Idle(armed), Arriving(first), Stream(rest));
      StreamDecodes(true, rest);
      VerdictsFirst(segments);
    }
  }

  /** A declared length of 0 is never completed: the receiver is deaf from then on. */
  lemma {:induction false} ZeroLengthIsDeaf(bytes: seq<byte>)
    ensures Feed(InBody(0, []), bytes) == InBody(0, [])
    ensures Events(InBody(0, []), bytes) == []
  {
    if bytes != [] {
      ZeroLengthIsDeaf(bytes[1..]);
    }
  }

  /** Only a declared length of 0 does that: from anywhere else some bytes lead back to idle. */
  lemma DeafIffZeroLength(rx: Rx)
    requires Reachable(rx)
    ensures (forall bytes :: !Feed(rx, bytes).Idle?) <==> rx == InBody(0, [])
  {
    if rx == InBody(0, []) {
      forall bytes ensures !Feed(rx, bytes).Idle? {
        ZeroLengthIsDeaf(bytes);
      }
    } else {
      var bytes := WayBack(rx);
      assert Feed(rx, bytes).Idle?;
    }
  }

  lemma WayBack(rx: Rx) returns (bytes: seq<byte>)
    requires Reachable(rx) && rx != InBody(0, [])
    ensures Feed(rx, bytes).Idle?
  {
    match rx
    case Idle(_) => bytes := [];
    case Length1 =>
      bytes := WayBackFromLength2(1);
      assert ([1] + bytes)[1..] == bytes;
      bytes := [1] + bytes;
    case Length2(low) => bytes := WayBackFromLength2(low);
    case InBody(length, body) =>
      bytes := seq(length as int - |body|, _ => 0);
      FeedBody(length, body, bytes);
  }

  lemma WayBackFromLength2(low: byte) returns (bytes: seq<byte>)
    ensures Feed(Length2(low), bytes).Idle?
  {
    var zeros: seq<byte> := seq(low + 256, _ => 0);
    bytes := [1] + zeros;
    assert bytes[1..] == zeros;
    FeedBody(low + 256, [], zeros);
  }

  /** Length bytes still to come. */
  function HeaderLeft(rx: Rx): nat {
    match rx
    case Length1 => 2
    case Length2(_) => 1
    case _ => 0
  }

  /** The length the receiver has been told, or is being told by the next bytes. */
  function Declared(rx: Rx, bytes: seq<byte>): nat
    requires !rx.Idle? && |bytes| >= HeaderLeft(rx)
  {
    match rx
    case Length1 => bytes[0] as int + 256 * bytes[1] as int
    case Length2(low) => low as int + 256 * bytes[0] as int
    case InBody(length, _) => length
  }

  /** The bytes until the frame it believes to be in is over. */
  function Outstanding(rx: Rx, bytes: seq<byte>): (n: int)
    requires Reachable(rx) && !rx.Idle? && |bytes| >= HeaderLeft(rx)
    ensures n <= 2 + 0xFFFF
  {
    HeaderLeft(rx) + Declared(rx, bytes) - if rx.InBody? then |rx.body| else 0
  }

  lemma {:induction false} InBodyUntil(length: u16, body: seq<byte>, bytes: seq<byte>)
    requires |body| + |bytes| < length as int
    ensures Feed(InBody(length, body), bytes) == InBody(length, body + bytes)
    decreases |bytes|
  {
    if bytes == [] {
      assert body + bytes == body;
    } else {
      InBodyUntil(length, body + [bytes[0]], bytes[1..]);
      assert body + bytes == body + [bytes[0]] + bytes[1..];
    }
  }

  /** One length byte further, the same bytes are outstanding. */
  lemma HeaderStep(rx: Rx, bytes: seq<byte>, k: nat)
    requires (rx.Length1? || rx.Length2?) && |bytes| >= HeaderLeft(rx) && 1 <= k <= |bytes|
    ensures var next := Step(rx, bytes[0]).rx;
            && !next.Idle? && HeaderLeft(next) == HeaderLeft(rx) - 1
            && Declared(next, bytes[1..]) == Declared(rx, bytes)
            && Feed(rx, bytes[..k]) == Feed(next, bytes[1..][..k - 1])
  {
    assert bytes[..k][1..] == bytes[1..][..k - 1];
  }

  /** However it got out of step, a receiver in the middle of a frame is back to idle after exactly the
      bytes outstanding, at most 65537, and not before; with a declared length of 0 it never is. */
  lemma {:induction false} IdleAfterOutstanding(rx: Rx, bytes: seq<byte>, k: nat)
    requires Reachable(rx) && !rx.Idle? && HeaderLeft(rx) <= |bytes| && k <= |bytes|
    requires Declared(rx, bytes) > 0 ==> k <= Outstanding(rx, bytes)
    ensures Feed(rx, bytes[..k]).Idle? <==> Declared(rx, bytes) > 0 && k == Outstanding(rx, bytes)
    ensures Feed(rx, bytes[..k]).Idle? ==> Feed(rx, bytes[..k]) == Idle(true)
    decreases HeaderLeft(rx)
  {
    if rx.InBody? {
      if rx.length == 0 {
        ZeroLengthIsDeaf(bytes[..k]);
      } else if |rx.body| + k < rx.length as int {
        InBodyUntil(rx.length, rx.body, bytes[..k]);
      } else {
        FeedBody(rx.length, rx.body, bytes[..k]);
      }
    } else if k > 0 {
      HeaderStep(rx, bytes, k);
      IdleAfterOutstanding(Step(rx, bytes[0]).rx, bytes[1..], k - 1);
    }
  }

  /** So whatever bytes were lost or changed, everything sent after those outstanding is decoded. */
  lemma RecoversAfterDamage(rx: Rx, junk: seq<byte>, segments: seq<Segment>)
    requires Reachable(rx) && !rx.Idle? && HeaderLeft(rx) <= |junk|
    requires Declared(rx, junk) > 0 && |junk| == Outstanding(rx, junk)
    requires (forall s :: s in segments ==> Genuine(s)) && QuietGaps(true, segments)
    ensures Feed(rx, junk + Stream(segments)).Idle?
    ensures Events(rx, junk + Stream(segments)) == Events(rx, junk) + Verdicts(segments)
  {
    assert junk[..|junk|] == junk;
    IdleAfterOutstanding(rx, junk, |junk|);
    FeedConcat(rx, junk, Stream(segments));
    StreamDecodes(true, segments);
  }
}
