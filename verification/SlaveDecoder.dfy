/**
 The receiving task of the master/slave link: a byte-at-a-time decoder. The class keeps the
 program's own variables; Rx and Step say what they mean as a parser.
 */
module SlaveDecoder {
  import opened Basics
  import opened SlaveFrame

  /** Where the receiver is. Idle is armed when the last start byte seen was 0x55. */
  datatype Rx =
    | Idle(armed: bool)
    | Length1
    | Length2(low: byte)
    | InBody(length: u16, body: seq<byte>)

  datatype Event = Nothing | Delivered(body: seq<byte>) | Rejected

  datatype Reaction = Reaction(rx: Rx, event: Event)

  /** The two bytes after a body's content, as the receiver adds them up. A one-byte body has only
      the high one. */
  function Trailer(body: seq<byte>): nat
    requires body != []
  {
    (if |body| >= 2 then body[|body| - 2] as int else 0) + 256 * body[|body| - 1] as int
  }

  function Covered(body: seq<byte>): seq<byte> {
    if |body| >= 2 then body[..|body| - 2] else []
  }

  /** The running sum after the start bytes, the length and some content. */
  function RunningSum(length: u16, content: seq<byte>): u16 {
    (START0 + START1 + Sum(Le16(length)) + Sum(content)) % 0x1_0000
  }

  /** The part of a partial body that counts towards the checksum. */
  function Summed(length: u16, body: seq<byte>): seq<byte> {
    if |body| + 2 <= length as int then body
    else if 2 <= length <= |body| + 1 then body[..length - 2]
    else []
  }

  lemma RunningSumStep(length: u16, content: seq<byte>, b: byte)
    ensures RunningSum(length, content + [b]) == (RunningSum(length, content) as int + b as int) % 0x1_0000
  {
    SumConcat(content, [b]);
    SumSingle(b);
    AddModulo(START0 + START1 + Sum(Le16(length)) + Sum(content), b);
  }

  /** How one more byte, not the last, changes the running sum. */
  lemma NextSum(length: u16, body: seq<byte>, b: byte)
    requires |body| as int < length as int - 1
    ensures RunningSum(length, Summed(length, body + [b])) ==
            if |body| < length as int - 2 then (RunningSum(length, Summed(length, body)) as int + b as int) % 0x1_0000
            else RunningSum(length, Summed(length, body))
  {
    if |body| < length as int - 2 {
      RunningSumStep(length, body, b);
    } else {
      assert (body + [b])[..length - 2] == body;
    }
  }

  lemma CoveredIsSummed(length: u16, body: seq<byte>, b: byte)
    requires |body| + 1 == length as int
    ensures Covered(body + [b]) == Summed(length, body)
    ensures length >= 2 ==> (body + [b])[|body| - 1] == body[|body| - 1]
  {
  }

  predicate Accepts(body: seq<byte>)
    requires 0 < |body| < 0x1_0000
  {
    RunningSum(|body|, Covered(body)) == Trailer(body)
  }

  /** The comparison at the end of a frame: start bytes, length and content, summed up to 16 bits, against
      the last two bytes; a body of one byte has only the high one. */
  lemma AcceptsMeans(body: seq<byte>)
    requires 0 < |body| < 0x1_0000
    ensures var n := |body|;
            Accepts(body) <==>
            if n == 1 then 256 * body[0] as int == 0x55 + 0xAA + 1
            else (0x55 + 0xAA + n % 256 + n / 256 + Sum(body[..n - 2])) % 0x1_0000
                 == body[n - 2] as int + 256 * body[n - 1] as int
  {
    var low: seq<byte>, high: seq<byte> := [|body| % 256], [|body| / 256];
    assert Le16(|body|) == low + high;
    SumConcat(low, high);
    SumSingle(low[0]);
    SumSingle(high[0]);
  }

  function Outcome(body: seq<byte>): Event
    requires 0 < |body| < 0x1_0000
  {
    if Accepts(body) then Delivered(body) else Rejected
  }

  ghost predicate Reachable(rx: Rx) {
    rx.InBody? ==> |rx.body| < rx.length || rx == InBody(0, [])
  }

  /** One received byte. A declared length of 0 is never completed. */
  function Step(rx: Rx, b: byte): (r: Reaction)
    requires Reachable(rx)
    ensures Reachable(r.rx)
  {
    match rx
    case Idle(armed) =>
      if b == START0 then Reaction(Idle(true), Nothing)
      else if b == START1 && armed then Reaction(Length1, Nothing)
      else Reaction(Idle(false), Nothing)
    case Length1 => Reaction(Length2(b), Nothing)
    case Length2(low) => Reaction(InBody(low + 256 * b, []), Nothing)
    case InBody(length, body) =>
      if length == 0 then Reaction(rx, Nothing)
      else if |body| + 1 < length then Reaction(InBody(length, body + [b]), Nothing)
      else Reaction(Idle(true), Outcome(body + [b]))
  }

  /** The declared length fits in the receiver's buffer. */
  predicate Fits(rx: Rx, b: byte) {
    match rx
    case Length2(low) => low + 256 * b <= MAX_LENGTH
    case _ => true
  }

  /** FIRMWARE_UPDATE_FAIL_ID, the last of the ids 1, 2, ... the receiver knows. */
  const LAST_ID: byte := 16

  /** A valid frame raises the flag of the id in its first body byte. */
  function FlagsAfter(flags: set<byte>, event: Event): set<byte> {
    if event.Delivered? && event.body != [] && 1 <= event.body[0] <= LAST_ID
    then flags + {event.body[0]} else flags
  }

  /** Only the sixteen known ids have a flag, and a frame raises its own. */
  lemma FlagRaised(flags: set<byte>, event: Event, id: byte)
    ensures id in FlagsAfter(flags, event) <==>
            id in flags || (event.Delivered? && event.body != [] && event.body[0] == id && 1 <= id <= 16)
  {
  }

  function ErrorAfter(error: bool, event: Event): bool {
    match event
    case Nothing => error
    case Rejected => true
    case Delivered(body) => !(body != [] && 1 <= body[0] <= LAST_ID)
  }

  lemma LengthSum(low: u16, high: byte)
    requires low < 256
    ensures RunningSum(low + 256 * high, []) == (255 + low as int + high as int) % 0x1_0000
  {
    var s: seq<byte> := Le16(low + 256 * high);
    assert s[..1] == [s[0]];
    SumSingle(s[0]);
  }

  class Decoder {
    const slaveData: array<byte>
    var messageStart: bool
    var lengthFirstByteStatus: bool
    var lengthSecondByteStatus: bool
    var lengthFirstByte: u16
    var lengthSecondByte: u16
    var messageLength: u16
    var messageReceiveCounter: u16
    var checksumSoFar: u16
    var checksumValue: u16
    var errorMessage: bool
    /** The sixteen ..._ID_RECEIVED flags that are up, by message id. */
    var received: set<byte>
    /** The body bytes of the frame being received. */
    ghost var body: seq<byte>

    ghost predicate Valid()
      reads this, slaveData
    {
      && slaveData.Length == 1024
      && (messageStart ==> slaveData[0] == START0)
      && (!messageStart ==> !lengthFirstByteStatus && !lengthSecondByteStatus)
      && (lengthSecondByteStatus ==> lengthFirstByteStatus && ValidBody())
      && (messageStart && !lengthSecondByteStatus ==> checksumValue == 0)
      && (messageStart && !lengthFirstByteStatus ==> checksumSoFar == 255)
      && (lengthFirstByteStatus && !lengthSecondByteStatus ==>
            lengthFirstByte < 256 && checksumSoFar == 255 + lengthFirstByte)
      && (!messageStart ==> checksumValue == 0)
    }

    ghost predicate ValidBody()
      reads this, slaveData
      requires slaveData.Length == 1024
    {
      && messageLength <= MAX_LENGTH
      && (messageLength == 0 ==> body == [])
      && (messageLength > 0 ==> messageReceiveCounter == |body| < messageLength)
      && (forall i :: 0 <= i < |body| ==> slaveData[4 + i] == body[i])
      && checksumSoFar == RunningSum(messageLength, Summed(messageLength, body))
      && checksumValue == if 0 < |body| == messageLength - 1 then body[|body| - 1] else 0
    }

    ghost function State(): Rx
      reads this, slaveData
      requires Valid()
      ensures Reachable(State())
    {
      if !messageStart then Idle(slaveData[0] == START0)
      else if !lengthFirstByteStatus then Length1
      else if !lengthSecondByteStatus then Length2(lengthFirstByte)
      else InBody(messageLength, body)
    }

    constructor ()
      ensures Valid() && fresh(slaveData) && State().Idle?
      ensures received == {} && !errorMessage
    {
      slaveData := new byte[1024](_ => 0);
      messageStart, lengthFirstByteStatus, lengthSecondByteStatus := false, false, false;
      lengthFirstByte, lengthSecondByte, messageLength := 0, 0, 0;
      messageReceiveCounter, checksumSoFar, checksumValue := 0, 0, 0;
      errorMessage, received := false, {};
      body := [];
    }

    /** One turn of the receiving loop. */
    method Receive(b: byte) returns (event: Event)
      requires Valid() && Fits(State(), b)
      modifies this, slaveData
      ensures Valid()
      ensures Reaction(State(), event) == Step(old(State()), b)
      ensures received == FlagsAfter(old(received), event)
      ensures errorMessage == ErrorAfter(old(errorMessage), event)
    {
      event := Nothing;
      if !messageStart {
        ReceiveStartByte(b);
      } else if !lengthFirstByteStatus {
        ReceiveFirstLengthByte(b);
      } else if !lengthSecondByteStatus {
        ReceiveSecondLengthByte(b);
      } else {
        event := ReceiveBodyByte(b);
      }
    }

    method ReceiveStartByte(b: byte)
      requires Valid() && !messageStart
      modifies `messageStart, `checksumSoFar, slaveData
      ensures Valid() && Reaction(State(), Nothing) == Step(old(State()), b)
    {
      if b == START0 {
        slaveData[0] := START0;
      } else if b == START1 && slaveData[0] == START0 {
        messageStart := true;
        slaveData[1] := START1;
        checksumSoFar := 255;
      } else {
        slaveData[0] := 0;
        checksumSoFar := 0;
      }
    }

    method ReceiveFirstLengthByte(b: byte)
      requires Valid() && messageStart && !lengthFirstByteStatus
      modifies `lengthFirstByte, `lengthFirstByteStatus, `checksumSoFar, slaveData
      ensures Valid() && Reaction(State(), Nothing) == Step(old(State()), b)
    {
      slaveData[2] := b;
      lengthFirstByte := b;
      lengthFirstByteStatus := true;
      checksumSoFar := (checksumSoFar as int + b as int) % 0x1_0000;
    }

    method ReceiveSecondLengthByte(b: byte)
      requires Valid() && lengthFirstByteStatus && !lengthSecondByteStatus && Fits(State(), b)
      modifies `lengthSecondByte, `messageLength, `messageReceiveCounter, `lengthSecondByteStatus,
               `checksumSoFar, `body, slaveData
      ensures Valid() && Reaction(State(), Nothing) == Step(old(State()), b)
    {
      slaveData[3] := b;
      lengthSecondByte := b;
      messageLength := lengthSecondByte as int * 256 + lengthFirstByte as int;
      messageReceiveCounter := 0;
      lengthSecondByteStatus := true;
      checksumSoFar := (checksumSoFar as int + b as int) % 0x1_0000;
      body := [];
      LengthSum(lengthFirstByte, b);
    }

    /** The branch for bytes after the length. A declared length of 0 leaves only the counter moving. */
    method ReceiveBodyByte(b: byte) returns (event: Event)
      requires Valid() && messageStart && lengthSecondByteStatus
      modifies this, slaveData
      ensures Valid()
      ensures Reaction(State(), event) == Step(old(State()), b)
      ensures received == FlagsAfter(old(received), event)
      ensures errorMessage == ErrorAfter(old(errorMessage), event)
    {
      event := Nothing;
      if messageReceiveCounter >= messageLength {
        messageReceiveCounter := (messageReceiveCounter + 1) % 0x1_0000;
      } else if messageReceiveCounter < messageLength - 1 {
        AddBodyByte(b);
      } else {
        event := AddLastByte(b);
      }
    }

    /** A content byte is stored and summed; the byte after the content is the checksum's low half. */
    method AddBodyByte(b: byte)
      requires Valid() && messageStart && lengthSecondByteStatus
      requires messageReceiveCounter as int < messageLength as int - 1
      modifies `body, `checksumSoFar, `checksumValue, `messageReceiveCounter, slaveData
      ensures Valid() && State() == InBody(messageLength, old(body) + [b])
    {
      NextSum(messageLength, body, b);
      slaveData[4 + messageReceiveCounter] := b;
      if messageReceiveCounter as int < messageLength as int - 2 {
        checksumSoFar := (checksumSoFar as int + b as int) % 0x1_0000;
      } else {
        checksumValue := b;
      }
      messageReceiveCounter := (messageReceiveCounter + 1) % 0x1_0000;
      body := body + [b];
    }

    method AddLastByte(b: byte) returns (event: Event)
      requires Valid() && messageStart && lengthSecondByteStatus
      requires messageLength > 0 && messageReceiveCounter == messageLength - 1
      modifies this, slaveData
      ensures Valid() && State() == Idle(true)
      ensures event == Outcome(old(body) + [b])
      ensures received == FlagsAfter(old(received), event)
      ensures errorMessage == ErrorAfter(old(errorMessage), event)
    {
      ghost var full := body + [b];
      CoveredIsSummed(messageLength, body, b);
      slaveData[4 + messageReceiveCounter] := b;
      assert forall i :: 0 <= i < |full| ==> slaveData[4 + i] == full[i];
      checksumValue := (checksumValue as int + 256 * b as int) % 0x1_0000;
      messageStart, lengthFirstByteStatus, lengthSecondByteStatus := false, false, false;
      event := CheckFrame(full);
      messageReceiveCounter := (messageReceiveCounter + 1) % 0x1_0000;
    }

    /** The comparison after the last byte, and the dispatch on the message id. */
    method CheckFrame(ghost full: seq<byte>) returns (event: Event)
      requires slaveData.Length == 1024 && 0 < |full| == messageLength as int <= MAX_LENGTH
      requires forall i :: 0 <= i < |full| ==> slaveData[4 + i] == full[i]
      requires checksumValue == Trailer(full)
      requires checksumSoFar == RunningSum(messageLength, Covered(full))
      modifies `checksumSoFar, `checksumValue, `errorMessage, `received
      ensures checksumValue == 0
      ensures event == Outcome(full)
      ensures received == FlagsAfter(old(received), event)
      ensures errorMessage == ErrorAfter(old(errorMessage), event)
    {
      if checksumSoFar == checksumValue {
        checksumSoFar, checksumValue := 0, 0;
        errorMessage := false;
        event := Delivered(slaveData[4..4 + messageLength]);
        assert event.body == full && full[0] == slaveData[4];
        if 1 <= slaveData[4] <= LAST_ID {
          received := received + {slaveData[4]};
        } else {
          errorMessage := true;
        }
      } else {
        event := Rejected;
        errorMessage := true;
        checksumSoFar, checksumValue := 0, 0;
      }
    }
  }
}
