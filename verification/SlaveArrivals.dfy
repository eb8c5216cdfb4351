/**
 What the slave holds once the master takes a transfer for acknowledged. Acknowledgements carry no
 packet number, so one that comes late can be taken for the answer to the next packet.
 */
module SlaveArrivals {
  import opened Basics
  import opened SlaveTransfer

  /** Transmission i was acknowledged by the reply to transmission cause(i), at the latest its own. */
  ghost predicate Causal(log: seq<Sent>, cause: nat -> nat) {
    forall i: nat {:trigger log[i].acked} :: i < |log| && log[i].acked ==> cause(i) <= i
  }

  /** The slave replies only to what reaches it. */
  ghost predicate Plausible(log: seq<Sent>, cause: nat -> nat, arrived: set<nat>) {
    forall i: nat {:trigger log[i].acked} :: i < |log| && log[i].acked ==> cause(i) in arrived
  }

  ghost predicate ReachedSlave(log: seq<Sent>, arrived: set<nat>, packet: Packet) {
    exists j: nat :: j < |log| && j in arrived && log[j].packet == packet
  }

  /** Every acknowledged packet reached the slave. */
  ghost predicate AllReceived(log: seq<Sent>, arrived: set<nat>) {
    forall i: nat {:trigger log[i].acked} :: i < |log| && log[i].acked ==> ReachedSlave(log, arrived, log[i].packet)
  }

  /** Every acknowledgement answers a transmission of the packet it is taken for. */
  ghost predicate AnswersOwnPacket(log: seq<Sent>, cause: nat -> nat)
    requires Causal(log, cause)
  {
    forall i: nat {:trigger log[i].acked} :: i < |log| && log[i].acked ==> log[cause(i)].packet == log[i].packet
  }

  lemma {:induction false} AckedPrefix(log: seq<Sent>, i: nat)
    requires i <= |log|
    ensures |Acked(log[..i])| <= |Acked(log)| && Acked(log[..i]) == Acked(log)[..|Acked(log[..i])|]
    decreases |log|
  {
    if i == |log| {
      assert log[..i] == log;
    } else {
      AckedPrefix(log[..|log| - 1], i);
      assert log[..|log| - 1][..i] == log[..i];
    }
  }

  lemma AckedNext(log: seq<Sent>, i: nat)
    requires i < |log|
    ensures Acked(log[..i + 1]) == Acked(log[..i]) + if log[i].acked then [log[i].packet] else []
  {
    assert log[..i + 1][..i] == log[..i];
  }

  /** Each transmission carries the packet that is acknowledged next. */
  lemma {:induction false} PacketAt(log: seq<Sent>, i: nat)
    requires Settled(log) && i < |log|
    ensures |Acked(log[..i])| < |Acked(log)| && log[i].packet == Acked(log)[|Acked(log[..i])|]
    decreases |log| - i
  {
    AckedNext(log, i);
    if log[i].acked {
      AckedPrefix(log, i + 1);
    } else {
      PacketAt(log, i + 1);
    }
  }

  /** In a numbered transfer its number is how many packets were acknowledged before it. */
  lemma NumberAt(log: seq<Sent>, payloads: seq<seq<byte>>, i: nat)
    requires Settled(log) && Acked(log) == Number(payloads, 0) && i < |log|
    ensures log[i].packet.no == |Acked(log[..i])|
  {
    PacketAt(log, i);
  }

  lemma AckedGrows(log: seq<Sent>, i: nat, j: nat)
    requires i <= j <= |log|
    ensures |Acked(log[..i])| <= |Acked(log[..j])|
    ensures i < j && log[i].acked ==> |Acked(log[..i])| < |Acked(log[..j])|
  {
    assert log[..j][..i] == log[..i];
    AckedPrefix(log[..j], i);
    if i < j {
      AckedNext(log, i);
      assert log[..j][..i + 1] == log[..i + 1];
      AckedPrefix(log[..j], i + 1);
    }
  }

  /** So the numbers never fall, and rise after an acknowledgement. */
  ghost predicate Rising(log: seq<Sent>) {
    forall i: nat, j: nat :: i < j < |log| ==>
      log[i].packet.no <= log[j].packet.no && (log[i].acked ==> log[i].packet.no < log[j].packet.no)
  }

  lemma NumbersRise(log: seq<Sent>, payloads: seq<seq<byte>>)
    requires Settled(log) && Acked(log) == Number(payloads, 0)
    ensures Rising(log)
  {
    forall i: nat, j: nat | i < j < |log|
      ensures log[i].packet.no <= log[j].packet.no && (log[i].acked ==> log[i].packet.no < log[j].packet.no)
    {
      NumberAt(log, payloads, i);
      NumberAt(log, payloads, j);
      AckedGrows(log, i, j);
    }
  }

  /** Exactly the replied-to transmissions. */
  ghost function Replied(log: seq<Sent>, cause: nat -> nat): set<nat> {
    set a | 0 <= a < |log| && log[a].acked :: cause(a)
  }

  lemma Coverer(log: seq<Sent>, cause: nat -> nat, i: nat) returns (a: nat)
    requires Causal(log, cause) && AllReceived(log, Replied(log, cause)) && i < |log| && log[i].acked
    ensures a < |log| && log[a].acked && log[cause(a)].packet == log[i].packet
  {
    assert ReachedSlave(log, Replied(log, cause), log[i].packet);
    var j: nat :| j < |log| && j in Replied(log, cause) && log[j].packet == log[i].packet;
    a :| 0 <= a < |log| && log[a].acked && cause(a) == j;
  }

  lemma SameNumber(log: seq<Sent>, c: nat, a: nat, i: nat)
    requires Rising(log) && c <= a < |log| && i < |log| && log[a].acked && log[i].acked
    requires log[c].packet == log[i].packet && (a > i ==> log[c].packet == log[a].packet)
    ensures a == i
  {
  }

  /** If the replied-to transmissions cover every acknowledged packet, each answers its own. */
  lemma {:induction false} CoveredAnswersOwn(log: seq<Sent>, cause: nat -> nat, i: nat)
    requires Rising(log) && Causal(log, cause) && AllReceived(log, Replied(log, cause))
    requires i < |log| && log[i].acked
    ensures log[cause(i)].packet == log[i].packet
    decreases |log| - i
  {
    var a := Coverer(log, cause, i);
    if a > i {
      CoveredAnswersOwn(log, cause, a);
    }
    SameNumber(log, cause(a), a, i);
  }

  lemma OwnAnswersReceived(log: seq<Sent>, cause: nat -> nat, arrived: set<nat>)
    requires Causal(log, cause) && AnswersOwnPacket(log, cause) && Plausible(log, cause, arrived)
    ensures AllReceived(log, arrived)
  {
    forall i: nat | i < |log| && log[i].acked
      ensures ReachedSlave(log, arrived, log[i].packet)
    {
      assert log[cause(i)].packet == log[i].packet;
    }
  }

  /** Whatever else was lost on the line, an acknowledged transfer has reached the slave exactly when
      every acknowledgement answered the packet it was taken for. */
  lemma AcknowledgedMeansReceivedIff(log: seq<Sent>, payloads: seq<seq<byte>>, cause: nat -> nat)
    requires Settled(log) && Acked(log) == Number(payloads, 0) && Causal(log, cause)
    ensures (forall arrived | Plausible(log, cause, arrived) :: AllReceived(log, arrived))
            <==> AnswersOwnPacket(log, cause)
  {
    if AnswersOwnPacket(log, cause) {
      forall arrived | Plausible(log, cause, arrived)
        ensures AllReceived(log, arrived)
      {
        OwnAnswersReceived(log, cause, arrived);
      }
    }
    if forall arrived | Plausible(log, cause, arrived) :: AllReceived(log, arrived) {
      NumbersRise(log, payloads);
      AllOwn(log, cause);
    }
  }

  lemma AllOwn(log: seq<Sent>, cause: nat -> nat)
    requires Rising(log) && Causal(log, cause)
    requires forall arrived | Plausible(log, cause, arrived) :: AllReceived(log, arrived)
    ensures AnswersOwnPacket(log, cause)
  {
    assert Plausible(log, cause, Replied(log, cause));
    forall i: nat | i < |log| && log[i].acked
      ensures log[cause(i)].packet == log[i].packet
    {
      CoveredAnswersOwn(log, cause, i);
    }
  }

  /** It does happen: the first packet's reply comes late, after it was sent again, and the second reply
      to it then stands in for the next packet, which was lost. */
  lemma LateAcknowledgementLosesPacket(first: seq<byte>, second: seq<byte>)
    ensures var log := [Sent(Packet(0, first), false), Sent(Packet(0, first), true), Sent(Packet(1, second), true)];
            && Settled(log) && Acked(log) == Number([first, second], 0)
            && Plausible(log, (i: nat) => if i == 0 then 0 else i - 1, {0, 1})
            && !ReachedSlave(log, {0, 1}, Packet(1, second))
  {
    var log := [Sent(Packet(0, first), false), Sent(Packet(0, first), true), Sent(Packet(1, second), true)];
    AckedAppend([], log[0]);
    AckedAppend([log[0]], log[1]);
    AckedAppend([log[0], log[1]], log[2]);
    assert [] + [log[0]] == [log[0]] && [log[0]] + [log[1]] == [log[0], log[1]] && [log[0], log[1]] + [log[2]] == log;
  }
}
