/**
 Sending the slave its image: downloaded pieces are cut into packets, each packet is sent again until
 the slave acknowledges it, and the next packet has the next number.
 */
module SlaveTransfer {

  import opened Basics

  const PACKET_SIZE: nat := 200

  /** One result of the HTTP client: some bytes, none at the end, or an error event. */
  datatype Read = Data(bytes: seq<byte>) | ClientError

  datatype Packet = Packet(no: nat, payload: seq<byte>)

  /** One call of sendFirmwareData and what it returned. */
  datatype Sent = Sent(packet: Packet, acked: bool)

  function Chunks(data: seq<byte>): seq<seq<byte>> {
    if data == [] then []
    else if |data| <= PACKET_SIZE then [data]
    else [data[..PACKET_SIZE]] + Chunks(data[PACKET_SIZE..])
  }

  function Number(payloads: seq<seq<byte>>, first: nat): seq<Packet> {
    seq(|payloads|, i requires 0 <= i < |payloads| => Packet(first + i, payloads[i]))
  }

  /** The packets acknowledged, in order. */
  function Acked(log: seq<Sent>): seq<Packet> {
    if log == [] then []
    else Acked(log[..|log| - 1]) + if log[|log| - 1].acked then [log[|log| - 1].packet] else []
  }

  /** A transmission without an acknowledgement is followed by the same packet again. */
  ghost predicate Repeats(log: seq<Sent>) {
    forall i :: 0 <= i < |log| - 1 ==> log[i].acked || log[i + 1].packet == log[i].packet
  }

  /** The packet may be sent next. */
  ghost predicate Trying(log: seq<Sent>, packet: Packet) {
    Repeats(log) && (log != [] && !log[|log| - 1].acked ==> log[|log| - 1].packet == packet)
  }

  /** ... until the acknowledgement comes. */
  ghost predicate Settled(log: seq<Sent>) {
    Repeats(log) && (log != [] ==> log[|log| - 1].acked)
  }

  /** The pieces that are passed on: up to an error, an empty read, or the announced length. */
  function PassedOn(pieces: seq<Read>, done: nat, fileLength: nat): seq<seq<byte>> {
    if pieces == [] || pieces[0].ClientError? || pieces[0].bytes == [] then []
    else if done + |pieces[0].bytes| >= fileLength then [pieces[0].bytes]
    else [pieces[0].bytes] + PassedOn(pieces[1..], done + |pieces[0].bytes|, fileLength)
  }

  lemma AckedAppend(log: seq<Sent>, s: Sent)
    ensures Acked(log + [s]) == Acked(log) + if s.acked then [s.packet] else []
  {
    assert (log + [s])[..|log|] == log;
  }

  lemma RepeatsAppend(log: seq<Sent>, s: Sent)
    requires Trying(log, s.packet)
    ensures Trying(log + [s], s.packet) && (s.acked ==> Settled(log + [s]))
  {
    var next := log + [s];
    forall i | 0 <= i < |next| - 1
      ensures next[i].acked || next[i + 1].packet == next[i].packet
    {
      assert next[i] == log[i];
      assert i + 1 < |log| ==> next[i + 1] == log[i + 1];
    }
  }

  lemma {:induction false} ChunksRebuild(data: seq<byte>)
    ensures Flatten(Chunks(data)) == data
    ensures forall c :: c in Chunks(data) ==> 1 <= |c| <= PACKET_SIZE
    decreases |data|
  {
    if data == [] {
    } else if |data| <= PACKET_SIZE {
      FlattenSingle(data);
    } else {
      var head, rest := data[..PACKET_SIZE], data[PACKET_SIZE..];
      ChunksRebuild(rest);
      FlattenConcat([head], Chunks(rest));
      FlattenSingle(head);
    }
  }

  /** All packets of a buffer but the last carry 200 bytes. */
  lemma {:induction false} PacketsAreFull(data: seq<byte>)
    ensures forall k :: 0 <= k < |Chunks(data)| - 1 ==> |Chunks(data)[k]| == 200
    decreases |data|
  {
    if |data| > PACKET_SIZE {
      PacketsAreFull(data[PACKET_SIZE..]);
    }
  }

  lemma FlattenFirst(first: seq<byte>, rest: seq<seq<byte>>, k: nat)
    requires k <= |rest|
    ensures |Flatten(([first] + rest)[..k + 1])| == |first| + |Flatten(rest[..k])|
  {
    assert ([first] + rest)[..k + 1] == [first] + rest[..k];
    FlattenConcat([first], rest[..k]);
    FlattenSingle(first);
  }

  /** The first pieces, all bytes and none of them empty, and never more once the announced length is
      reached. */
  ghost predicate PassedFrom(passed: seq<seq<byte>>, pieces: seq<Read>, done: nat, fileLength: nat) {
    && |passed| <= |pieces|
    && (forall k :: 0 <= k < |passed| ==> pieces[k] == Data(passed[k]) && passed[k] != [])
    && forall k: nat :: 0 < k < |passed| ==> done + |Flatten(passed[..k])| < fileLength
  }

  /** After them the pieces end, or one is empty or an error, or the length is reached. */
  ghost predicate PassedAll(passed: seq<seq<byte>>, pieces: seq<Read>, done: nat, fileLength: nat)
    requires |passed| <= |pieces|
  {
    var n := |passed|;
    || n == |pieces| || pieces[n] == ClientError || pieces[n] == Data([])
    || (n > 0 && done + |Flatten(passed)| >= fileLength)
  }

  lemma PassedFromOneMore(first: seq<byte>, rest: seq<seq<byte>>, pieces: seq<Read>, done: nat, fileLength: nat)
    requires pieces != [] && pieces[0] == Data(first) && first != [] && done + |first| < fileLength
    requires PassedFrom(rest, pieces[1..], done + |first|, fileLength)
    ensures PassedFrom([first] + rest, pieces, done, fileLength)
  {
    var passed := [first] + rest;
    forall k: nat | 0 < k < |passed|
      ensures done + |Flatten(passed[..k])| < fileLength
    {
      FlattenFirst(first, rest, k - 1);
      if k == 1 {
        assert rest[..0] == [];
      }
    }
    forall k | 0 <= k < |passed|
      ensures pieces[k] == Data(passed[k]) && passed[k] != []
    {
      if k > 0 {
        assert pieces[1..][k - 1] == pieces[k] && passed[k] == rest[k - 1];
      }
    }
  }

  lemma PassedAllOneMore(first: seq<byte>, rest: seq<seq<byte>>, pieces: seq<Read>, done: nat, fileLength: nat)
    requires |rest| < |pieces| && PassedAll(rest, pieces[1..], done + |first|, fileLength)
    ensures PassedAll([first] + rest, pieces, done, fileLength)
  {
    FlattenFirst(first, rest, |rest|);
    assert ([first] + rest)[..|rest| + 1] == [first] + rest && rest[..|rest|] == rest;
  }

  /** Which pieces are passed on; the piece that reaches the announced length still is. */
  lemma {:induction false} PassedOnMeans(pieces: seq<Read>, done: nat, fileLength: nat)
    ensures PassedFrom(PassedOn(pieces, done, fileLength), pieces, done, fileLength)
    ensures PassedAll(PassedOn(pieces, done, fileLength), pieces, done, fileLength)
    decreases |pieces|
  {
    var passed := PassedOn(pieces, done, fileLength);
    if passed != [] {
      var first := passed[0];
      if done + |first| < fileLength {
        PassedOnMeans(pieces[1..], done + |first|, fileLength);
        PassedFromOneMore(first, PassedOn(pieces[1..], done + |first|, fileLength), pieces, done, fileLength);
        PassedAllOneMore(first, PassedOn(pieces[1..], done + |first|, fileLength), pieces, done, fileLength);
      } else {
        FlattenSingle(first);
      }
    }
  }

  lemma ChunksStep(data: seq<byte>, n: nat)
    requires data != [] && n == if |data| > PACKET_SIZE then PACKET_SIZE else |data|
    ensures Chunks(data) == [data[..n]] + Chunks(data[n..])
  {
    if |data| <= PACKET_SIZE {
      assert data[..n] == data && data[n..] == [];
    }
  }

  lemma NumberConcat(s: seq<seq<byte>>, t: seq<seq<byte>>, first: nat)
    ensures Number(s + t, first) == Number(s, first) + Number(t, first + |s|)
  {
  }

  /** The first bytes of the buffer have been cut into these packets. */
  ghost predicate CutUpTo(buffer: seq<byte>, sent: nat, cut: seq<seq<byte>>) {
    sent <= |buffer| && cut + Chunks(buffer[sent..]) == Chunks(buffer)
  }

  lemma CutStep(buffer: seq<byte>, sent: nat, cut: seq<seq<byte>>, n: nat)
    requires CutUpTo(buffer, sent, cut) && sent < |buffer|
    requires n == if |buffer| - sent > PACKET_SIZE then PACKET_SIZE else |buffer| - sent
    ensures CutUpTo(buffer, sent + n, cut + [buffer[sent..sent + n]])
  {
    var rest := buffer[sent..];
    ChunksStep(rest, n);
    assert rest[..n] == buffer[sent..sent + n] && rest[n..] == buffer[sent + n..];
    assert cut + ([rest[..n]] + Chunks(rest[n..])) == (cut + [rest[..n]]) + Chunks(rest[n..]);
  }

  /** With some buffers passed on, the rest of the pieces decides what else will be. */
  ghost predicate Ahead(passed: seq<seq<byte>>, pieces: seq<Read>, k: nat, done: nat, fileLength: nat) {
    k <= |pieces| && passed + PassedOn(pieces[k..], done, fileLength) == PassedOn(pieces, 0, fileLength)
  }

  lemma AheadStep(passed: seq<seq<byte>>, pieces: seq<Read>, k: nat, done: nat, fileLength: nat)
    requires Ahead(passed, pieces, k, done, fileLength)
    ensures if k == |pieces| || pieces[k].ClientError? || pieces[k].bytes == [] then
              passed == PassedOn(pieces, 0, fileLength)
            else
              var next := done + |pieces[k].bytes|;
              if next >= fileLength then passed + [pieces[k].bytes] == PassedOn(pieces, 0, fileLength)
              else Ahead(passed + [pieces[k].bytes], pieces, k + 1, next, fileLength)
  {
    if k < |pieces| {
      assert pieces[k..][1..] == pieces[k + 1..];
    }
  }

  /** The payloads are the buffers passed on, cut into packets of 1 to 200 bytes. */
  ghost predicate Accounted(payloads: seq<seq<byte>>, passed: seq<seq<byte>>) {
    Flatten(payloads) == Flatten(passed) && forall p :: p in payloads ==> 1 <= |p| <= PACKET_SIZE
  }

  lemma AccountForBuffer(payloads: seq<seq<byte>>, passed: seq<seq<byte>>, data: seq<byte>)
    requires Accounted(payloads, passed)
    ensures Accounted(payloads + Chunks(data), passed + [data])
    ensures |Flatten(passed + [data])| == |Flatten(passed)| + |data|
  {
    ChunksRebuild(data);
    FlattenConcat(payloads, Chunks(data));
    assert (passed + [data])[..|passed|] == passed;
  }

  class Transfer {
    /** Transmissions so far. */
    var log: seq<Sent>
    /** The next packet number. */
    var count: nat
    var downloaded: nat

    constructor ()
      ensures log == [] && count == 0 && downloaded == 0
    {
      log, count, downloaded := [], 0, 0;
    }

    /** The innermost loop: send the packet until it is acknowledged, here after `misses` attempts. */
    method SendPacket(payload: seq<byte>, misses: nat)
      requires Settled(log)
      modifies this
      ensures Settled(log)
      ensures Acked(log) == old(Acked(log)) + [Packet(old(count), payload)]
      ensures |log| == |old(log)| + misses + 1
      ensures count == old(count) + 1 && downloaded == old(downloaded)
    {
      var packet := Packet(count, payload);
      var failed := 0;
      while failed < misses
        invariant failed <= misses && |log| == |old(log)| + failed
        invariant Acked(log) == old(Acked(log)) && count == old(count) && downloaded == old(downloaded)
        invariant Trying(log, packet)
      {
        RepeatsAppend(log, Sent(packet, false));
        AckedAppend(log, Sent(packet, false));
        log := log + [Sent(packet, false)];
        failed := failed + 1;
      }
      AckedAppend(log, Sent(packet, true));
      RepeatsAppend(log, Sent(packet, true));
      log := log + [Sent(packet, true)];
      count := count + 1;
    }

    /** Since there were `before` acknowledged packets, these payloads have been acknowledged too, numbered
        on from `first`. */
    ghost predicate Sending(before: seq<Packet>, first: nat, payloads: seq<seq<byte>>)
      reads this
    {
      Settled(log) && count == first + |payloads| && Acked(log) == before + Number(payloads, first)
    }

    method SendNext(payload: seq<byte>, misses: nat, ghost before: seq<Packet>, ghost first: nat,
                    ghost payloads: seq<seq<byte>>)
      requires Sending(before, first, payloads)
      modifies this
      ensures Sending(before, first, payloads + [payload]) && downloaded == old(downloaded)
    {
      NumberConcat(payloads, [payload], first);
      ConcatAssociative(before, Number(payloads, first), Number([payload], first + |payloads|));
      SendPacket(payload, misses);
    }

    /** One download buffer, cut into packets. */
    method SendBuffer(buffer: seq<byte>, misses: nat -> nat)
      requires Settled(log)
      modifies this
      ensures Sending(old(Acked(log)), old(count), Chunks(buffer)) && downloaded == old(downloaded)
    {
      var sent := 0;
      ghost var cut: seq<seq<byte>> := [];
      while sent < |buffer|
        invariant CutUpTo(buffer, sent, cut)
        invariant Sending(old(Acked(log)), old(count), cut) && downloaded == old(downloaded)
      {
        var toSend := if |buffer| - sent > PACKET_SIZE then PACKET_SIZE else |buffer| - sent;
        CutStep(buffer, sent, cut, toSend);
        var payload := buffer[sent..sent + toSend];
        SendNext(payload, misses(count), old(Acked(log)), old(count), cut);
        cut := cut + [payload];
        sent := sent + toSend;
      }
      assert cut == Chunks(buffer);
    }

    /** What has been acknowledged is the packets of what was passed on, numbered from 0. */
    ghost predicate Consistent(payloads: seq<seq<byte>>, passed: seq<seq<byte>>)
      reads this
    {
      && Settled(log)
      && Acked(log) == Number(payloads, 0) && count == |payloads|
      && Accounted(payloads, passed) && downloaded == |Flatten(passed)|
    }

    method PassBuffer(data: seq<byte>, misses: nat -> nat,
                      ghost payloads: seq<seq<byte>>, ghost passed: seq<seq<byte>>)
      returns (ghost payloads': seq<seq<byte>>)
      requires Consistent(payloads, passed)
      modifies this
      ensures Consistent(payloads', passed + [data])
      ensures downloaded == old(downloaded) + |data|
    {
      NumberConcat(payloads, Chunks(data), 0);
      AccountForBuffer(payloads, passed, data);
      SendBuffer(data, misses);
      downloaded := downloaded + |data|;
      payloads' := payloads + Chunks(data);
    }

    /** The download loop of PerformSlaveOta. fileLength is the announced length as the unsigned number
        it is compared as; once the pieces are used up the client returns nothing. */
    method Run(pieces: seq<Read>, misses: nat -> nat, fileLength: nat) returns (ghost payloads: seq<seq<byte>>)
      requires log == [] && count == 0 && downloaded == 0
      modifies this
      ensures Settled(log)
      ensures Acked(log) == Number(payloads, 0)
      ensures Accounted(payloads, PassedOn(pieces, 0, fileLength))
      ensures downloaded == |Flatten(payloads)|
    {
      payloads := Download(pieces, misses, fileLength);
    }

    method Download(pieces: seq<Read>, misses: nat -> nat, fileLength: nat) returns (ghost payloads: seq<seq<byte>>)
      requires Consistent([], []) && downloaded == 0
      modifies this
      ensures Consistent(payloads, PassedOn(pieces, 0, fileLength))
    {
      var k := 0;
      ghost var passed: seq<seq<byte>> := [];
      payloads := [];
      while true
        invariant Ahead(passed, pieces, k, downloaded, fileLength)
        invariant Consistent(payloads, passed)
        decreases |pieces| - k
      {
        AheadStep(passed, pieces, k, downloaded, fileLength);
        if k == |pieces| || pieces[k].ClientError? {
          break;
        }
        var data := pieces[k].bytes;
        k := k + 1;
        if |data| > 0 {
          payloads := PassBuffer(data, misses, payloads, passed);
          passed := passed + [data];
        }
        if downloaded >= fileLength || |data| == 0 {
          break;
        }
      }
    }
  }
}
