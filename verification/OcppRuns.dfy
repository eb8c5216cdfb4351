/** Correlation of results with requests over every run of sends, results and consumers. */
module OcppRuns {
  import opened Numerals
  import opened OcppCore

  /** Consume stands for the charging task lowering a Received flag it has acted on. */
  datatype Event = Send(slot: Slot, printed: bool) | Respond(id: string, payloadOk: bool) | Consume(slot: Slot)

  ghost function Initial(): (s: State)
    ensures Complete(s)
  {
    State(FIRST_ID, map slot: Slot | slot in ALL_SLOTS :: Entry("", false, false))
  }

  /** Core.Send and Core.Respond as one transition function. */
  ghost function Apply(s: State, e: Event): (r: State)
    requires Complete(s)
    ensures Complete(r)
  {
    match e
    case Send(slot, printed) => AfterSend(s, slot, printed)
    case Respond(id, payloadOk) =>
      s.(slots := map slot: Slot | slot in ALL_SLOTS ::
           if Takes(s.slots, id, slot) then Answered(s.slots[slot], slot, payloadOk) else s.slots[slot])
    case Consume(slot) => s.(slots := s.slots[slot := s.slots[slot].(received := false)])
  }

  ghost function Run(events: seq<Event>): (s: State)
    ensures Complete(s)
  {
    if events == [] then Initial() else Apply(Run(events[..|events| - 1]), events[|events| - 1])
  }

  /** The id the run's k-th event issues, if it is a send. */
  ghost function Issued(events: seq<Event>, k: nat): string
    requires k < |events|
  {
    Decimal(Run(events[..k]).randomNumber)
  }

  /** The position of the latest send for the slot, -1 before the first. */
  ghost function Latest(events: seq<Event>, slot: Slot): (k: int)
    ensures -1 <= k < |events|
    ensures k >= 0 ==> events[k].Send? && events[k].slot == slot
    ensures forall j :: k < j < |events| ==> !(events[j].Send? && events[j].slot == slot)
  {
    if events == [] then -1
    else
      var last := |events| - 1;
      if events[last].Send? && events[last].slot == slot then last else Latest(events[..last], slot)
  }

  lemma ApplyAtSlot(s: State, e: Event, slot: Slot)
    requires Complete(s)
    ensures Apply(s, e).slots[slot] ==
            match e
            case Send(x, _) => if x == slot then AfterSend(s, x, e.printed).slots[x] else s.slots[slot]
            case Respond(id, ok) => if Takes(s.slots, id, slot) then Answered(s.slots[slot], slot, ok) else s.slots[slot]
            case Consume(x) => if x == slot then s.slots[slot].(received := false) else s.slots[slot]
  {
  }

  lemma CounterStep(s: State, e: Event)
    requires Complete(s)
    ensures Apply(s, e).randomNumber == s.randomNumber + if e.Send? then 1 else 0
  {
  }

  lemma {:induction false} CounterGrows(events: seq<Event>, k: nat)
    requires k <= |events|
    ensures Run(events[..k]).randomNumber <= Run(events).randomNumber
    ensures k < |events| && events[k].Send? ==> Run(events[..k]).randomNumber < Run(events).randomNumber
    decreases |events|
  {
    if k == |events| {
      assert events[..k] == events;
    } else {
      var init := events[..|events| - 1];
      assert init[..k] == events[..k];
      CounterGrows(init, k);
      CounterStep(Run(init), events[|events| - 1]);
    }
  }

  /** No two sends ever issue the same id, and no id is empty. */
  lemma IdsNeverReused(events: seq<Event>, j: nat, k: nat)
    requires j < k < |events| && events[j].Send? && events[k].Send?
    ensures Issued(events, j) != Issued(events, k)
  {
    assert events[..k][..j] == events[..j];
    CounterGrows(events[..k], j);
    if Issued(events, j) == Issued(events, k) {
      DecimalInjective(Run(events[..j]).randomNumber, Run(events[..k]).randomNumber);
    }
  }

  /** A slot holds the id of its latest request, and nothing before its first. */
  lemma {:induction false} SlotHoldsLatestId(events: seq<Event>, slot: Slot)
    ensures var k := Latest(events, slot);
            Run(events).slots[slot].uniqId == if k < 0 then "" else Issued(events, k)
  {
    if events != [] {
      var n := |events| - 1;
      var init := events[..n];
      SlotHoldsLatestId(init, slot);
      ApplyAtSlot(Run(init), events[n], slot);
      var k := Latest(init, slot);
      assert k >= 0 ==> init[..k] == events[..k];
    }
  }

  /** Ids held in different slots differ. */
  lemma SlotIdsDistinct(events: seq<Event>, a: Slot, b: Slot)
    requires a != b && Run(events).slots[a].uniqId != ""
    ensures Run(events).slots[a].uniqId != Run(events).slots[b].uniqId
  {
    SlotHoldsLatestId(events, a);
    SlotHoldsLatestId(events, b);
    var j, k := Latest(events, a), Latest(events, b);
    if k >= 0 {
      IdsNeverReused(events, if j < k then j else k, if j < k then k else j);
    }
  }

  /** A result carrying the id of a slot's latest request changes that slot, as its payload says, and
      nothing else. Diagnostics results are ignored. */
  lemma ResultReachesItsRequest(events: seq<Event>, slot: Slot, payloadOk: bool)
    requires Latest(events, slot) >= 0
    ensures var s := Run(events);
            Apply(s, Respond(Issued(events, Latest(events, slot)), payloadOk)).slots ==
            if slot.kind.DiagnosticsStatus? then s.slots
            else s.slots[slot := Answered(s.slots[slot], slot, payloadOk)]
  {
    SlotHoldsLatestId(events, slot);
    var s := Run(events);
    forall other: Slot | other != slot
      ensures s.slots[other].uniqId != s.slots[slot].uniqId
    {
      SlotIdsDistinct(events, slot, other);
    }
    UniqueTaker(s, slot, payloadOk);
  }

  lemma UniqueTaker(s: State, slot: Slot, payloadOk: bool)
    requires Complete(s)
    requires forall other: Slot :: other != slot ==> s.slots[other].uniqId != s.slots[slot].uniqId
    ensures Apply(s, Respond(s.slots[slot].uniqId, payloadOk)).slots ==
            if slot.kind.DiagnosticsStatus? then s.slots
            else s.slots[slot := Answered(s.slots[slot], slot, payloadOk)]
  {
    SlotsComplete(s);
    assert Rank(slot) < CASCADE_END <==> !slot.kind.Heartbeat? && !slot.kind.DiagnosticsStatus?;
    assert Takes(s.slots, s.slots[slot].uniqId, slot) <==> !slot.kind.DiagnosticsStatus?;
  }

  /** What a send changes: the id, and when it is printed Sent, and Received for exactly four kinds. */
  lemma SendEffect(s: State, slot: Slot, printed: bool)
    requires Complete(s)
    ensures var before, after := s.slots[slot], Apply(s, Send(slot, printed)).slots[slot];
            && after.uniqId == Decimal(s.randomNumber) && after.sent == (before.sent || printed)
            && (printed && slot.kind in {MeterValues, Authorize, StartTransaction, StopTransaction} ==> !after.received)
            && (printed && slot.kind in {Boot, Status, FirmwareStatus, Heartbeat, DiagnosticsStatus} ==>
                  after.received == before.received)
            && (!printed ==> after.received == before.received)
    ensures forall other: Slot :: other != slot ==> Apply(s, Send(slot, printed)).slots[other] == s.slots[other]
  {
  }

  /** What a result to a slot's latest request makes of Received: up for three kinds whatever the payload,
      for five others as the payload says, and unchanged for diagnostics. */
  lemma ResultEffect(events: seq<Event>, slot: Slot, payloadOk: bool)
    requires Latest(events, slot) >= 0
    ensures var before := Run(events).slots[slot];
            var after := Apply(Run(events), Respond(Issued(events, Latest(events, slot)), payloadOk)).slots[slot];
            match slot.kind
            case Status => after.received
            case MeterValues => after.received
            case FirmwareStatus => after.received
            case DiagnosticsStatus => after.received == before.received
            case _ => after.received == payloadOk
  {
    ResultReachesItsRequest(events, slot, payloadOk);
  }

  /** The state maps have exactly the slots as keys. */
  lemma SlotsComplete(s: State)
    requires Complete(s)
    ensures s.slots.Keys == ALL_SLOTS
  {
    assert forall slot :: slot in s.slots ==> slot in ALL_SLOTS;
  }

  /** The id is that of some slot's latest request. */
  ghost predicate IsLatestId(events: seq<Event>, id: string) {
    exists slot: Slot :: Latest(events, slot) >= 0 && Issued(events, Latest(events, slot)) == id
  }

  /** A non-empty id that is no slot's latest one changes nothing. */
  lemma OtherResultsIgnored(events: seq<Event>, id: string, payloadOk: bool)
    requires id != "" && !IsLatestId(events, id)
    ensures Apply(Run(events), Respond(id, payloadOk)) == Run(events)
  {
    var s := Run(events);
    forall slot: Slot
      ensures s.slots[slot].uniqId != id
    {
      SlotHoldsLatestId(events, slot);
    }
    SlotsComplete(s);
  }

  /** An id is out of date as soon as its slot has sent again. */
  lemma SupersededIdIsStale(events: seq<Event>, j: nat)
    requires j < |events| && events[j].Send?
    ensures IsLatestId(events, Issued(events, j)) <==> j == Latest(events, events[j].slot)
  {
    forall slot: Slot | Latest(events, slot) >= 0 && Latest(events, slot) != j
      ensures Issued(events, Latest(events, slot)) != Issued(events, j)
    {
      var m := Latest(events, slot);
      IdsNeverReused(events, if m < j then m else j, if m < j then j else m);
    }
  }

  /** Event j is a result that this slot took, with the id it held then, after its latest printed
      request. */
  ghost predicate AnsweredAt(events: seq<Event>, slot: Slot, j: nat) {
    && j < |events| && events[j].Respond?
    && Run(events[..j]).slots[slot].uniqId == events[j].id
    && (slot.kind.MeterValues? || events[j].payloadOk)
    && forall i :: j < i < |events| ==> !(events[i].Send? && events[i].slot == slot && events[i].printed)
  }

  lemma AnsweredEarlier(events: seq<Event>, slot: Slot, j: nat)
    requires events != [] && AnsweredAt(events[..|events| - 1], slot, j)
    requires var e := events[|events| - 1]; !(e.Send? && e.slot == slot && e.printed)
    ensures AnsweredAt(events, slot, j)
  {
    assert events[..|events| - 1][..j] == events[..j];
  }

  /** Received means a result was taken after the slot's latest printed request. */
  lemma {:induction false} ReceivedMeansAnswered(events: seq<Event>, slot: Slot) returns (j: nat)
    requires slot.kind in {MeterValues, Authorize, StartTransaction, StopTransaction} && Run(events).slots[slot].received
    ensures AnsweredAt(events, slot, j)
  {
    if events == [] {
      assert false;
    }
    var n := |events| - 1;
    var init, e := events[..n], events[n];
    ApplyAtSlot(Run(init), e, slot);
    if e.Respond? && Takes(Run(init).slots, e.id, slot) {
      j := n;
    } else {
      j := ReceivedMeansAnswered(init, slot);
      AnsweredEarlier(events, slot, j);
    }
  }

  /** Event i lowers the slot's Received while it waits under this id: the charging task consumed it, or
      a result came without the fields its handler wants. */
  ghost predicate LoweredBy(e: Event, slot: Slot, id: string) {
    e == Consume(slot) || (e.Respond? && e.id == id && !slot.kind.MeterValues? && !e.payloadOk)
  }

  /** Nothing from event i on lowers it. */
  ghost predicate Stands(events: seq<Event>, slot: Slot, id: string, i: nat) {
    forall n :: i <= n < |events| ==> !LoweredBy(events[n], slot, id)
  }

  /** Event j is a good result under this id, after event k, that still stands. */
  ghost predicate StandingAnswer(events: seq<Event>, slot: Slot, id: string, k: int, j: nat) {
    && k < j < |events| && events[j].Respond? && events[j].id == id
    && (slot.kind.MeterValues? || events[j].payloadOk) && Stands(events, slot, id, j)
  }

  /** An unprinted request found Received up, and nothing has lowered it since. */
  ghost predicate LeftOver(events: seq<Event>, slot: Slot, id: string, k: nat) {
    k < |events| && events[k].Send? && !events[k].printed && Run(events[..k]).slots[slot].received && Stands(events, slot, id, k)
  }

  ghost predicate Up(events: seq<Event>, slot: Slot, id: string, k: nat) {
    (exists j: nat :: StandingAnswer(events, slot, id, k, j)) || LeftOver(events, slot, id, k)
  }

  lemma UpAfterEvent(init: seq<Event>, e: Event, slot: Slot, id: string, k: nat)
    requires k < |init|
    ensures Up(init + [e], slot, id, k) <==>
            !LoweredBy(e, slot, id) && (Up(init, slot, id, k) || (e.Respond? && e.id == id))
  {
    var events := init + [e];
    assert events[..k] == init[..k] && events[|init|] == e;
    forall i: nat | i <= |init|
      ensures Stands(events, slot, id, i) <==> Stands(init, slot, id, i) && !LoweredBy(e, slot, id)
    {
      assert !LoweredBy(e, slot, id) <== Stands(events, slot, id, i);
      assert forall n :: i <= n < |init| ==> events[n] == init[n];
    }
    assert LeftOver(events, slot, id, k) <==> LeftOver(init, slot, id, k) && !LoweredBy(e, slot, id);
    forall j: nat | j < |init|
      ensures StandingAnswer(events, slot, id, k, j) <==> StandingAnswer(init, slot, id, k, j) && !LoweredBy(e, slot, id)
    {
    }
    assert StandingAnswer(events, slot, id, k, |init|) <==> e.Respond? && e.id == id && !LoweredBy(e, slot, id);
  }

  /** One more event, other than a send for the slot. */
  lemma ReceivedAfterEvent(init: seq<Event>, e: Event, slot: Slot)
    requires slot.kind in {MeterValues, Authorize, StartTransaction, StopTransaction} && Latest(init, slot) >= 0 && !(e.Send? && e.slot == slot)
    ensures var id := Issued(init, Latest(init, slot));
            Apply(Run(init), e).slots[slot].received <==>
            !LoweredBy(e, slot, id) && (Run(init).slots[slot].received || (e.Respond? && e.id == id))
  {
    var s := Run(init);
    ApplyAtSlot(s, e, slot);
    SlotHoldsLatestId(init, slot);
    if e.Respond? && e.id == Issued(init, Latest(init, slot)) {
      ResultReachesItsRequest(init, slot, e.payloadOk);
    }
  }

  /** Exactly when Received is up: a good result to the latest request still stands, or that request was
      not printed and left an older Received standing. */
  lemma {:induction false} ReceivedIff(events: seq<Event>, slot: Slot)
    requires slot.kind in {MeterValues, Authorize, StartTransaction, StopTransaction} && Latest(events, slot) >= 0
    ensures var k := Latest(events, slot);
            Run(events).slots[slot].received <==> Up(events, slot, Issued(events, k), k)
  {
    var k := Latest(events, slot);
    var init, e := events[..|events| - 1], events[|events| - 1];
    if k < |init| {
      ReceivedIff(init, slot);
      assert init[..k] == events[..k] && init + [e] == events;
      UpAfterEvent(init, e, slot, Issued(events, k), k);
      ReceivedAfterEvent(init, e, slot);
    } else {
      ApplyAtSlot(Run(init), e, slot);
      assert Stands(events, slot, Issued(events, k), k);
    }
  }

  /** When the slot's latest request was printed, Received on an Authorize, StartTransaction,
      StopTransaction or MeterValues slot means that very request was answered, whatever happened to
      other requests and whatever else the server sent. */
  lemma ReceivedMeansLatestAnswered(events: seq<Event>, slot: Slot) returns (j: nat)
    requires slot.kind in {MeterValues, Authorize, StartTransaction, StopTransaction} && Run(events).slots[slot].received
    requires var k := Latest(events, slot); k >= 0 && events[k].printed
    ensures var k := Latest(events, slot);
            StandingAnswer(events, slot, Issued(events, k), k, j)
  {
    ReceivedIff(events, slot);
    var k := Latest(events, slot);
    j :| StandingAnswer(events, slot, Issued(events, k), k, j);
  }

  ghost predicate NoSend(events: seq<Event>, slot: Slot) {
    forall e :: e in events ==> !(e.Send? && e.slot == slot)
  }

  /** Received now means a good result to the request sent as event k. */
  ghost predicate Truthful(events: seq<Event>, slot: Slot, k: nat)
    requires k < |events|
  {
    Run(events).slots[slot].received ==> exists j: nat :: StandingAnswer(events, slot, Issued(events, k), k, j)
  }

  lemma LatestAfterSend(before: seq<Event>, slot: Slot, printed: bool, later: seq<Event>)
    requires NoSend(later, slot)
    ensures Latest(before + [Send(slot, printed)] + later, slot) == |before|
  {
    var events := before + [Send(slot, printed)] + later;
    assert events[|before|] == Send(slot, printed);
    forall i | |before| < i < |events|
      ensures !(events[i].Send? && events[i].slot == slot)
    {
      assert events[i] == later[i - |before| - 1];
    }
  }

  lemma TruthfulAfterSend(before: seq<Event>, slot: Slot, printed: bool, later: seq<Event>)
    requires slot.kind in {MeterValues, Authorize, StartTransaction, StopTransaction} && NoSend(later, slot)
    requires printed || !Run(before).slots[slot].received
    ensures Truthful(before + [Send(slot, printed)] + later, slot, |before|)
  {
    var events := before + [Send(slot, printed)] + later;
    LatestAfterSend(before, slot, printed, later);
    ReceivedIff(events, slot);
    assert events[|before|] == Send(slot, printed) && events[..|before|] == before;
  }

  lemma LeftOverAfterSend(before: seq<Event>, slot: Slot, printed: bool)
    requires slot.kind in {MeterValues, Authorize, StartTransaction, StopTransaction} && Truthful(before + [Send(slot, printed)], slot, |before|)
    ensures printed || !Run(before).slots[slot].received
  {
    var now := before + [Send(slot, printed)];
    assert now[..|before|] == before;
    ApplyAtSlot(Run(before), Send(slot, printed), slot);
    assert forall j: nat :: !StandingAnswer(now, slot, Issued(now, |before|), |before|, j);
  }

  /** Whatever follows a request, until its slot sends again, Received means a good result to it: that
      can be relied on exactly when the request was printed or found Received down. */
  lemma ReceivedTrustedIff(before: seq<Event>, slot: Slot, printed: bool)
    requires slot.kind in {MeterValues, Authorize, StartTransaction, StopTransaction}
    ensures (forall later: seq<Event> | NoSend(later, slot) ::
               Truthful(before + [Send(slot, printed)] + later, slot, |before|))
            <==> printed || !Run(before).slots[slot].received
  {
    if printed || !Run(before).slots[slot].received {
      forall later: seq<Event> | NoSend(later, slot)
        ensures Truthful(before + [Send(slot, printed)] + later, slot, |before|)
      {
        TruthfulAfterSend(before, slot, printed, later);
      }
    }
    if forall later: seq<Event> | NoSend(later, slot) ::
         Truthful(before + [Send(slot, printed)] + later, slot, |before|)
    {
      var none: seq<Event> := [];
      assert before + [Send(slot, printed)] + none == before + [Send(slot, printed)];
      assert NoSend(none, slot);
      LeftOverAfterSend(before, slot, printed);
    }
  }

  /** What is left over was the answer to an older request: a result under the id the slot held before. */
  lemma LeftOverIsOlderAnswer(events: seq<Event>, slot: Slot, k: nat) returns (j: nat)
    requires slot.kind in {MeterValues, Authorize, StartTransaction, StopTransaction} && k < |events| && events[k] == Send(slot, false)
    requires LeftOver(events, slot, Issued(events, k), k)
    ensures j < k && events[j].Respond? && events[j].id == Run(events[..j]).slots[slot].uniqId != Issued(events, k)
  {
    j := ReceivedMeansAnswered(events[..k], slot);
    assert events[..k][..j] == events[..j];
    SlotHoldsLatestId(events[..j], slot);
    var m := Latest(events[..j], slot);
    if m >= 0 {
      assert events[..j][..m] == events[..m];
      IdsNeverReused(events, m, k);
    }
  }

  /** It does happen: a request whose JSON could not be printed takes a new id but leaves the old Received
      standing. */
  lemma UnprintedRequestLooksAnswered()
    ensures var slot := Slot(Authorize, 1);
            var events := [Send(slot, true), Respond(Decimal(FIRST_ID), true), Send(slot, false)];
            Run(events).slots[slot].received && Latest(events, slot) == 2
  {
    var slot: Slot := Slot(Authorize, 1);
    var sent := [Send(slot, true)];
    var answered := sent + [Respond(Decimal(FIRST_ID), true)];
    var events := answered + [Send(slot, false)];
    assert sent[..0] == [] && answered[..1] == sent && events[..2] == answered;
    ResultReachesItsRequest(sent, slot, true);
    ApplyAtSlot(Run(answered), events[2], slot);
    assert events == [Send(slot, true), Respond(Decimal(FIRST_ID), true), Send(slot, false)];
  }
}
