/**
 OCPP requests and their results: message ids are drawn from a counter, kept in the slot of the latest
 request of each kind and connector, and matched by a cascade when a CALLRESULT arrives.
 */
module OcppCore {
  import opened Basics
  import opened Numerals

  datatype Kind =
    | Boot | Status | MeterValues | Authorize | StartTransaction | StopTransaction | FirmwareStatus
    | Heartbeat | DiagnosticsStatus

  predicate PerConnector(kind: Kind) {
    kind.Status? || kind.MeterValues? || kind.Authorize? || kind.StartTransaction? || kind.StopTransaction?
  }

  /** A request structure: one per kind, or one per kind and connector. */
  datatype AnySlot = Slot(kind: Kind, conn: int)

  type Slot = s: AnySlot | IsSlot(s) witness Slot(Boot, 0)

  predicate IsSlot(s: AnySlot) {
    0 <= s.conn < if PerConnector(s.kind) then NUM_OF_CONNECTORS else 1
  }

  const ALL_SLOTS: set<Slot> :=
    set kind: Kind, conn: int | 0 <= conn < NUM_OF_CONNECTORS && IsSlot(Slot(kind, conn)) :: Slot(kind, conn)

  /** uniqId and Sent of the request, Received of its response. */
  datatype Entry = Entry(uniqId: string, sent: bool, received: bool)

  const FIRST_ID: nat := 100
  /** Ids stay below this so that they fit in CP_MESSAGEID_LENGTH characters. */
  const ID_LIMIT: nat := 1_000_000_000
  const CP_MESSAGEID_LENGTH: nat := 10

  datatype State = State(randomNumber: nat, slots: map<Slot, Entry>)

  ghost predicate Complete(s: State) {
    forall slot: Slot :: slot in s.slots
  }

  /** These requests lower Received when they are sent. */
  predicate LowersReceived(slot: Slot) {
    slot.kind in {MeterValues, Authorize, StartTransaction, StopTransaction}
  }

  /** For these slots any result counts; for the others the payload decides. */
  predicate AnyPayload(slot: Slot) {
    slot.kind in {Status, MeterValues, FirmwareStatus}
  }

  /** Position of a kind's first slot in the cascade; the heartbeat is compared before it, diagnostics
      results nowhere. */
  function FirstRank(kind: Kind): nat {
    match kind
    case Boot => 0
    case Status => 1
    case MeterValues => 5
    case Authorize => 9
    case StartTransaction => 13
    case StopTransaction => 17
    case FirmwareStatus => 21
    case Heartbeat => 22
    case DiagnosticsStatus => 23
  }

  function Rank(slot: Slot): nat {
    FirstRank(slot.kind) + slot.conn
  }

  const CASCADE_END: nat := 22

  /** The cascade gets as far as rank n without a match. */
  ghost predicate NoMatchBelow(slots: map<Slot, Entry>, id: string, n: nat)
    requires forall slot: Slot :: slot in slots
  {
    forall slot: Slot :: Rank(slot) < n ==> slots[slot].uniqId != id
  }

  /** Having passed the kinds before, the first n slots of a kind extend the ranks passed. */
  lemma GroupOfRanks(slots: map<Slot, Entry>, id: string, kind: Kind, n: int)
    requires forall slot: Slot :: slot in slots
    requires 0 <= n <= (if PerConnector(kind) then NUM_OF_CONNECTORS else 1)
    requires NoMatchBelow(slots, id, FirstRank(kind))
    requires forall c :: 0 <= c < n ==> slots[Slot(kind, c)].uniqId != id
    ensures NoMatchBelow(slots, id, FirstRank(kind) + n)
  {
    forall slot: Slot | FirstRank(kind) <= Rank(slot) < FirstRank(kind) + n
      ensures slots[slot].uniqId != id
    {
      assert slot == Slot(kind, Rank(slot) - FirstRank(kind));
    }
  }

  /** The slot takes the result with this id. */
  ghost predicate Takes(slots: map<Slot, Entry>, id: string, slot: Slot)
    requires forall slot: Slot :: slot in slots
  {
    && slots[slot].uniqId == id
    && (slot.kind.Heartbeat? || (Rank(slot) < CASCADE_END && NoMatchBelow(slots, id, Rank(slot))))
  }

  lemma OneTaker(slots: map<Slot, Entry>, id: string, a: Slot, b: Slot)
    requires forall slot: Slot :: slot in slots
    requires Takes(slots, id, a) && Takes(slots, id, b) && a.kind != Heartbeat && b.kind != Heartbeat
    ensures a == b
  {
    assert Rank(a) == Rank(b);
  }

  /** The order of the cascade, kind by kind and connector by connector. */
  predicate Precedes(a: Slot, b: Slot) {
    if a.kind == b.kind then a.conn < b.conn
    else match a.kind
      case Boot => true
      case Status => !b.kind.Boot?
      case MeterValues => !(b.kind in {Boot, Status})
      case Authorize => b.kind in {StartTransaction, StopTransaction, FirmwareStatus}
      case StartTransaction => b.kind in {StopTransaction, FirmwareStatus}
      case StopTransaction => b.kind == FirmwareStatus
      case _ => false
  }

  /** Of slots that hold the same id, as all do before their first request, only the first takes a result;
      the heartbeat, which is compared apart, takes it as well, and diagnostics never do. */
  lemma FirstTakes(slots: map<Slot, Entry>, id: string, slot: Slot)
    requires forall slot: Slot :: slot in slots
    ensures Takes(slots, id, slot) <==>
            && slots[slot].uniqId == id && slot.kind != DiagnosticsStatus
            && (slot.kind != Heartbeat ==>
                  forall other: Slot :: other.kind !in {Heartbeat, DiagnosticsStatus} && Precedes(other, slot) ==>
                                          slots[other].uniqId != id)
  {
    forall other: Slot | other.kind !in {Heartbeat, DiagnosticsStatus} && slot.kind !in {Heartbeat, DiagnosticsStatus}
      ensures Precedes(other, slot) <==> Rank(other) < Rank(slot)
    {
    }
  }

  function Answered(e: Entry, slot: Slot, payloadOk: bool): Entry {
    e.(received := AnyPayload(slot) || payloadOk)
  }

  /** What a send does to the counter and its slot. */
  function AfterSend(s: State, slot: Slot, printed: bool): State
    requires slot in s.slots
  {
    var e := s.slots[slot];
    State(s.randomNumber + 1,
          s.slots[slot := Entry(Decimal(s.randomNumber), e.sent || printed,
                                e.received && !(printed && LowersReceived(slot)))])
  }

  lemma IdFits(n: nat)
    requires n < ID_LIMIT
    ensures |Decimal(n)| < CP_MESSAGEID_LENGTH
  {
    assert Power10(9) == 10 * Power10(8) == 100 * Power10(7) == 1000 * Power10(6) == 10000 * Power10(5)
        == 100000 * Power10(4) == 1000000 * Power10(3) == 10000000 * Power10(2) == ID_LIMIT;
    DecimalLength(n, 9);
  }

  class Core {
    var randomNumber: nat
    var slots: map<Slot, Entry>

    ghost predicate Valid()
      reads this
    {
      forall slot: Slot :: slot in slots
    }

    ghost function Now(): State
      reads this
    {
      State(randomNumber, slots)
    }

    constructor ()
      ensures Valid() && randomNumber == FIRST_ID
      ensures forall slot: Slot :: slots[slot] == Entry("", false, false)
    {
      randomNumber := FIRST_ID;
      slots := map slot: Slot | slot in ALL_SLOTS :: Entry("", false, false);
    }

    /** The common part of the send...Request functions; printed says whether the JSON was produced. */
    method Send(slot: Slot, printed: bool)
      requires Valid() && randomNumber < ID_LIMIT
      modifies this
      ensures Valid() && Now() == AfterSend(old(Now()), slot, printed)
      ensures |slots[slot].uniqId| < CP_MESSAGEID_LENGTH
      ensures slots[slot].received <==>
              old(slots[slot].received) &&
              !(printed && slot.kind in {MeterValues, Authorize, StartTransaction, StopTransaction})
    {
      var id := Decimal(randomNumber);
      IdFits(randomNumber);
      slots := slots[slot := slots[slot].(uniqId := id)];
      randomNumber := randomNumber + 1;
      if printed {
        slots := slots[slot := slots[slot].(sent := true)];
        if LowersReceived(slot) {
          slots := slots[slot := slots[slot].(received := false)];
        }
      }
    }

    /** The four tests of one kind in the cascade, connector by connector; -1 when none matches. */
    method MatchConnector(kind: Kind, id: string) returns (conn: int)
      requires Valid() && PerConnector(kind) && NoMatchBelow(slots, id, FirstRank(kind))
      ensures -1 <= conn < NUM_OF_CONNECTORS
      ensures conn >= 0 ==> Takes(slots, id, Slot(kind, conn))
      ensures conn < 0 ==> NoMatchBelow(slots, id, FirstRank(kind) + 4)
    {
      if id == slots[Slot(kind, 0)].uniqId {
        conn := 0;
      } else if id == slots[Slot(kind, 1)].uniqId {
        conn := 1;
      } else if id == slots[Slot(kind, 2)].uniqId {
        conn := 2;
      } else if id == slots[Slot(kind, 3)].uniqId {
        conn := 3;
      } else {
        conn := -1;
      }
      GroupOfRanks(slots, id, kind, if conn < 0 then 4 else conn);
    }

    /** The if/else cascade of ocpp_response after the heartbeat test. */
    method Cascade(id: string) returns (taker: Option<Slot>)
      requires Valid()
      ensures taker.Some? ==> taker.value.kind != Heartbeat && Takes(slots, id, taker.value)
      ensures taker.None? ==> NoMatchBelow(slots, id, CASCADE_END)
    {
      if id == slots[Slot(Boot, 0)].uniqId {
        return Some(Slot(Boot, 0));
      }
      GroupOfRanks(slots, id, Boot, 1);
      var c := MatchConnector(Status, id);
      if c >= 0 {
        return Some(Slot(Status, c));
      }
      c := MatchConnector(MeterValues, id);
      if c >= 0 {
        return Some(Slot(MeterValues, c));
      }
      taker := CascadeTail(id);
    }

    /** The cascade from the authorisations on. */
    method CascadeTail(id: string) returns (taker: Option<Slot>)
      requires Valid() && NoMatchBelow(slots, id, FirstRank(Authorize))
      ensures taker.Some? ==> taker.value.kind != Heartbeat && Takes(slots, id, taker.value)
      ensures taker.None? ==> NoMatchBelow(slots, id, CASCADE_END)
    {
      var c := MatchConnector(Authorize, id);
      if c >= 0 {
        return Some(Slot(Authorize, c));
      }
      c := MatchConnector(StartTransaction, id);
      if c >= 0 {
        return Some(Slot(StartTransaction, c));
      }
      c := MatchConnector(StopTransaction, id);
      if c >= 0 {
        return Some(Slot(StopTransaction, c));
      }
      if id == slots[Slot(FirmwareStatus, 0)].uniqId {
        return Some(Slot(FirmwareStatus, 0));
      }
      GroupOfRanks(slots, id, FirmwareStatus, 1);
      taker := None;
    }

    /** A CALLRESULT; payloadOk says whether the payload has the fields the slot's handler wants. */
    method Respond(id: string, payloadOk: bool)
      requires Valid()
      modifies this
      ensures Valid() && randomNumber == old(randomNumber)
      ensures forall slot: Slot :: slots[slot] ==
                if Takes(old(slots), id, slot) then Answered(old(slots[slot]), slot, payloadOk) else old(slots[slot])
      ensures forall slot: Slot :: Takes(old(slots), id, slot) ==>
                (slots[slot].received <==> payloadOk || slot.kind in {Status, MeterValues, FirmwareStatus})
    {
      var taker := Cascade(id);
      forall slot: Slot
        ensures Takes(slots, id, slot) <==>
                (slot == Slot(Heartbeat, 0) && slots[slot].uniqId == id) || taker == Some(slot)
      {
        if Takes(slots, id, slot) && slot.kind != Heartbeat && taker.Some? {
          OneTaker(slots, id, slot, taker.value);
        }
      }
      if id == slots[Slot(Heartbeat, 0)].uniqId {
        slots := slots[Slot(Heartbeat, 0) := Answered(slots[Slot(Heartbeat, 0)], Slot(Heartbeat, 0), payloadOk)];
      }
      if taker.Some? {
        slots := slots[taker.value := Answered(slots[taker.value], taker.value, payloadOk)];
      }
    }
  }
}
