/** The local authorisation list: ten slots filled by SendLocalList messages. */
module LocalList {

  import opened Basics

  const LOCAL_LIST_COUNT: int := 10

  datatype Entry = Entry(present: bool, idTag: string, expiryDate: string, parentIdTag: string, status: string)

  /** A list item; a field is None when the JSON value is missing or not a string. */
  datatype Item = Item(idTag: Option<string>, expiryDate: Option<string>,
                       parentIdTag: Option<string>, status: Option<string>)

  datatype Message = Message(listVersion: Option<int>, updateType: Option<string>, items: Option<seq<Item>>)

  /** A C string copied without its terminator over another one. */
  function Overlay(under: string, over: Option<string>): string {
    match over
    case None => under
    case Some(s) => s + if |s| < |under| then under[|s|..] else ""
  }

  function PutItem(e: Entry, item: Item): Entry {
    var base := if item.idTag.Some? then Entry(true, item.idTag.value, "", "", "") else e;
    Entry(base.present, base.idTag, Overlay(base.expiryDate, item.expiryDate),
          Overlay(base.parentIdTag, item.parentIdTag), Overlay(base.status, item.status))
  }

  predicate AllTagged(items: seq<Item>) {
    forall i :: 0 <= i < |items| ==> items[i].idTag.Some?
  }

  predicate TaggedUpTo(items: seq<Item>, n: int) {
    forall i :: 0 <= i < n && i < |items| ==> items[i].idTag.Some?
  }

  function Present(entries: seq<Entry>): nat {
    if entries == [] then 0
    else Present(entries[..|entries| - 1]) + if entries[|entries| - 1].present then 1 else 0
  }

  predicate IsFull(updateType: string) { "Full" <= updateType }

  predicate IsDifferential(updateType: string) { "Differential" <= updateType }

  /** A full list overwrites from slot 0 on and marks the rest absent. */
  ghost predicate FullUpdate(before: seq<Entry>, items: seq<Item>, after: seq<Entry>) {
    && |after| == |before|
    && forall k :: 0 <= k < |before| ==>
         after[k] == if k < |items| then PutItem(before[k], items[k]) else before[k].(present := false)
  }

  /** A differential list starts after the entries present, but stops at the slot whose number is the
      remaining capacity. */
  ghost predicate DifferentialUpdate(before: seq<Entry>, items: seq<Item>, after: seq<Entry>) {
    UpdateAfter(before, Present(before), items, after)
  }

  /** That update, with e entries present. */
  ghost predicate UpdateAfter(before: seq<Entry>, e: nat, items: seq<Item>, after: seq<Entry>) {
    && |after| == |before|
    && forall k :: 0 <= k < |before| ==>
         after[k] == if e <= k < LOCAL_LIST_COUNT - e && k - e < |items| then PutItem(before[k], items[k - e])
                     else if e + |items| <= k then before[k].(present := false)
                     else before[k]
  }

  ghost predicate Wiped(before: seq<Entry>, after: seq<Entry>) {
    |after| == |before| && forall k :: 0 <= k < |after| ==> after[k] == Entry(false, "", "", "", "")
  }

  /** What one message does to the slots, given the update type in force. */
  ghost predicate Updated(before: seq<Entry>, updateType: string, m: Message, after: seq<Entry>) {
    if !IsFull(updateType) && !IsDifferential(updateType) then after == before
    else if m.items.None? then
      if m.listVersion.Some? && m.updateType.Some? then Wiped(before, after) else after == before
    else if IsFull(updateType) then FullUpdate(before, m.items.value, after)
    else DifferentialUpdate(before, m.items.value, after)
  }

  /** How many items a differential list can add to e present ones. */
  function Room(e: int): int { Max(0, LOCAL_LIST_COUNT - 2 * e) }

  /** The message counts as received: version and type are there, the type in force is known, and every
      item that was looked at has an idTag. */
  ghost predicate Accepted(before: seq<Entry>, updateType: string, m: Message) {
    && m.listVersion.Some? && m.updateType.Some?
    && (IsFull(updateType) || IsDifferential(updateType))
    && (m.items.Some? ==>
          TaggedUpTo(m.items.value, if IsFull(updateType) then LOCAL_LIST_COUNT else Room(Present(before))))
  }

  class List {
    const entries: array<Entry>
    var listVersion: int
    var updateType: string
    var received: bool

    constructor ()
      ensures fresh(entries) && entries.Length == LOCAL_LIST_COUNT
      ensures forall k :: 0 <= k < LOCAL_LIST_COUNT ==> !entries[k].present
    {
      entries := new Entry[LOCAL_LIST_COUNT](_ => Entry(false, "", "", "", ""));
      listVersion, updateType, received := 1, "FULL", false;
    }

    /** CMSSendLocalListRequestProcess */
    method Process(m: Message)
      requires entries.Length == LOCAL_LIST_COUNT
      modifies this, entries
      ensures listVersion == if m.listVersion.Some? then m.listVersion.value else old(listVersion)
      ensures updateType == if m.updateType.Some? then m.updateType.value else old(updateType)
      ensures Updated(old(entries[..]), updateType, m, entries[..])
      ensures received <==> Accepted(old(entries[..]), updateType, m)
    {
      var ok := false;
      var tagged := true;
      if m.listVersion.Some? {
        listVersion := m.listVersion.value;
      }
      if m.updateType.Some? {
        updateType := m.updateType.value;
      }
      if IsFull(updateType) {
        if m.items.Some? {
          tagged := StoreFull(m.items.value);
          ok := m.listVersion.Some? && m.updateType.Some? && tagged;
        } else {
          ok := m.listVersion.Some? && m.updateType.Some?;
          if ok {
            Wipe();
          }
        }
      } else if IsDifferential(updateType) {
        if m.items.Some? {
          tagged := StoreDifferential(m.items.value);
          ok := m.listVersion.Some? && m.updateType.Some? && tagged;
        } else {
          ok := m.listVersion.Some? && m.updateType.Some?;
          if ok {
            Wipe();
          }
        }
      }
      received := ok;
    }

    method Wipe()
      requires entries.Length == LOCAL_LIST_COUNT
      modifies entries
      ensures Wiped(old(entries[..]), entries[..])
    {
      for index := 0 to LOCAL_LIST_COUNT
        invariant forall k :: 0 <= k < index ==> entries[k] == Entry(false, "", "", "", "")
      {
        entries[index] := Entry(false, "", "", "", "");
      }
    }

    /** The body both item loops share. */
    method StoreItem(k: nat, item: Item, taggedBefore: bool) returns (tagged: bool)
      requires entries.Length == LOCAL_LIST_COUNT && k < LOCAL_LIST_COUNT
      modifies entries
      ensures entries[k] == PutItem(old(entries[k]), item)
      ensures forall j :: 0 <= j < LOCAL_LIST_COUNT && j != k ==> entries[j] == old(entries[j])
      ensures tagged <==> taggedBefore && item.idTag.Some?
    {
      tagged := taggedBefore && item.idTag.Some?;
      entries[k] := PutItem(entries[k], item);
    }

    method StoreFull(items: seq<Item>) returns (tagged: bool)
      requires entries.Length == LOCAL_LIST_COUNT
      modifies entries
      ensures FullUpdate(old(entries[..]), items, entries[..])
      ensures tagged <==> TaggedUpTo(items, LOCAL_LIST_COUNT)
    {
      tagged := true;
      ghost var before := entries[..];
      for i := 0 to |items|
        invariant tagged <==> TaggedUpTo(items, Min(i, LOCAL_LIST_COUNT))
        invariant forall k :: 0 <= k < LOCAL_LIST_COUNT ==>
          entries[k] == if k < i then PutItem(before[k], items[k]) else before[k]
      {
        if i < LOCAL_LIST_COUNT {
          tagged := StoreItem(i, items[i], tagged);
        }
      }
      MarkAbsent(|items|);
    }

    /** The loop after the items: every later slot is marked absent. */
    method MarkAbsent(from: nat)
      requires entries.Length == LOCAL_LIST_COUNT
      modifies entries
      ensures forall k :: 0 <= k < LOCAL_LIST_COUNT ==>
                entries[k] == if k < from then old(entries[k]) else old(entries[k]).(present := false)
    {
      var k := from;
      while k < LOCAL_LIST_COUNT
        invariant from <= k
        invariant forall j :: 0 <= j < LOCAL_LIST_COUNT ==>
          entries[j] == if from <= j < k then old(entries[j]).(present := false) else old(entries[j])
      {
        entries[k] := entries[k].(present := false);
        k := k + 1;
      }
    }

    method CountPresent() returns (n: nat)
      requires entries.Length == LOCAL_LIST_COUNT
      ensures n == Present(entries[..])
    {
      n := 0;
      for j := 0 to LOCAL_LIST_COUNT
        invariant n == Present(entries[..j])
      {
        assert entries[..j + 1][..j] == entries[..j];
        if entries[j].present {
          n := n + 1;
        }
      }
      assert entries[..LOCAL_LIST_COUNT] == entries[..];
    }

    method StoreDifferential(items: seq<Item>) returns (tagged: bool)
      requires entries.Length == LOCAL_LIST_COUNT
      modifies entries
      ensures DifferentialUpdate(old(entries[..]), items, entries[..])
      ensures tagged <==> TaggedUpTo(items, Room(Present(old(entries[..]))))
    {
      var existing := CountPresent();
      tagged := AppendItems(items, existing);
      MarkAbsent(existing + |items|);
    }

    /** The loop over the items of a differential list. */
    method AppendItems(items: seq<Item>, existing: nat) returns (tagged: bool)
      requires entries.Length == LOCAL_LIST_COUNT
      modifies entries
      ensures forall k :: 0 <= k < LOCAL_LIST_COUNT ==>
                entries[k] == if existing <= k < LOCAL_LIST_COUNT - existing && k - existing < |items|
                              then PutItem(old(entries[k]), items[k - existing]) else old(entries[k])
      ensures tagged <==> TaggedUpTo(items, Room(existing))
    {
      tagged := true;
      var i := existing;
      for n := 0 to |items|
        invariant i == existing + n
        invariant tagged <==> TaggedUpTo(items, Min(n, Room(existing)))
        invariant forall k :: 0 <= k < LOCAL_LIST_COUNT ==>
          entries[k] == if existing <= k < i && k < LOCAL_LIST_COUNT - existing
                        then PutItem(old(entries[k]), items[k - existing]) else old(entries[k])
      {
        if i < LOCAL_LIST_COUNT - existing {
          tagged := StoreItem(i, items[n], tagged);
        }
        i := i + 1;
      }
    }
  }

  /** Exactly the first n slots are present. */
  ghost predicate Prefix(entries: seq<Entry>, n: int) {
    && |entries| == LOCAL_LIST_COUNT && 0 <= n <= LOCAL_LIST_COUNT
    && forall k :: 0 <= k < |entries| ==> (entries[k].present <==> k < n)
  }

  lemma {:induction false} PresentOfPrefix(entries: seq<Entry>, n: int)
    requires 0 <= n <= |entries| && forall k :: 0 <= k < |entries| ==> (entries[k].present <==> k < n)
    ensures Present(entries) == n
  {
    if entries != [] {
      PresentOfPrefix(entries[..|entries| - 1], Min(n, |entries| - 1));
    }
  }

  /** The slot holds the item, field by field, with what is missing left empty. */
  ghost predicate Holds(e: Entry, item: Item) {
    && e.present && item.idTag == Some(e.idTag)
    && e.expiryDate == (if item.expiryDate.Some? then item.expiryDate.value else "")
    && e.parentIdTag == (if item.parentIdTag.Some? then item.parentIdTag.value else "")
    && e.status == (if item.status.Some? then item.status.value else "")
  }

  /** An item without an idTag leaves its slot's presence and idTag alone and copies its strings over the
      old ones, whose ends stay when they are longer. */
  lemma UntaggedOverlays(before: Entry, item: Item)
    requires item.idTag.None?
    ensures var after := PutItem(before, item);
            && after.present == before.present && after.idTag == before.idTag
            && Overlaid(before.expiryDate, item.expiryDate, after.expiryDate)
            && Overlaid(before.parentIdTag, item.parentIdTag, after.parentIdTag)
            && Overlaid(before.status, item.status, after.status)
  {
  }

  ghost predicate Overlaid(before: string, over: Option<string>, result: string) {
    match over
    case None => result == before
    case Some(s) =>
      && |result| == Max(|before|, |s|) && result[..|s|] == s
      && forall i :: |s| <= i < |result| ==> result[i] == before[i]
  }

  /** Which update a message makes: by the start of the type in force, whole or with something after it. */
  lemma UpdateByType(before: seq<Entry>, rest: string, m: Message, items: seq<Item>, after: seq<Entry>)
    requires m.items == Some(items)
    ensures Updated(before, "Full" + rest, m, after) <==> FullUpdate(before, items, after)
    ensures Updated(before, "Differential" + rest, m, after) <==> DifferentialUpdate(before, items, after)
  {
    assert ("Full" + rest)[0] == 'F' && ("Differential" + rest)[0] == 'D';
  }

  /** Any other type changes no slot and is not accepted; the type in force before the first message is one. */
  lemma OtherTypesIgnored(before: seq<Entry>, updateType: string, m: Message, after: seq<Entry>)
    requires |updateType| < 4 || updateType[..4] != "Full"
    requires |updateType| < 12 || updateType[..12] != "Differential"
    ensures Updated(before, updateType, m, after) <==> after == before
    ensures !Accepted(before, updateType, m)
  {
  }

  /** Without a list, version and type together empty all ten slots. */
  lemma MissingListWipes(before: seq<Entry>, updateType: string, m: Message, after: seq<Entry>)
    requires (updateType == "Full" || updateType == "Differential") && m.items.None?
    requires Updated(before, updateType, m, after)
    ensures m.listVersion.Some? && m.updateType.Some? ==>
              |after| == |before| &&
              forall k :: 0 <= k < |after| ==>
                !after[k].present && after[k].idTag == after[k].expiryDate == after[k].parentIdTag == after[k].status == ""
    ensures m.listVersion.None? || m.updateType.None? ==> after == before
  {
  }

  /** What counts as received: version and type given, and an idTag with each item that is looked at, which
      are the first ten of a full list and, with e entries present, the first 10 - 2e of a differential. */
  lemma AcceptedMeans(before: seq<Entry>, m: Message, items: seq<Item>)
    requires m.items == Some(items)
    ensures var given := m.listVersion.Some? && m.updateType.Some?;
            && (Accepted(before, "Full", m) <==>
                  given && forall i :: 0 <= i < |items| && i < 10 ==> items[i].idTag.Some?)
            && (Accepted(before, "Differential", m) <==>
                  given && forall i :: 0 <= i < |items| && i < 10 - 2 * Present(before) ==> items[i].idTag.Some?)
  {
    assert "Full"[0] == 'F' && "Differential"[0] == 'D';
  }

  /** A full list leaves exactly the first ten items, in order. */
  lemma FullKeepsFirstTen(before: seq<Entry>, items: seq<Item>, after: seq<Entry>)
    requires |before| == LOCAL_LIST_COUNT && AllTagged(items) && FullUpdate(before, items, after)
    ensures Prefix(after, Min(|items|, LOCAL_LIST_COUNT))
    ensures forall k :: 0 <= k < Min(|items|, LOCAL_LIST_COUNT) ==> Holds(after[k], items[k])
  {
  }

  /** A differential list keeps the entries present and appends as many items as there is room for by
      the code's measure. */
  lemma DifferentialAppends(before: seq<Entry>, e: int, items: seq<Item>, after: seq<Entry>)
    requires Prefix(before, e) && AllTagged(items) && DifferentialUpdate(before, items, after)
    ensures var added := Min(|items|, Room(e));
            && Prefix(after, e + added)
            && (forall k :: 0 <= k < e ==> after[k] == before[k])
            && (forall k :: 0 <= k < added ==> Holds(after[e + k], items[k]))
  {
    PresentOfPrefix(before, e);
  }

  /** Whatever is in the slots, with e of them present: the first e keep their entries, slots from e up to
      10 - e take the items, slots from 10 - e that items would have needed keep theirs, and the slots
      after all items are marked absent and otherwise left alone. */
  lemma DifferentialSlots(before: seq<Entry>, e: nat, items: seq<Item>, after: seq<Entry>, k: nat)
    requires UpdateAfter(before, e, items, after) && k < |before|
    ensures var n := |items|;
            && (k < e ==> after[k] == before[k])
            && (e <= k < 10 - e && k < e + n ==> after[k] == PutItem(before[k], items[k - e]))
            && (10 - e <= k < e + n ==> after[k] == before[k])
            && (k >= e + n ==> !after[k].present && after[k].(present := before[k].present) == before[k])
  {
  }

  /** That is everything that fits in the ten slots exactly when the list was empty or full, or the
      items leave as many slots free as were taken. */
  lemma DifferentialStoresAllThatFitIff(e: int, n: int)
    requires 0 <= e <= LOCAL_LIST_COUNT && n >= 0
    ensures Min(n, Room(e)) == Min(n, LOCAL_LIST_COUNT - e) <==>
            e == 0 || e == LOCAL_LIST_COUNT || n <= Room(e)
  {
  }

  /** With five entries present nothing can be added although five slots are free. */
  lemma HalfFullListIsStuck(before: seq<Entry>, item: Item, after: seq<Entry>)
    requires Prefix(before, 5) && item.idTag.Some? && DifferentialUpdate(before, [item], after)
    ensures after == before
  {
    PresentOfPrefix(before, 5);
  }

  /** A run of messages: the update types in force and the slots between them. */
  ghost predicate IsRun(states: seq<seq<Entry>>, updateTypes: seq<string>, messages: seq<Message>) {
    && |states| == |messages| + 1 && |updateTypes| == |messages|
    && forall i :: 0 <= i < |messages| ==> Updated(states[i], updateTypes[i], messages[i], states[i + 1])
  }

  /** Over every run whose items all carry idTags the present entries stay a prefix of the slots. */
  lemma {:induction false} PresentEntriesStayPrefix(states: seq<seq<Entry>>, updateTypes: seq<string>,
                                                    messages: seq<Message>, e: int, i: nat) returns (n: int)
    requires IsRun(states, updateTypes, messages) && Prefix(states[0], e) && i < |states|
    requires forall j :: 0 <= j < |messages| ==> messages[j].items.Some? ==> AllTagged(messages[j].items.value)
    ensures Prefix(states[i], n)
  {
    if i == 0 {
      n := e;
    } else {
      n := PresentEntriesStayPrefix(states, updateTypes, messages, e, i - 1);
      var before, after, m, t := states[i - 1], states[i], messages[i - 1], updateTypes[i - 1];
      assert Updated(before, t, m, after);
      if !IsFull(t) && !IsDifferential(t) {
      } else if m.items.None? {
        n := if m.listVersion.Some? && m.updateType.Some? then 0 else n;
      } else if IsFull(t) {
        FullKeepsFirstTen(before, m.items.value, after);
        n := Min(|m.items.value|, LOCAL_LIST_COUNT);
      } else {
        DifferentialAppends(before, n, m.items.value, after);
        n := n + Min(|m.items.value|, Room(n));
      }
    }
  }
}
