/**
 Offline transactions: one queue per connector, kept as numbered blobs and a count in a key/value
 namespace of the flash.
 */
module OfflineStore {
  import opened Basics
  import opened Numerals

  const MAX_OFFLINE: nat := 100
  /** The longest key the key/value store accepts. */
  const MAX_KEY: nat := 15

  /** The bytes of a connector's private data. */
  type Record = seq<bv8>

  datatype Entry = Count(n: nat) | Blob(record: Record)

  function DataKey(conn: nat, i: nat): string {
    "Con" + Decimal(conn) + "OffData" + Decimal(i)
  }

  function CountKey(conn: nat): string {
    "OData" + Decimal(conn) + "count"
  }

  lemma DigitsEndAtLetter(p: string, q: string, r: string, s: string)
    requires forall i :: 0 <= i < |p| ==> IsDigit(p[i])
    requires forall i :: 0 <= i < |q| ==> IsDigit(q[i])
    requires r != [] && !IsDigit(r[0]) && s != [] && !IsDigit(s[0])
    requires p + r == q + s
    ensures p == q && r == s
  {
    var u := p + r;
    assert forall i :: 0 <= i < |p| ==> u[i] == p[i];
    assert forall i :: 0 <= i < |q| ==> u[i] == (q + s)[i] == q[i];
    assert u[|p|] == r[0] && u[|q|] == (q + s)[|q|] == s[0];
    assert p == (p + r)[..|p|] && q == (q + s)[..|q|];
    assert r == (p + r)[|p|..] && s == (q + s)[|q|..];
  }

  /** No two records of any connectors share a key. */
  lemma DataKeyInjective(c: nat, i: nat, d: nat, j: nat)
    requires DataKey(c, i) == DataKey(d, j)
    ensures c == d && i == j
  {
    var x, y := "OffData" + Decimal(i), "OffData" + Decimal(j);
    assert DataKey(c, i) == "Con" + (Decimal(c) + x) && DataKey(d, j) == "Con" + (Decimal(d) + y);
    assert Decimal(c) + x == DataKey(c, i)[3..] && Decimal(d) + y == DataKey(d, j)[3..];
    DigitsEndAtLetter(Decimal(c), Decimal(d), x, y);
    assert Decimal(i) == x[7..] && Decimal(j) == y[7..];
    DecimalInjective(c, d);
    DecimalInjective(i, j);
  }

  lemma CountKeyInjective(c: nat, d: nat)
    requires CountKey(c) == CountKey(d)
    ensures c == d
  {
    assert CountKey(c) == "OData" + (Decimal(c) + "count") && CountKey(d) == "OData" + (Decimal(d) + "count");
    assert Decimal(c) + "count" == CountKey(c)[5..] && Decimal(d) + "count" == CountKey(d)[5..];
    DigitsEndAtLetter(Decimal(c), Decimal(d), "count", "count");
    DecimalInjective(c, d);
  }

  /** No record's key is a count's key. */
  lemma DataKeyIsNotCountKey(c: nat, i: nat, d: nat)
    ensures DataKey(c, i) != CountKey(d)
  {
    assert DataKey(c, i)[0] == 'C' && CountKey(d)[0] == 'O';
  }

  /** The names in the flash, of one connector and record for example. */
  lemma KeyNames()
    ensures DataKey(2, 17) == "Con2OffData17" && CountKey(2) == "OData2count"
  {
    assert Decimal(17) == Decimal(1) + [Digit(7)];
  }

  /** Every key in use is short enough for the store. */
  lemma KeysFit(c: nat, i: nat)
    requires c < NUM_OF_CONNECTORS && i <= MAX_OFFLINE
    ensures |DataKey(c, i)| <= MAX_KEY && |CountKey(c)| <= MAX_KEY
  {
    DecimalLength(c, 1);
    assert Power10(3) == 10 * Power10(2) == 1000;
    DecimalLength(i, 3);
  }

  /** What the queues do, as sequences. */
  function AfterRead(q: seq<Record>): seq<Record> {
    if q == [] then [] else q[1..]
  }

  function AfterWrite(q: seq<Record>, record: Record): seq<Record> {
    (if |q| >= MAX_OFFLINE then q[1..] else q) + [record]
  }

  ghost predicate SameAt(m: map<string, Entry>, m': map<string, Entry>, key: string) {
    (key in m <==> key in m') && (key in m ==> m[key] == m'[key])
  }

  /** The two maps differ at most in records of connector c. */
  ghost predicate OnlyRecordsOf(m: map<string, Entry>, m': map<string, Entry>, c: nat) {
    && (forall d: nat {:trigger CountKey(d)} :: SameAt(m, m', CountKey(d)))
    && (forall d: nat, i: nat {:trigger DataKey(d, i)} :: d != c ==> SameAt(m, m', DataKey(d, i)))
  }

  /** The two maps differ at most in the count and the records of connector c. */
  ghost predicate OnlyConnector(m: map<string, Entry>, m': map<string, Entry>, c: nat) {
    && (forall d: nat {:trigger CountKey(d)} :: d != c ==> SameAt(m, m', CountKey(d)))
    && (forall d: nat, i: nat {:trigger DataKey(d, i)} :: d != c ==> SameAt(m, m', DataKey(d, i)))
  }

  ghost predicate HoldsRecords(nvs: map<string, Entry>, c: nat, n: nat) {
    forall i {:trigger DataKey(c, i)} :: 1 <= i <= n ==> DataKey(c, i) in nvs && nvs[DataKey(c, i)].Blob?
  }

  ghost function Records(nvs: map<string, Entry>, c: nat, n: nat): seq<Record>
    requires HoldsRecords(nvs, c, n)
  {
    seq(n, i requires 0 <= i < n => nvs[DataKey(c, i + 1)].record)
  }

  lemma SameRecords(m: map<string, Entry>, m': map<string, Entry>, c: nat, n: nat)
    requires HoldsRecords(m, c, n)
    requires forall i :: 1 <= i <= n ==> SameAt(m, m', DataKey(c, i))
    ensures HoldsRecords(m', c, n) && Records(m', c, n) == Records(m, c, n)
  {
  }

  lemma CountKeyDistinct(c: nat, d: nat)
    requires c != d
    ensures CountKey(c) != CountKey(d)
  {
    if CountKey(c) == CountKey(d) {
      CountKeyInjective(c, d);
    }
  }

  lemma PutRecord(m: map<string, Entry>, m': map<string, Entry>, c: nat, i: nat, n: nat, record: Record)
    requires OnlyRecordsOf(m, m', c) && HoldsRecords(m', c, n)
    ensures var m'' := m'[DataKey(c, i) := Blob(record)];
            && OnlyRecordsOf(m, m'', c) && HoldsRecords(m'', c, n)
            && forall k: nat :: k != i ==> SameAt(m', m'', DataKey(c, k))
  {
    forall d: nat
      ensures CountKey(d) != DataKey(c, i)
    {
      DataKeyIsNotCountKey(c, i, d);
    }
    forall d: nat, j: nat | DataKey(d, j) == DataKey(c, i)
      ensures d == c && j == i
    {
      DataKeyInjective(d, j, c, i);
    }
  }

  lemma AppendRecord(m: map<string, Entry>, c: nat, n: nat, record: Record)
    requires n > 0 && HoldsRecords(m, c, n - 1)
    ensures var m' := m[DataKey(c, n) := Blob(record)];
            OnlyRecordsOf(m, m', c) && HoldsRecords(m', c, n) && Records(m', c, n) == Records(m, c, n - 1) + [record]
  {
    PutRecord(m, m, c, n, n - 1, record);
  }

  /** Storing a count after changing records of the same connector touches nothing else. */
  lemma PutCount(m: map<string, Entry>, m': map<string, Entry>, c: nat, n: nat, count: nat)
    requires OnlyRecordsOf(m, m', c) && HoldsRecords(m', c, n)
    ensures var m'' := m'[CountKey(c) := Count(count)];
            && OnlyConnector(m, m', c) && OnlyConnector(m, m'', c)
            && HoldsRecords(m'', c, n) && Records(m'', c, n) == Records(m', c, n)
  {
    forall d: nat | d != c
      ensures CountKey(d) != CountKey(c)
    {
      CountKeyDistinct(c, d);
    }
    forall d: nat, i: nat
      ensures DataKey(d, i) != CountKey(c)
    {
      DataKeyIsNotCountKey(d, i, c);
    }
    SameRecords(m', m'[CountKey(c) := Count(count)], c, n);
  }

  class Store {
    var nvs: map<string, Entry>
    /** connectorsOfflineDataCount */
    const counts: array<nat>
    /** ConnectorOfflineData: the record read last. */
    const offlineData: array<Record>
    /** updatingOfflineData: the connector has records to send. */
    const updating: array<bool>

    /** The number of records kept for a connector. Connector 0 has no count key: its count lives in
        memory only. */
    function Stored(c: nat): nat
      requires counts.Length == NUM_OF_CONNECTORS && c < NUM_OF_CONNECTORS
      reads this, counts
    {
      if c == 0 then counts[0]
      else if CountKey(c) in nvs && nvs[CountKey(c)].Count? then nvs[CountKey(c)].n
      else 0
    }

    ghost predicate Valid()
      reads this, counts
    {
      && counts.Length == offlineData.Length == updating.Length == NUM_OF_CONNECTORS
      && forall c :: 0 <= c < NUM_OF_CONNECTORS ==> ValidQueue(c)
    }

    ghost predicate ValidQueue(c: nat)
      requires counts.Length == NUM_OF_CONNECTORS && c < NUM_OF_CONNECTORS
      reads this, counts
    {
      && Stored(c) <= MAX_OFFLINE
      && (CountKey(c) in nvs ==> nvs[CountKey(c)].Count?)
      && (c > 0 && CountKey(c) !in nvs ==> counts[c] == 0)
      && HoldsRecords(nvs, c, Stored(c))
    }

    ghost function Queue(c: nat): seq<Record>
      requires counts.Length == NUM_OF_CONNECTORS && c < NUM_OF_CONNECTORS && ValidQueue(c)
      reads this, counts
    {
      Records(nvs, c, Stored(c))
    }

    ghost function Queues(): (qs: seq<seq<Record>>)
      requires Valid()
      reads this, counts
      ensures |qs| == NUM_OF_CONNECTORS
    {
      seq(NUM_OF_CONNECTORS, c requires 0 <= c < NUM_OF_CONNECTORS && Valid() reads this, counts => Queue(c))
    }

    constructor ()
      ensures Valid() && fresh(counts) && fresh(offlineData) && fresh(updating)
      ensures forall c :: 0 <= c < NUM_OF_CONNECTORS ==> Queues()[c] == []
    {
      nvs := map[];
      counts := new nat[NUM_OF_CONNECTORS](_ => 0);
      offlineData := new Record[NUM_OF_CONNECTORS](_ => []);
      updating := new bool[NUM_OF_CONNECTORS](_ => false);
    }

    /** nvs_get_u32 of the count: a missing key leaves the copy in memory alone. */
    method LoadCount(c: nat) returns (found: bool)
      requires Valid() && c < NUM_OF_CONNECTORS
      modifies counts
      ensures Valid() && Queues() == old(Queues())
      ensures found <==> c == 0 || CountKey(c) in nvs
      ensures counts[c] == Stored(c) == old(Stored(c))
      ensures forall d :: 0 <= d < NUM_OF_CONNECTORS && d != c ==> counts[d] == old(counts[d])
    {
      assert ValidQueue(c);
      found := true;
      if c > 0 {
        if CountKey(c) in nvs {
          counts[c] := nvs[CountKey(c)].n;
        } else {
          found := false;
        }
      }
      forall d | 0 <= d < NUM_OF_CONNECTORS
        ensures ValidQueue(d) && Queue(d) == old(Queue(d))
      {
        assert old(ValidQueue(d));
      }
    }

    /** The loop that moves every record but the first one place down, through ConnectorOfflineData. */
    method ShiftDown(c: nat, n: nat)
      requires counts.Length == offlineData.Length == NUM_OF_CONNECTORS && c < NUM_OF_CONNECTORS
      requires HoldsRecords(nvs, c, n)
      modifies this`nvs, offlineData
      ensures OnlyRecordsOf(old(nvs), nvs, c)
      ensures HoldsRecords(nvs, c, n)
      ensures n > 0 ==> Records(nvs, c, n - 1) == Records(old(nvs), c, n)[1..]
      ensures forall d :: 0 <= d < NUM_OF_CONNECTORS && d != c ==> offlineData[d] == old(offlineData[d])
    {
      var i := 1;
      while i < n
        invariant 1 <= i && (n > 0 ==> i <= n)
        invariant OnlyRecordsOf(old(nvs), nvs, c) && HoldsRecords(nvs, c, n)
        invariant forall k :: 1 <= k <= n ==>
          nvs[DataKey(c, k)] == old(nvs)[DataKey(c, if k < i then k + 1 else k)]
        invariant forall d :: 0 <= d < NUM_OF_CONNECTORS && d != c ==> offlineData[d] == old(offlineData[d])
      {
        offlineData[c] := nvs[DataKey(c, i + 1)].record;
        PutRecord(old(nvs), nvs, c, i, n, offlineData[c]);
        nvs := nvs[DataKey(c, i) := Blob(offlineData[c])];
        i := i + 1;
      }
    }

    method SaveCount(c: nat)
      requires counts.Length == NUM_OF_CONNECTORS && c < NUM_OF_CONNECTORS
      modifies this`nvs
      ensures nvs == if c > 0 then old(nvs)[CountKey(c) := Count(counts[c])] else old(nvs)
    {
      if c > 0 {
        nvs := nvs[CountKey(c) := Count(counts[c])];
      }
    }

    twostate lemma OthersKept(c: nat)
      requires old(Valid()) && counts.Length == NUM_OF_CONNECTORS && OnlyConnector(old(nvs), nvs, c)
      requires forall d :: 0 <= d < NUM_OF_CONNECTORS && d != c ==> counts[d] == old(counts[d])
      ensures forall d :: 0 <= d < NUM_OF_CONNECTORS && d != c ==> ValidQueue(d) && Queue(d) == old(Queue(d))
    {
      forall d | 0 <= d < NUM_OF_CONNECTORS && d != c
        ensures ValidQueue(d) && Queue(d) == old(Queue(d))
      {
        assert old(ValidQueue(d));
        assert SameAt(old(nvs), nvs, CountKey(d));
        SameRecords(old(nvs), nvs, d, Stored(d));
      }
    }

    /** custom_nvs_read_connectors_offline_data */
    method Read(c: nat)
      requires Valid() && c < NUM_OF_CONNECTORS
      modifies this`nvs, counts, offlineData
      ensures Valid()
      ensures Queues() == old(Queues())[c := AfterRead(old(Queue(c)))]
      ensures old(Queue(c)) != [] ==> offlineData[c] == old(Queue(c))[0]
      ensures old(Queue(c)) == [] ==> offlineData[c] == old(offlineData[c])
      ensures forall d :: 0 <= d < NUM_OF_CONNECTORS && d != c ==> offlineData[d] == old(offlineData[d])
    {
      assert ValidQueue(c);
      var found := LoadCount(c);
      assert counts[c] == old(Stored(c));
      if counts[c] > 0 {
        var oldest := nvs[DataKey(c, 1)].record;
        ShiftDown(c, counts[c]);
        counts[c] := counts[c] - 1;
        PutCount(old(nvs), nvs, c, counts[c], counts[c]);
        SaveCount(c);
        offlineData[c] := oldest;
      }
      assert Queue(c) == AfterRead(old(Queue(c)));
      OthersKept(c);
    }

    method Append(c: nat, record: Record)
      requires Valid() && c < NUM_OF_CONNECTORS && counts[c] == Stored(c) < MAX_OFFLINE
      modifies this`nvs, counts
      ensures Valid()
      ensures Queues() == old(Queues())[c := old(Queue(c)) + [record]]
    {
      assert ValidQueue(c);
      var n := counts[c] + 1;
      counts[c] := n;
      AppendRecord(nvs, c, n, record);
      nvs := nvs[DataKey(c, n) := Blob(record)];
      PutCount(old(nvs), nvs, c, n, n);
      SaveCount(c);
      assert Queue(c) == old(Queue(c)) + [record];
      OthersKept(c);
    }

    /** custom_nvs_write_connectors_offline_data */
    method Write(c: nat, record: Record)
      requires Valid() && c < NUM_OF_CONNECTORS
      modifies this`nvs, counts, offlineData
      ensures Valid()
      ensures Queues() == old(Queues())[c := AfterWrite(old(Queue(c)), record)]
      ensures forall d :: 0 <= d < NUM_OF_CONNECTORS && (d != c || old(Stored(c)) < MAX_OFFLINE) ==>
                offlineData[d] == old(offlineData[d])
      ensures old(Stored(c)) >= MAX_OFFLINE ==> offlineData[c] == old(Queue(c))[0]
    {
      assert ValidQueue(c);
      var found := LoadCount(c);
      if !found {
        counts[c] := 0;
      }
      if counts[c] >= MAX_OFFLINE {
        Read(c);
        var _ := LoadCount(c);
      }
      assert Queues()[c] == Queue(c);
      Append(c, record);
    }

    /** One connector's part of custom_nvs_read_connectors_offline_data_count: load the count, or create
        it as 0. */
    method ReadCount(c: nat)
      requires Valid() && 1 <= c < NUM_OF_CONNECTORS
      modifies this`nvs, counts, updating
      ensures Valid() && Queues() == old(Queues())
      ensures CountKey(c) in nvs && counts[c] == |Queue(c)|
      ensures CountKey(c) in old(nvs) ==> (updating[c] <==> Queue(c) != [])
      ensures CountKey(c) !in old(nvs) ==> Queue(c) == [] && updating[c] == old(updating[c])
    {
      var found := LoadCount(c);
      assert ValidQueue(c) && Queues()[c] == Queue(c);
      if found {
        updating[c] := counts[c] > 0;
      } else {
        PutCount(nvs, nvs, c, 0, 0);
        nvs := nvs[CountKey(c) := Count(0)];
      }
      assert ValidQueue(c) && Queue(c) == old(Queue(c));
      OthersKept(c);
    }
  }
}
