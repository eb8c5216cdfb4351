/** The charging-profile store: an array of blobs under numbered keys, shifted in place. */
module ProfileStore {
  import opened Numerals

  const MAX_PROFILES: nat := 1000

  /** A charging profile; other stands for the fields nothing here looks at. */
  datatype Profile = Profile(connectorId: nat, profileId: nat, transactionId: nat,
                             stackLevel: nat, purpose: nat, other: nat)

  datatype Entry = Count(n: nat) | Blob(profile: Profile)

  const COUNT_KEY: string := "cpcount"

  function Key(i: nat): string {
    COUNT_KEY + Decimal(i)
  }

  lemma KeysDistinct(i: nat)
    ensures Key(i) != COUNT_KEY
    ensures forall j: nat :: Key(j) == Key(i) ==> j == i
  {
    assert |Key(i)| > |COUNT_KEY|;
    forall j: nat | Key(j) == Key(i)
      ensures j == i
    {
      assert Decimal(i) == Key(i)[7..] && Decimal(j) == Key(j)[7..];
      DecimalInjective(i, j);
    }
  }

  ghost predicate Holds(nvs: map<string, Entry>, n: nat) {
    forall i {:trigger Key(i)} :: 1 <= i <= n ==> Key(i) in nvs && nvs[Key(i)].Blob?
  }

  ghost function Profiles(nvs: map<string, Entry>, n: nat): (s: seq<Profile>)
    requires Holds(nvs, n)
    ensures |s| == n
  {
    seq(n, i requires 0 <= i < n => nvs[Key(i + 1)].profile)
  }

  lemma PutProfile(nvs: map<string, Entry>, n: nat, i: nat, p: Profile)
    requires Holds(nvs, n) && 1 <= i <= n + 1
    ensures var nvs' := nvs[Key(i) := Blob(p)];
            && (COUNT_KEY in nvs' <==> COUNT_KEY in nvs)
            && (COUNT_KEY in nvs ==> nvs'[COUNT_KEY] == nvs[COUNT_KEY])
            && Holds(nvs', n)
            && if i <= n then Profiles(nvs', n) == Profiles(nvs, n)[i - 1 := p]
               else Holds(nvs', n + 1) && Profiles(nvs', n + 1) == Profiles(nvs, n) + [p]
  {
    KeysDistinct(i);
  }

  lemma PutCount(nvs: map<string, Entry>, n: nat, k: nat)
    requires Holds(nvs, n)
    ensures var nvs' := nvs[COUNT_KEY := Count(k)];
            Holds(nvs', n) && Profiles(nvs', n) == Profiles(nvs, n)
  {
    forall i: nat
      ensures Key(i) != COUNT_KEY
    {
      KeysDistinct(i);
    }
  }

  /** Writing: an append below 1000 entries. At 1000 the argument is overwritten while it serves as the
      shift buffer, so the oldest entry goes and the newest one is stored twice. */
  function AfterWrite(s: seq<Profile>, p: Profile): seq<Profile> {
    if |s| < MAX_PROFILES then s + [p] else s[1..] + [s[|s| - 1]]
  }

  /** Clearing an id: the scan does not look at the entry that moves into a hole. */
  function AfterClear(s: seq<Profile>, id: nat): seq<Profile> {
    if s == [] then []
    else if s[0].profileId != id then [s[0]] + AfterClear(s[1..], id)
    else if |s| == 1 then []
    else [s[1]] + AfterClear(s[2..], id)
  }

  function Removed(s: seq<Profile>, i: nat): seq<Profile>
    requires i < |s|
  {
    s[..i] + s[i + 1..]
  }

  /** The array when entries from + 1 .. j have moved one place down. */
  function Shifting(s: seq<Profile>, from: nat, j: nat): seq<Profile>
    requires 1 <= from <= j <= |s|
  {
    s[..from - 1] + s[from..j] + s[j - 1..]
  }

  lemma ShiftStep(s: seq<Profile>, from: nat, j: nat)
    requires 1 <= from <= j < |s|
    ensures Shifting(s, from, j)[j] == s[j]
    ensures Shifting(s, from, j)[j - 1 := s[j]] == Shifting(s, from, j + 1)
  {
  }

  /** The scan is at index i of c, having started with s. */
  ghost predicate Scanned(s: seq<Profile>, id: nat, c: seq<Profile>, i: int) {
    && 0 <= i <= |c| + 1
    && AfterClear(s, id) == if i <= |c| then c[..i] + AfterClear(c[i..], id) else c
  }

  lemma ScanStep(s: seq<Profile>, id: nat, c: seq<Profile>, i: int)
    requires Scanned(s, id, c, i) && i < |c|
    ensures Scanned(s, id, if c[i].profileId == id then Removed(c, i) else c, i + 1)
  {
    if c[i].profileId == id {
      var r := Removed(c, i);
      if i < |r| {
        assert c[i..][2..] == c[i + 2..] == r[i + 1..];
        assert r[..i + 1] == c[..i] + [c[i + 1]];
      }
    } else {
      assert c[i..][1..] == c[i + 1..];
      assert c[..i + 1] == c[..i] + [c[i]];
    }
  }

  lemma ScanEnds(s: seq<Profile>, id: nat, c: seq<Profile>, i: int)
    requires Scanned(s, id, c, i) && i >= |c|
    ensures c == AfterClear(s, id)
  {
    if i == |c| {
      assert c[i..] == [] && c[..i] == c;
    }
  }

  class Store {
    var nvs: map<string, Entry>
    var addedOrDeleted: bool

    function Stored(): nat
      reads this
    {
      if COUNT_KEY in nvs && nvs[COUNT_KEY].Count? then nvs[COUNT_KEY].n else 0
    }

    ghost predicate Valid()
      reads this
    {
      && (COUNT_KEY in nvs ==> nvs[COUNT_KEY].Count?)
      && Stored() <= MAX_PROFILES && Holds(nvs, Stored())
    }

    ghost function Contents(): seq<Profile>
      requires Valid()
      reads this
    {
      Profiles(nvs, Stored())
    }

    constructor ()
      ensures Valid() && Contents() == []
    {
      nvs, addedOrDeleted := map[], false;
    }

    /** custome_nvs_read_chargingProfilesCount */
    method ReadCount() returns (n: nat)
      requires Valid()
      ensures n == |Contents()|
    {
      n := if COUNT_KEY in nvs then nvs[COUNT_KEY].n else 0;
    }

    /** custom_nvs_read_charging_profile */
    method ReadProfile(i: nat) returns (p: Profile)
      requires Valid() && 1 <= i <= |Contents()|
      ensures p == Contents()[i - 1]
    {
      p := nvs[Key(i)].profile;
    }

    /** Both shifting loops: entries from + 1 .. n move one place down; the buffer keeps the last one
        read. */
    method ShiftDown(from: nat, n: nat, initial: Profile) returns (buffer: Profile)
      requires 1 <= from <= n && Holds(nvs, n)
      requires COUNT_KEY in nvs ==> nvs[COUNT_KEY].Count?
      modifies `nvs
      ensures Holds(nvs, n)
      ensures COUNT_KEY in nvs <==> COUNT_KEY in old(nvs)
      ensures COUNT_KEY in nvs ==> nvs[COUNT_KEY] == old(nvs)[COUNT_KEY]
      ensures Profiles(nvs, n)[..n - 1] == Removed(Profiles(old(nvs), n), from - 1)
      ensures buffer == if from < n then Profiles(old(nvs), n)[n - 1] else initial
    {
      ghost var s := Profiles(nvs, n);
      buffer := initial;
      var j := from;
      while j < n
        invariant from <= j <= n && Holds(nvs, n)
        invariant COUNT_KEY in nvs <==> COUNT_KEY in old(nvs)
        invariant COUNT_KEY in nvs ==> nvs[COUNT_KEY] == old(nvs)[COUNT_KEY]
        invariant Profiles(nvs, n) == Shifting(s, from, j)
        invariant buffer == if from < j then s[j - 1] else initial
      {
        buffer := nvs[Key(j + 1)].profile;
        assert buffer == Profiles(nvs, n)[j] == s[j];
        PutProfile(nvs, n, j, buffer);
        ShiftStep(s, from, j);
        nvs := nvs[Key(j) := Blob(buffer)];
        j := j + 1;
      }
    }

    /** Store the last entry and the count. */
    method StoreLast(n: nat, profile: Profile)
      requires 1 <= n <= MAX_PROFILES && Holds(nvs, n - 1)
      modifies this
      ensures Valid() && addedOrDeleted
      ensures Contents() == Profiles(old(nvs), n - 1) + [profile]
    {
      PutProfile(nvs, n - 1, n, profile);
      nvs := nvs[Key(n) := Blob(profile)];
      PutCount(nvs, n, n);
      nvs := nvs[COUNT_KEY := Count(n)];
      addedOrDeleted := true;
    }

    /** custom_nvs_write_chargingProgile */
    method Write(p: Profile)
      requires Valid()
      modifies this
      ensures Valid() && addedOrDeleted
      ensures Contents() == AfterWrite(old(Contents()), p)
    {
      var n := ReadCount();
      ghost var s := Contents();
      var profile := p;
      if n >= MAX_PROFILES {
        profile := ShiftDown(1, n, profile);
        assert Profiles(nvs, n - 1) == Profiles(nvs, n)[..n - 1];
      } else {
        n := n + 1;
      }
      StoreLast(n, profile);
    }

    /** One match of custom_nvs_clear_chargingProfile: close the hole and store the smaller count. */
    method Remove(i: nat, n: nat, p: Profile)
      requires Valid() && 1 <= i <= n == |Contents()|
      modifies this
      ensures Valid() && addedOrDeleted
      ensures Contents() == Removed(old(Contents()), i - 1)
    {
      var _ := ShiftDown(i, n, p);
      ghost var shifted := nvs;
      PutCount(nvs, n - 1, n - 1);
      nvs := nvs[COUNT_KEY := Count(n - 1)];
      addedOrDeleted := true;
      assert Contents() == Profiles(shifted, n)[..n - 1];
    }

    /** One turn of its loop. */
    method Look(id: nat, i: nat, n: nat, ghost s: seq<Profile>) returns (left: nat)
      requires Valid() && 1 <= i <= n == |Contents()| && Scanned(s, id, Contents(), i - 1)
      modifies this
      ensures Valid() && n - 1 <= left == |Contents()| <= n && Scanned(s, id, Contents(), i)
      ensures addedOrDeleted <==> old(addedOrDeleted) || left < n
    {
      left := n;
      ScanStep(s, id, Contents(), i - 1);
      var p := ReadProfile(i);
      if p.profileId == id {
        Remove(i, n, p);
        left := n - 1;
      }
    }

    /** custom_nvs_clear_chargingProfile */
    method Clear(id: nat)
      requires Valid()
      modifies this
      ensures Valid()
      ensures Contents() == AfterClear(old(Contents()), id)
      ensures addedOrDeleted <==> old(addedOrDeleted) || |Contents()| < |old(Contents())|
    {
      var n := ReadCount();
      ghost var s := Contents();
      var i := 1;
      while i <= n
        invariant Valid() && n == |Contents()| <= |s|
        invariant Scanned(s, id, Contents(), i - 1)
        invariant addedOrDeleted <==> old(addedOrDeleted) || n < |s|
        decreases n + 2 - i
      {
        n := Look(id, i, n, s);
        i := i + 1;
      }
      ScanEnds(s, id, Contents(), i - 1);
    }
  }
}
