/** What clearing leaves behind, and what the profile store holds over whole runs. */
module ProfileRuns {
  import opened ProfileStore

  function Without(s: seq<Profile>, id: nat): seq<Profile> {
    if s == [] then []
    else (if s[0].profileId == id then [] else [s[0]]) + Without(s[1..], id)
  }

  ghost predicate AllMatch(s: seq<Profile>, id: nat) {
    forall p :: p in s ==> p.profileId == id
  }

  ghost predicate NoneMatch(s: seq<Profile>, id: nat) {
    forall p :: p in s ==> p.profileId != id
  }

  /** Clearing an id loses no other profile and keeps the others in order. */
  lemma {:induction false} OthersSurvive(s: seq<Profile>, id: nat)
    ensures Without(AfterClear(s, id), id) == Without(s, id)
  {
    if s != [] {
      if s[0].profileId != id {
        OthersSurvive(s[1..], id);
        WithoutConcat([s[0]], AfterClear(s[1..], id), id);
        WithoutConcat([s[0]], s[1..], id);
        assert s == [s[0]] + s[1..];
      } else if |s| > 1 {
        OthersSurvive(s[2..], id);
        WithoutConcat([s[1]], AfterClear(s[2..], id), id);
        assert s == [s[0]] + ([s[1]] + s[2..]);
        WithoutConcat([s[1]], s[2..], id);
        WithoutConcat([s[0]], [s[1]] + s[2..], id);
      }
    }
  }

  lemma {:induction false} WithoutConcat(s: seq<Profile>, t: seq<Profile>, id: nat)
    ensures Without(s + t, id) == Without(s, id) + Without(t, id)
  {
    if s == [] {
      assert s + t == t;
    } else {
      assert (s + t)[1..] == s[1..] + t;
      WithoutConcat(s[1..], t, id);
    }
  }

  /** The scan treats the entries up to and after a boundary separately unless a run of matches
      crosses the boundary. */
  lemma {:induction false} ClearConcat(s: seq<Profile>, t: seq<Profile>, id: nat)
    requires s == [] || t == [] || s[|s| - 1].profileId != id || t[0].profileId != id
    ensures AfterClear(s + t, id) == AfterClear(s, id) + AfterClear(t, id)
    decreases |s|
  {
    var u := s + t;
    if s == [] {
      assert u == t;
    } else if t == [] {
      assert u == s;
    } else if s[0].profileId != id {
      assert u[0] == s[0] && u[1..] == s[1..] + t;
      ClearConcat(s[1..], t, id);
    } else if |s| == 1 {
      assert u[0] == s[0] && u[1] == t[0] && u[2..] == t[1..];
    } else {
      assert u[0] == s[0] && u[1] == s[1] && u[2..] == s[2..] + t;
      ClearConcat(s[2..], t, id);
    }
  }

  /** Every second entry of a run. */
  function SecondOnes(s: seq<Profile>): seq<Profile> {
    seq(|s| / 2, i requires 0 <= i < |s| / 2 => s[2 * i + 1])
  }

  lemma {:induction false} ClearAllMatching(s: seq<Profile>, id: nat)
    requires AllMatch(s, id)
    ensures AfterClear(s, id) == SecondOnes(s)
  {
    if |s| >= 2 {
      ClearAllMatching(s[2..], id);
      assert SecondOnes(s) == [s[1]] + SecondOnes(s[2..]);
    }
  }

  /** Each maximal run of k matching entries leaves k / 2 of them, the second, the fourth and so on. */
  lemma RunLeavesHalf(before: seq<Profile>, run: seq<Profile>, after: seq<Profile>, id: nat)
    requires AllMatch(run, id)
    requires before == [] || before[|before| - 1].profileId != id
    requires after == [] || after[0].profileId != id
    ensures AfterClear(before + run + after, id) ==
            AfterClear(before, id) + SecondOnes(run) + AfterClear(after, id)
    ensures |SecondOnes(run)| == |run| / 2 && AllMatch(SecondOnes(run), id)
  {
    ClearConcat(before, run, id);
    ClearAllMatching(run, id);
    ClearConcat(before + run, after, id);
  }

  ghost predicate AdjacentMatches(s: seq<Profile>, id: nat) {
    exists i :: 0 < i < |s| && s[i - 1].profileId == id && s[i].profileId == id
  }

  /** Clearing really removes the id, and is then exactly a filter, if and only if no two adjacent
      entries carry it. */
  lemma {:induction false} ClearIsFilterIffNotAdjacent(s: seq<Profile>, id: nat)
    ensures AfterClear(s, id) == Without(s, id) <==> !AdjacentMatches(s, id)
    ensures NoneMatch(AfterClear(s, id), id) <==> !AdjacentMatches(s, id)
  {
    OthersSurvive(s, id);
    WithoutIsNone(s, id);
    var c := AfterClear(s, id);
    if NoneMatch(c, id) {
      WithoutNothing(c, id);
    }
    if !AdjacentMatches(s, id) {
      ClearNotAdjacent(s, id);
    } else {
      var i :| 0 < i < |s| && s[i - 1].profileId == id && s[i].profileId == id;
      ClearAdjacent(s, id, i);
    }
  }

  lemma {:induction false} WithoutIsNone(s: seq<Profile>, id: nat)
    ensures NoneMatch(Without(s, id), id)
  {
    if s != [] {
      WithoutIsNone(s[1..], id);
    }
  }

  lemma {:induction false} WithoutNothing(s: seq<Profile>, id: nat)
    requires NoneMatch(s, id)
    ensures Without(s, id) == s
  {
    if s != [] {
      WithoutNothing(s[1..], id);
    }
  }

  lemma {:induction false} ClearNotAdjacent(s: seq<Profile>, id: nat)
    requires !AdjacentMatches(s, id)
    ensures NoneMatch(AfterClear(s, id), id)
  {
    if s != [] {
      if s[0].profileId != id {
        assert AdjacentMatches(s[1..], id) ==> AdjacentMatches(s, id) by { Shifted(s, id, 1); }
        ClearNotAdjacent(s[1..], id);
      } else if |s| > 1 {
        assert AdjacentMatches(s[2..], id) ==> AdjacentMatches(s, id) by { Shifted(s, id, 2); }
        ClearNotAdjacent(s[2..], id);
      }
    }
  }

  lemma Shifted(s: seq<Profile>, id: nat, k: nat)
    requires k <= |s|
    ensures AdjacentMatches(s[k..], id) ==> AdjacentMatches(s, id)
  {
    if AdjacentMatches(s[k..], id) {
      var i :| 0 < i < |s[k..]| && s[k..][i - 1].profileId == id && s[k..][i].profileId == id;
      assert s[k + i - 1].profileId == id && s[k + i].profileId == id;
    }
  }

  lemma {:induction false} ClearAdjacent(s: seq<Profile>, id: nat, i: nat)
    requires 0 < i < |s| && s[i - 1].profileId == id && s[i].profileId == id
    ensures !NoneMatch(AfterClear(s, id), id)
  {
    var c := AfterClear(s, id);
    if s[0].profileId != id {
      ClearAdjacent(s[1..], id, i - 1);
      var rest := AfterClear(s[1..], id);
      var p :| p in rest && p.profileId == id;
      assert p in c;
    } else if s[1].profileId == id {
      assert s[1] in c;
    } else {
      ClearAdjacent(s[2..], id, i - 2);
      var rest := AfterClear(s[2..], id);
      var p :| p in rest && p.profileId == id;
      assert p in c;
    }
  }

  /** With distinct ids, as the protocol intends, clearing is exactly a filter. */
  lemma DistinctIdsClearExactly(s: seq<Profile>, id: nat)
    requires forall i, j :: 0 <= i < j < |s| ==> s[i].profileId != s[j].profileId
    ensures AfterClear(s, id) == Without(s, id)
  {
    ClearIsFilterIffNotAdjacent(s, id);
  }

  /** A write stores its argument last exactly when there was room, or the last entry equalled it. */
  lemma WriteStoresIffRoom(s: seq<Profile>, p: Profile)
    requires |s| <= MAX_PROFILES
    ensures AfterWrite(s, p)[|AfterWrite(s, p)| - 1] == p <==> |s| < MAX_PROFILES || s[|s| - 1] == p
    ensures |s| < MAX_PROFILES ==> s < AfterWrite(s, p)
    ensures |AfterWrite(s, p)| <= MAX_PROFILES
  {
  }

  /** At 1000 entries every entry moves one place down, so that the oldest is gone, and the last one stays in
      its place as well. */
  lemma FullWriteShifts(s: seq<Profile>, p: Profile)
    requires |s| == 1000
    ensures var r := AfterWrite(s, p);
            |r| == 1000 && r[999] == s[999] && forall k :: 0 <= k < 999 ==> r[k] == s[k + 1]
  {
  }

  /** At 1000 entries a new profile is lost: it is nowhere in the store afterwards. */
  lemma FullStoreLosesProfile(s: seq<Profile>, p: Profile)
    requires |s| == MAX_PROFILES && p !in s
    ensures p !in AfterWrite(s, p)
  {
    assert forall q :: q in s[1..] ==> q in s;
  }

  datatype Op = Write(profile: Profile) | Clear(id: nat)

  function Apply(s: seq<Profile>, op: Op): seq<Profile> {
    match op
    case Write(p) => AfterWrite(s, p)
    case Clear(id) => AfterClear(s, id)
  }

  function Run(ops: seq<Op>): seq<Profile> {
    if ops == [] then [] else Apply(Run(ops[..|ops| - 1]), ops[|ops| - 1])
  }

  lemma {:induction false} ClearKeepsEntries(s: seq<Profile>, id: nat)
    ensures |AfterClear(s, id)| <= |s|
    ensures forall p :: p in AfterClear(s, id) ==> p in s
  {
    if s != [] {
      ClearKeepsEntries(s[1..], id);
      if |s| > 1 {
        ClearKeepsEntries(s[2..], id);
      }
    }
  }

  /** Over every run from an empty store there are at most 1000 entries, and each was the argument of
      an earlier write. */
  lemma {:induction false} RunHoldsOnlyWritten(ops: seq<Op>)
    ensures |Run(ops)| <= MAX_PROFILES
    ensures forall p :: p in Run(ops) ==> Write(p) in ops
  {
    if ops != [] {
      var init, op := ops[..|ops| - 1], ops[|ops| - 1];
      RunHoldsOnlyWritten(init);
      var s := Run(init);
      assert forall p :: Write(p) in init ==> Write(p) in ops;
      match op
      case Write(p) =>
        assert forall q :: q in AfterWrite(s, p) ==> q in s || q == p;
      case Clear(id) => ClearKeepsEntries(s, id);
    }
  }
}
