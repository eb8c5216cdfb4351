/** The cache of relay commands that SlaveUpdateRelay keeps: what it means over whole runs. */
module RelayCache {
  import opened Basics

  /** A C bool, compared with an 8-bit state. */
  function CBool(b: bool): byte { if b then 1 else 0 }

  /** A relay command and whether the slave's acknowledgement was seen in time, if it was sent. */
  datatype RelayCall = RelayCall(relay: byte, state: byte, acked: bool)

  datatype RelayReply = RelayReply(cache: seq<bool>, sent: bool, transmitted: bool)

  function RelayStep(cache: seq<bool>, call: RelayCall): RelayReply
    requires call.relay < |cache|
  {
    if CBool(cache[call.relay]) == call.state then RelayReply(cache, true, false)
    else if call.acked then RelayReply(cache[call.relay := call.state != 0], true, true)
    else RelayReply(cache, false, true)
  }

  ghost predicate InRange(cache: seq<bool>, calls: seq<RelayCall>) {
    forall c :: c in calls ==> c.relay < |cache|
  }

  ghost function Replay(cache: seq<bool>, calls: seq<RelayCall>): (r: seq<bool>)
    requires InRange(cache, calls)
    ensures |r| == |cache|
  {
    if calls == [] then cache
    else RelayStep(Replay(cache, calls[..|calls| - 1]), calls[|calls| - 1]).cache
  }

  /** Call k was transmitted for this relay and acknowledged. */
  ghost predicate AckedAt(cache: seq<bool>, calls: seq<RelayCall>, relay: byte, k: nat)
    requires InRange(cache, calls) && k < |calls|
  {
    && calls[k].relay == relay && calls[k].acked
    && RelayStep(Replay(cache, calls[..k]), calls[k]).transmitted
  }

  /** Nothing was acknowledged for this relay from call k on. */
  ghost predicate NoAckFrom(cache: seq<bool>, calls: seq<RelayCall>, relay: byte, k: nat)
    requires InRange(cache, calls)
  {
    forall j: nat :: k <= j < |calls| ==> !AckedAt(cache, calls, relay, j)
  }

  lemma {:induction false} CacheUntouched(cache: seq<bool>, calls: seq<RelayCall>, relay: byte, k: nat)
    requires InRange(cache, calls) && relay < |cache| && k <= |calls| && NoAckFrom(cache, calls, relay, k)
    ensures Replay(cache, calls)[relay] == Replay(cache, calls[..k])[relay]
  {
    if k == |calls| {
      assert calls[..k] == calls;
    } else {
      var n := |calls| - 1;
      var init := calls[..n];
      forall j: nat | k <= j < n
        ensures !AckedAt(cache, init, relay, j)
      {
        assert init[..j] == calls[..j];
        assert !AckedAt(cache, calls, relay, j);
      }
      CacheUntouched(cache, init, relay, k);
      assert init[..k] == calls[..k];
      assert !AckedAt(cache, calls, relay, n);
    }
  }

  /** After any run the cached state is the last one the slave acknowledged; before the first
      acknowledgement it is the initial one (CacheUntouched from call 0). */
  lemma CacheIsLastAcked(cache: seq<bool>, calls: seq<RelayCall>, relay: byte, k: nat)
    requires InRange(cache, calls) && relay < |cache|
    requires k < |calls| && AckedAt(cache, calls, relay, k) && NoAckFrom(cache, calls, relay, k + 1)
    ensures Replay(cache, calls)[relay] == (calls[k].state != 0)
  {
    CacheUntouched(cache, calls, relay, k + 1);
    assert calls[..k + 1][..k] == calls[..k];
  }

  /** For the states the firmware uses, a call succeeds exactly when the cache then holds the requested
      state; for a state above 1 that fails, because the cache keeps only a bool. */
  lemma RepliesMatchCacheIffBoolean(cache: seq<bool>, relay: byte, state: byte)
    requires relay < |cache|
    ensures state <= 1 <==>
            forall acked :: var r := RelayStep(cache, RelayCall(relay, state, acked));
                            r.sent <==> CBool(r.cache[relay]) == state
  {
    var r := RelayStep(cache, RelayCall(relay, state, true));
    assert state > 1 ==> r.sent && CBool(r.cache[relay]) != state;
  }

  /** The next call for the same state is transmitted exactly when the first one was not acknowledged,
      or when the state is above 1, which no cached bool equals. */
  lemma UnackedIsResent(cache: seq<bool>, relay: byte, state: byte, acked: bool)
    requires relay < |cache|
    ensures var first := RelayStep(cache, RelayCall(relay, state, acked));
            var second := RelayStep(first.cache, RelayCall(relay, state, true));
            second.transmitted <==> !first.sent || state > 1
  {
  }

  /** What becomes of a transmitted command: whether the slave carried it out, and whether the master saw
      the flag. The two are independent, because any valid frame with the relay id raises the flag: the
      reply may be lost, and a reply to another relay's command may stand in for it. */
  datatype Fate = Fate(executed: bool, acked: bool)

  datatype World = World(cache: seq<bool>, slave: seq<bool>)

  datatype Outcome = Outcome(world: World, sent: bool, transmitted: bool)

  /** The same call with the slave's own relays beside the cache. */
  function Command(w: World, relay: byte, state: byte, fate: Fate): (r: Outcome)
    requires relay < |w.cache| == |w.slave|
    ensures |r.world.cache| == |r.world.slave| == |w.cache|
  {
    var reply := RelayStep(w.cache, RelayCall(relay, state, fate.acked));
    var slave := if reply.transmitted && fate.executed then w.slave[relay := state != 0] else w.slave;
    Outcome(World(reply.cache, slave), reply.sent, reply.transmitted)
  }

  /** A call that reports success leaves the slave's relay as requested exactly when the relay was there
      already, or the command was really sent and its acknowledgement was not another's. */
  lemma SuccessMeansSwitchedIff(w: World, relay: byte, state: byte, fate: Fate)
    requires relay < |w.cache| == |w.slave|
    ensures var r := Command(w, relay, state, fate);
            (r.sent ==> r.world.slave[relay] == (state != 0))
            <==> || w.slave[relay] == (state != 0)
                 || (CBool(w.cache[relay]) != state && (fate.acked ==> fate.executed))
  {
  }

  /** If only executed commands are acknowledged, what is left to go wrong is a stale cache entry that
      equals the request. */
  lemma SuccessMeansSwitchedIffFresh(w: World, relay: byte, state: byte)
    requires relay < |w.cache| == |w.slave|
    ensures (forall fate: Fate | fate.acked ==> fate.executed ::
               var r := Command(w, relay, state, fate); r.sent ==> r.world.slave[relay] == (state != 0))
            <==> (CBool(w.cache[relay]) == state ==> w.slave[relay] == w.cache[relay])
  {
    var r := Command(w, relay, state, Fate(false, false));
    assert CBool(w.cache[relay]) == state ==> r.sent && r.world.slave == w.slave;
  }

  /** It does go wrong: close with the acknowledgement lost, then open. The second call reports
      success without sending anything, and the slave's relay stays closed. */
  lemma LostAcknowledgementHidesClosedRelay()
    ensures var w0 := World([false, false], [false, false]);
            var closing := Command(w0, 1, 1, Fate(true, false));
            var opening := Command(closing.world, 1, 0, Fate(true, true));
            !closing.sent && opening.sent && opening.world.slave[1]
  {
  }

  /** And it goes wrong with fresh entries: the command for relay 2 is lost while the reply to relay 1
      arrives. The call reports success, relay 2 has not moved, and asking again sends nothing. */
  lemma ForeignAcknowledgementHidesOpenRelay()
    ensures var w0 := World([false, false, false], [false, false, false]);
            var closing := Command(w0, 2, 1, Fate(false, true));
            var again := Command(closing.world, 2, 1, Fate(true, true));
            && closing.sent && closing.transmitted && !closing.world.slave[2]
            && again.sent && !again.transmitted && !again.world.slave[2]
  {
  }

  datatype Attempt = Attempt(relay: byte, state: byte, fate: Fate)

  ghost predicate AttemptsInRange(w: World, attempts: seq<Attempt>) {
    |w.cache| == |w.slave| && forall a :: a in attempts ==> a.relay < |w.cache|
  }

  ghost function Attempts(w: World, attempts: seq<Attempt>): (r: World)
    requires AttemptsInRange(w, attempts)
    ensures |r.cache| == |r.slave| == |w.cache|
  {
    if attempts == [] then w
    else
      var a := attempts[|attempts| - 1];
      Command(Attempts(w, attempts[..|attempts| - 1]), a.relay, a.state, a.fate).world
  }

  /** One call keeps cache and slave in agreement exactly when it was acknowledged if and only if it was
      executed, or it asked for what both already had. */
  ghost predicate Faithful(w: World, a: Attempt)
    requires a.relay < |w.cache|
  {
    (a.fate.executed <==> a.fate.acked) || w.cache[a.relay] == (a.state != 0)
  }

  lemma OneCallMirrorsIff(w: World, a: Attempt)
    requires w.cache == w.slave && a.relay < |w.cache|
    ensures var r := Command(w, a.relay, a.state, a.fate).world;
            r.cache == r.slave <==> Faithful(w, a)
  {
    var r := Command(w, a.relay, a.state, a.fate).world;
    assert r.cache == r.slave ==> r.cache[a.relay] == r.slave[a.relay];
  }

  ghost predicate MirrorsThroughout(w: World, attempts: seq<Attempt>)
    requires AttemptsInRange(w, attempts)
  {
    forall k: nat :: k <= |attempts| ==> Attempts(w, attempts[..k]).cache == Attempts(w, attempts[..k]).slave
  }

  ghost predicate FaithfulThroughout(w: World, attempts: seq<Attempt>)
    requires AttemptsInRange(w, attempts)
  {
    forall k: nat :: k < |attempts| ==> Faithful(Attempts(w, attempts[..k]), attempts[k])
  }

  /** Over every run from agreement, cache and slave agree throughout exactly when every call is
      acknowledged if and only if it is executed, save those that ask for what is already there. */
  lemma CacheMirrorsSlaveIff(w: World, attempts: seq<Attempt>)
    requires w.cache == w.slave && AttemptsInRange(w, attempts)
    ensures MirrorsThroughout(w, attempts) <==> FaithfulThroughout(w, attempts)
  {
    if MirrorsThroughout(w, attempts) {
      forall k: nat | k < |attempts|
        ensures Faithful(Attempts(w, attempts[..k]), attempts[k])
      {
        AttemptsNext(w, attempts, k);
        OneCallMirrorsIff(Attempts(w, attempts[..k]), attempts[k]);
      }
    }
    if FaithfulThroughout(w, attempts) {
      forall k: nat | k <= |attempts|
        ensures Attempts(w, attempts[..k]).cache == Attempts(w, attempts[..k]).slave
      {
        FaithfulMirrors(w, attempts, k);
      }
    }
  }

  lemma AttemptsNext(w: World, attempts: seq<Attempt>, k: nat)
    requires AttemptsInRange(w, attempts) && k < |attempts|
    ensures var a := attempts[k];
            Attempts(w, attempts[..k + 1]) == Command(Attempts(w, attempts[..k]), a.relay, a.state, a.fate).world
  {
    assert attempts[..k + 1][..k] == attempts[..k];
  }

  lemma {:induction false} FaithfulMirrors(w: World, attempts: seq<Attempt>, k: nat)
    requires w.cache == w.slave && AttemptsInRange(w, attempts)
    requires FaithfulThroughout(w, attempts) && k <= |attempts|
    ensures Attempts(w, attempts[..k]).cache == Attempts(w, attempts[..k]).slave
    decreases k
  {
    if k > 0 {
      FaithfulMirrors(w, attempts, k - 1);
      AttemptsNext(w, attempts, k - 1);
      OneCallMirrorsIff(Attempts(w, attempts[..k - 1]), attempts[k - 1]);
    }
  }

  /** In such a run every reported success is true. */
  lemma FaithfulRunsReportTruly(w: World, attempts: seq<Attempt>, k: nat)
    requires w.cache == w.slave && AttemptsInRange(w, attempts)
    requires FaithfulThroughout(w, attempts) && k < |attempts|
    ensures var a := attempts[k];
            var r := Command(Attempts(w, attempts[..k]), a.relay, a.state, a.fate);
            r.sent ==> r.world.slave[a.relay] == (a.state != 0)
  {
    FaithfulMirrors(w, attempts, k);
    assert Faithful(Attempts(w, attempts[..k]), attempts[k]);
  }
}
