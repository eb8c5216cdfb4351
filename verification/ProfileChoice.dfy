/** Which stored profile each connector charges by. */
module ProfileChoice {
  import opened Basics
  import opened ProfileStore

  const CHARGE_POINT_MAX: nat := 1
  const TX_DEFAULT: nat := 2
  const TX_PROFILE: nat := 3
  /** A profile struct after memset. */
  const ZEROED: Profile := Profile(0, 0, 0, 0, 0, 0)

  predicate Applies(p: Profile, conn: nat) {
    p.connectorId == conn || p.connectorId == 0
  }

  /** The profiles a search looks at: all those of the connector, or those of one purpose. */
  datatype Filter = Any | Purpose(purpose: nat)

  predicate Eligible(p: Profile, conn: nat, f: Filter) {
    Applies(p, conn) && (f.Purpose? ==> p.purpose == f.purpose)
  }

  /** No eligible profile among the first n has a level above 0. */
  ghost predicate NoneAboveZero(s: seq<Profile>, conn: nat, f: Filter, n: nat) {
    forall i :: 0 <= i < n && i < |s| && Eligible(s[i], conn, f) ==> s[i].stackLevel == 0
  }

  /** Entry k is the first of the highest level among the first n eligible profiles. */
  ghost predicate IsTopAt(s: seq<Profile>, conn: nat, f: Filter, k: nat, n: nat) {
    && k < n <= |s| && Eligible(s[k], conn, f) && s[k].stackLevel > 0
    && (forall i :: 0 <= i < k && Eligible(s[i], conn, f) ==> s[i].stackLevel < s[k].stackLevel)
    && (forall i :: k <= i < n && Eligible(s[i], conn, f) ==> s[i].stackLevel <= s[k].stackLevel)
  }

  /** The first eligible profile of the highest level above 0; ZEROED when there is none. */
  ghost predicate IsTop(s: seq<Profile>, conn: nat, f: Filter, top: Profile) {
    || (NoneAboveZero(s, conn, f, |s|) && top == ZEROED)
    || (exists k: nat :: IsTopAt(s, conn, f, k, |s|) && top == s[k])
  }

  lemma TopIsUnique(s: seq<Profile>, conn: nat, f: Filter, a: Profile, b: Profile)
    requires IsTop(s, conn, f, a) && IsTop(s, conn, f, b)
    ensures a == b
  {
    forall k: nat, l: nat | IsTopAt(s, conn, f, k, |s|) && IsTopAt(s, conn, f, l, |s|)
      ensures k == l
    {
      TopAtIsUnique(s, conn, f, k, l);
    }
  }

  lemma TopAtIsUnique(s: seq<Profile>, conn: nat, f: Filter, k: nat, l: nat)
    requires IsTopAt(s, conn, f, k, |s|) && IsTopAt(s, conn, f, l, |s|)
    ensures k == l
  {
    var x, y := s[k].stackLevel, s[l].stackLevel;
    assert x <= y <==> k <= l;
    assert y <= x <==> l <= k;
  }

  /** The search has looked at n entries and holds the level and the number of the best one. */
  ghost predicate Searched(s: seq<Profile>, conn: nat, f: Filter, n: nat, level: nat, count: nat) {
    && n <= |s| && count <= n
    && if count == 0 then level == 0 && NoneAboveZero(s, conn, f, n)
       else IsTopAt(s, conn, f, count - 1, n) && s[count - 1].stackLevel == level
  }

  lemma SearchStep(s: seq<Profile>, conn: nat, f: Filter, n: nat, level: nat, count: nat)
    requires Searched(s, conn, f, n, level, count) && n < |s|
    ensures if Eligible(s[n], conn, f) && s[n].stackLevel > level
            then Searched(s, conn, f, n + 1, s[n].stackLevel, n + 1)
            else Searched(s, conn, f, n + 1, level, count)
  {
  }

  /** The three max-stack-level searches. */
  method Search(store: Store, conn: nat, f: Filter) returns (top: Profile)
    requires store.Valid()
    ensures IsTop(store.Contents(), conn, f, top)
  {
    var n := store.ReadCount();
    ghost var s := store.Contents();
    var maxStackLevel, maxCount := 0, 0;
    for i := 1 to n + 1
      invariant Searched(s, conn, f, i - 1, maxStackLevel, maxCount)
    {
      var p := store.ReadProfile(i);
      SearchStep(s, conn, f, i - 1, maxStackLevel, maxCount);
      if Eligible(p, conn, f) {
        if p.stackLevel > maxStackLevel {
          maxStackLevel := p.stackLevel;
          maxCount := i;
        }
      }
    }
    top := ZEROED;
    if maxCount > 0 {
      top := store.ReadProfile(maxCount);
    }
  }

  /** The decision of set_ChargingProfiles from the three search results. */
  function Decide(top: Profile, txDefault: Profile, chargePointMax: Profile, transactionId: nat): Profile {
    if top.purpose == TX_PROFILE && top.transactionId != transactionId then
      if txDefault.stackLevel >= chargePointMax.stackLevel then txDefault else chargePointMax
    else top
  }

  ghost predicate IsChoice(s: seq<Profile>, conn: nat, transactionId: nat, chosen: Profile) {
    exists top, txDefault, chargePointMax ::
      && IsTop(s, conn, Any, top)
      && IsTop(s, conn, Purpose(TX_DEFAULT), txDefault)
      && IsTop(s, conn, Purpose(CHARGE_POINT_MAX), chargePointMax)
      && chosen == Decide(top, txDefault, chargePointMax, transactionId)
  }

  /** set_ChargingProfiles: chosen is the global ChargingProfile array, transactionIds the connectors'
      current transactions. */
  method SetChargingProfiles(store: Store, transactionIds: array<nat>, chosen: array<Profile>)
    requires store.Valid() && transactionIds.Length == chosen.Length == NUM_OF_CONNECTORS
    modifies chosen, store`addedOrDeleted
    ensures store.Valid() && store.Contents() == old(store.Contents()) && !store.addedOrDeleted
    ensures chosen[0] == old(chosen[0])
    ensures forall c :: 1 <= c < NUM_OF_CONNECTORS ==>
              IsChoice(store.Contents(), c, transactionIds[c], chosen[c])
  {
    for c := 1 to NUM_OF_CONNECTORS
      invariant store.Valid() && chosen[0] == old(chosen[0])
      invariant forall d :: 1 <= d < c ==> IsChoice(store.Contents(), d, transactionIds[d], chosen[d])
      modifies chosen
    {
      var top := Search(store, c, Any);
      var txDefault := Search(store, c, Purpose(TX_DEFAULT));
      var chargePointMax := Search(store, c, Purpose(CHARGE_POINT_MAX));
      if top.purpose == TX_PROFILE && top.transactionId == transactionIds[c] {
        chosen[c] := top;
      } else if top.purpose == TX_PROFILE && top.transactionId != transactionIds[c] {
        if txDefault.stackLevel >= chargePointMax.stackLevel {
          chosen[c] := txDefault;
        } else {
          chosen[c] := chargePointMax;
        }
      } else {
        chosen[c] := top;
      }
      assert chosen[c] == Decide(top, txDefault, chargePointMax, transactionIds[c]);
    }
    store.addedOrDeleted := false;
  }

  /** A store, a connector and a transaction determine the choice. */
  lemma ChoiceIsUnique(s: seq<Profile>, conn: nat, transactionId: nat, a: Profile, b: Profile)
    requires IsChoice(s, conn, transactionId, a) && IsChoice(s, conn, transactionId, b)
    ensures a == b
  {
    forall f: Filter, top, other | IsTop(s, conn, f, top) && IsTop(s, conn, f, other)
      ensures top == other
    {
      TopIsUnique(s, conn, f, top, other);
    }
  }

  /** The chosen profile is zeroed or stored for this connector or all of them, is never another
      transaction's TxProfile, and is at least as high as every applicable default or maximum. */
  lemma ChoiceIsSound(s: seq<Profile>, conn: nat, transactionId: nat, chosen: Profile)
    requires IsChoice(s, conn, transactionId, chosen)
    ensures chosen == ZEROED || (chosen in s && Applies(chosen, conn) && chosen.stackLevel > 0)
    ensures !(chosen.purpose == TX_PROFILE && chosen.transactionId != transactionId)
    ensures forall p :: p in s && Applies(p, conn) && (p.purpose == TX_DEFAULT || p.purpose == CHARGE_POINT_MAX) ==>
                          p.stackLevel <= chosen.stackLevel
  {
    var top, txDefault, chargePointMax :|
      && IsTop(s, conn, Any, top)
      && IsTop(s, conn, Purpose(TX_DEFAULT), txDefault)
      && IsTop(s, conn, Purpose(CHARGE_POINT_MAX), chargePointMax)
      && chosen == Decide(top, txDefault, chargePointMax, transactionId);
    TopBounds(s, conn, Any, top);
    TopBounds(s, conn, Purpose(TX_DEFAULT), txDefault);
    TopBounds(s, conn, Purpose(CHARGE_POINT_MAX), chargePointMax);
  }

  lemma TopBounds(s: seq<Profile>, conn: nat, f: Filter, top: Profile)
    requires IsTop(s, conn, f, top)
    ensures top == ZEROED || (top in s && Eligible(top, conn, f) && top.stackLevel > 0)
    ensures forall p :: p in s && Eligible(p, conn, f) ==> p.stackLevel <= top.stackLevel
  {
    if top != ZEROED {
      var k: nat :| IsTopAt(s, conn, f, k, |s|) && top == s[k];
      forall p | p in s && Eligible(p, conn, f)
        ensures p.stackLevel <= top.stackLevel
      {
        var i :| 0 <= i < |s| && s[i] == p;
      }
    }
  }

  predicate IsOwn(p: Profile, conn: nat, transactionId: nat) {
    Applies(p, conn) && p.purpose == TX_PROFILE && p.transactionId == transactionId
  }

  /** Profiles that may stand in for a TxProfile. */
  predicate IsFallback(p: Profile, conn: nat) {
    Applies(p, conn) && (p.purpose == TX_DEFAULT || p.purpose == CHARGE_POINT_MAX)
  }

  /** The first of the connector's highest entries is a TxProfile of another transaction. */
  ghost predicate ForeignOnTop(s: seq<Profile>, conn: nat, transactionId: nat) {
    exists k: nat :: IsTopAt(s, conn, Any, k, |s|) && s[k].purpose == TX_PROFILE && s[k].transactionId != transactionId
  }

  lemma ForeignIsTop(s: seq<Profile>, conn: nat, transactionId: nat, top: Profile)
    requires IsTop(s, conn, Any, top)
    ensures ForeignOnTop(s, conn, transactionId) <==> top.purpose == TX_PROFILE && top.transactionId != transactionId
  {
    forall k: nat, l: nat | IsTopAt(s, conn, Any, k, |s|) && IsTopAt(s, conn, Any, l, |s|)
      ensures k == l
    {
      TopAtIsUnique(s, conn, Any, k, l);
    }
  }

  /** What the choice amounts to: the highest applicable entry, unless a foreign TxProfile is first of
      those; then the highest fallback. */
  lemma ChosenLevel(s: seq<Profile>, conn: nat, transactionId: nat, chosen: Profile)
    requires IsChoice(s, conn, transactionId, chosen)
    ensures chosen == ZEROED || (chosen in s && Applies(chosen, conn) && chosen.stackLevel > 0)
    ensures !ForeignOnTop(s, conn, transactionId) ==>
              forall p :: p in s && Applies(p, conn) ==> p.stackLevel <= chosen.stackLevel
    ensures ForeignOnTop(s, conn, transactionId) ==>
              && (chosen != ZEROED ==> IsFallback(chosen, conn))
              && forall p :: p in s && IsFallback(p, conn) ==> p.stackLevel <= chosen.stackLevel
  {
    var top, txDefault, chargePointMax :|
      && IsTop(s, conn, Any, top)
      && IsTop(s, conn, Purpose(TX_DEFAULT), txDefault)
      && IsTop(s, conn, Purpose(CHARGE_POINT_MAX), chargePointMax)
      && chosen == Decide(top, txDefault, chargePointMax, transactionId);
    ForeignIsTop(s, conn, transactionId, top);
    TopBounds(s, conn, Any, top);
    TopBounds(s, conn, Purpose(TX_DEFAULT), txDefault);
    TopBounds(s, conn, Purpose(CHARGE_POINT_MAX), chargePointMax);
  }

  /** A connector gets some profile exactly when one is usable at a level above 0: level 0, the lowest
      the protocol allows, never counts. With a foreign TxProfile on top only fallbacks are usable. */
  lemma SomethingChosenIff(s: seq<Profile>, conn: nat, transactionId: nat, chosen: Profile)
    requires IsChoice(s, conn, transactionId, chosen)
    ensures chosen != ZEROED <==>
            exists p :: p in s && Applies(p, conn) && p.stackLevel > 0 &&
                        (ForeignOnTop(s, conn, transactionId) ==> IsFallback(p, conn))
  {
    ChosenLevel(s, conn, transactionId, chosen);
  }

  /** A lone TxDefault profile of the lowest level the protocol allows is never chosen. */
  lemma LevelZeroIsIgnored(conn: nat, transactionId: nat)
    ensures IsChoice([Profile(conn, 1, 0, 0, TX_DEFAULT, 0)], conn, transactionId, ZEROED)
  {
    var s := [Profile(conn, 1, 0, 0, TX_DEFAULT, 0)];
    assert IsTop(s, conn, Any, ZEROED) && IsTop(s, conn, Purpose(TX_DEFAULT), ZEROED)
        && IsTop(s, conn, Purpose(CHARGE_POINT_MAX), ZEROED);
    assert Decide(ZEROED, ZEROED, ZEROED, transactionId) == ZEROED;
  }

  /** No TxProfile of the connector's own transaction outranks the choice, unless a foreign one is on top
      and an own one stands above every fallback: exactly then it is passed over. */
  lemma OwnProfileRespectedIff(s: seq<Profile>, conn: nat, transactionId: nat, chosen: Profile)
    requires IsChoice(s, conn, transactionId, chosen)
    ensures (forall p :: p in s && IsOwn(p, conn, transactionId) ==> p.stackLevel <= chosen.stackLevel)
            <==>
            !(&& ForeignOnTop(s, conn, transactionId)
              && exists p :: p in s && IsOwn(p, conn, transactionId) && p.stackLevel > 0 &&
                             forall q :: q in s && IsFallback(q, conn) ==> q.stackLevel < p.stackLevel)
  {
    ChosenLevel(s, conn, transactionId, chosen);
    if p :| p in s && IsOwn(p, conn, transactionId) && p.stackLevel > chosen.stackLevel {
      assert forall q :: q in s && IsFallback(q, conn) ==> q.stackLevel < p.stackLevel;
    }
  }

  /** Entry k is the first of the highest level above 0 among those of the connector or of all connectors
      that have one of the given purposes. */
  ghost predicate FirstHighest(s: seq<Profile>, conn: nat, purposes: set<nat>, k: nat) {
    && k < |s| && (s[k].connectorId == conn || s[k].connectorId == 0) && s[k].purpose in purposes && s[k].stackLevel > 0
    && (forall i :: 0 <= i < |s| && (s[i].connectorId == conn || s[i].connectorId == 0) && s[i].purpose in purposes ==>
                      if i < k then s[i].stackLevel < s[k].stackLevel else s[i].stackLevel <= s[k].stackLevel)
  }

  /** No such entry is above the level. */
  ghost predicate NoneAbove(s: seq<Profile>, conn: nat, purposes: set<nat>, level: nat) {
    forall i :: 0 <= i < |s| && (s[i].connectorId == conn || s[i].connectorId == 0) && s[i].purpose in purposes ==>
                  s[i].stackLevel <= level
  }

  lemma HighestOfPurpose(s: seq<Profile>, conn: nat, purpose: nat, k: nat, top: Profile)
    requires FirstHighest(s, conn, {purpose}, k) && IsTop(s, conn, Purpose(purpose), top)
    ensures top == s[k]
  {
    assert IsTopAt(s, conn, Purpose(purpose), k, |s|);
    TopIsUnique(s, conn, Purpose(purpose), top, s[k]);
  }

  lemma NoneOfPurpose(s: seq<Profile>, conn: nat, purpose: nat, top: Profile)
    requires NoneAbove(s, conn, {purpose}, 0) && IsTop(s, conn, Purpose(purpose), top)
    ensures top == ZEROED
  {
  }

  /** The whole decision, entry by entry, when the connector's highest entry is a TxProfile (purpose 3) of
      another transaction: the highest TxDefault profile (purpose 2) if no ChargePointMax profile
      (purpose 1) is above it, so also on a tie; else the highest ChargePointMax profile; else nothing. */
  lemma ForeignOnTopDecides(s: seq<Profile>, conn: nat, transactionId: nat, chosen: Profile, top: nat, k: nat)
    requires IsChoice(s, conn, transactionId, chosen) && IsTopAt(s, conn, Any, top, |s|)
    requires s[top].purpose == 3 && s[top].transactionId != transactionId
    ensures FirstHighest(s, conn, {2}, k) && NoneAbove(s, conn, {1}, s[k].stackLevel) ==> chosen == s[k]
    ensures FirstHighest(s, conn, {1}, k) && NoneAbove(s, conn, {2}, s[k].stackLevel - 1) ==> chosen == s[k]
    ensures NoneAbove(s, conn, {1, 2}, 0) ==> chosen == Profile(0, 0, 0, 0, 0, 0)
  {
    var any, txDefault, chargePointMax :|
      && IsTop(s, conn, Any, any)
      && IsTop(s, conn, Purpose(TX_DEFAULT), txDefault)
      && IsTop(s, conn, Purpose(CHARGE_POINT_MAX), chargePointMax)
      && chosen == Decide(any, txDefault, chargePointMax, transactionId);
    TopIsUnique(s, conn, Any, any, s[top]);
    TopBounds(s, conn, Purpose(TX_DEFAULT), txDefault);
    TopBounds(s, conn, Purpose(CHARGE_POINT_MAX), chargePointMax);
    if FirstHighest(s, conn, {2}, k) && NoneAbove(s, conn, {1}, s[k].stackLevel) {
      HighestOfPurpose(s, conn, 2, k, txDefault);
    }
    if FirstHighest(s, conn, {1}, k) && NoneAbove(s, conn, {2}, s[k].stackLevel - 1) {
      HighestOfPurpose(s, conn, 1, k, chargePointMax);
    }
    if NoneAbove(s, conn, {1, 2}, 0) {
      NoneOfPurpose(s, conn, 1, chargePointMax);
      NoneOfPurpose(s, conn, 2, txDefault);
    }
  }

  /** And when it is anything else: that entry, of whatever purpose. */
  lemma OwnOnTopDecides(s: seq<Profile>, conn: nat, transactionId: nat, chosen: Profile, k: nat)
    requires IsChoice(s, conn, transactionId, chosen)
    requires k < |s| && (s[k].connectorId == conn || s[k].connectorId == 0) && s[k].stackLevel > 0
    requires forall i :: 0 <= i < |s| && (s[i].connectorId == conn || s[i].connectorId == 0) ==>
                           if i < k then s[i].stackLevel < s[k].stackLevel else s[i].stackLevel <= s[k].stackLevel
    requires s[k].purpose == 3 ==> s[k].transactionId == transactionId
    ensures chosen == s[k]
  {
    assert IsTopAt(s, conn, Any, k, |s|);
    var any, txDefault, chargePointMax :|
      && IsTop(s, conn, Any, any)
      && IsTop(s, conn, Purpose(TX_DEFAULT), txDefault)
      && IsTop(s, conn, Purpose(CHARGE_POINT_MAX), chargePointMax)
      && chosen == Decide(any, txDefault, chargePointMax, transactionId);
    TopIsUnique(s, conn, Any, any, s[k]);
  }

  /** A transaction's own TxProfile can be passed over: here another transaction's, one level higher,
      hides it, and the connector ends with no profile at all. */
  lemma OwnTxProfileShadowed()
    ensures var own := Profile(1, 7, 70, 1, TX_PROFILE, 0);
            var foreign := Profile(1, 8, 80, 2, TX_PROFILE, 0);
            IsChoice([own, foreign], 1, 70, ZEROED)
  {
    var s := [Profile(1, 7, 70, 1, TX_PROFILE, 0), Profile(1, 8, 80, 2, TX_PROFILE, 0)];
    assert IsTopAt(s, 1, Any, 1, 2);
    assert IsTop(s, 1, Any, s[1]);
    assert Decide(s[1], ZEROED, ZEROED, 70) == ZEROED;
  }
}
