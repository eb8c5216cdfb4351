/**
 The relay of the AC1 board: the pilot task switches it, the fault task steps its timers and PWM, and
 the meter task looks for a welded contact. Each block between delays is one step.
 */
module RelayBoard {

  import opened Basics

  datatype PilotState = StateA | StateB1 | StateB2 | StateC | StateD | StateE1 | StateE2 | StateDis

  /** One voltage window of the pilot, [low, high). */
  datatype Window = Window(low: int, high: int)

  datatype Thresholds = Thresholds(a: Window, b1: Window, b2: Window, e2: Window, dis: Window,
                                   c: Window, d: Window, e1Max: int)

  predicate Within(adc: int, w: Window) { w.low <= adc < w.high }

  /** The classification cascade of cpTask; None when no window matches. */
  function Classify(adc: int, t: Thresholds): Option<PilotState> {
    if Within(adc, t.a) then Some(StateA)
    else if Within(adc, t.b1) then Some(StateB1)
    else if Within(adc, t.b2) then Some(StateB2)
    else if Within(adc, t.e2) then Some(StateE2)
    else if Within(adc, t.dis) then Some(StateDis)
    else if Within(adc, t.c) then Some(StateC)
    else if Within(adc, t.d) then Some(StateD)
    else if adc < t.e1Max then Some(StateE1)
    else None
  }

  predicate Charging(s: Option<PilotState>) { s == Some(StateC) || s == Some(StateD) }

  const TIMER_MAX: nat := 230
  const WELD_TICKS: nat := 50
  const RELAY1: int := 1
  const FULL_PILOT_DUTY: int := 100

  /** The coil's PWM duty while the relay is closed. */
  function DutyAt(onTime: nat): nat {
    if onTime > 225 then 256 else if onTime > 150 then 512 else if onTime > 75 then 768 else 1024
  }

  datatype State = State(closed: bool, onTime: nat, offTime: nat, duty: nat,
                         cpState: PilotState, pilotDuty: int, weld: bool)

  /** Stop is the stop-transaction state of the connector task, which opens the relay. */
  datatype Event = Pilot(adc: int) | Tick | Meter(voltageB: real, threePhase: bool) | Stop

  datatype Config = Config(thresholds: Thresholds, pilotDuty: int)

  function Switched(s: State, close: bool): State {
    if s.closed == close then s
    else s.(closed := close, onTime := 0, offTime := 0, duty := if close then 1024 else 0)
  }

  function Weld(s: State, voltageB: real, threePhase: bool): bool {
    !threePhase && if s.closed then voltageB < 10.0 && s.onTime > WELD_TICKS
                   else voltageB > 10.0 && s.offTime > WELD_TICKS
  }

  function Step(s: State, e: Event, c: Config): State {
    match e
    case Pilot(adc) =>
      var found := Classify(adc, c.thresholds);
      Switched(s, Charging(found)).(
        cpState := if found.Some? then found.value else s.cpState,
        pilotDuty := if Charging(found) || found == Some(StateB2) then c.pilotDuty else FULL_PILOT_DUTY)
    case Tick =>
      if s.closed then
        var t := Min(s.onTime + 1, TIMER_MAX);
        s.(onTime := t, duty := DutyAt(t))
      else s.(offTime := Min(s.offTime + 1, TIMER_MAX))
    case Meter(voltageB, threePhase) => s.(weld := Weld(s, voltageB, threePhase))
    case Stop => Switched(s, false).(pilotDuty := FULL_PILOT_DUTY)
  }

  function Initial(): State {
    State(false, 0, 0, 0, StateA, FULL_PILOT_DUTY, false)
  }

  class Board {
    const config: Config
    var relayState: int
    var relayOnTime: nat
    var relayOffTime: nat
    var duty: nat
    var cpState: PilotState
    var pilotDuty: int
    var weldDetected: bool

    ghost predicate Valid()
      reads this
    {
      relayState in {0, 1} && relayOnTime <= TIMER_MAX && relayOffTime <= TIMER_MAX
    }

    ghost function Now(): State
      reads this
    {
      State(relayState == 1, relayOnTime, relayOffTime, duty, cpState, pilotDuty, weldDetected)
    }

    constructor (config: Config)
      ensures Valid() && this.config == config && Now() == Initial()
    {
      this.config := config;
      relayState, relayOnTime, relayOffTime, duty := 0, 0, 0, 0;
      cpState, pilotDuty, weldDetected := StateA, FULL_PILOT_DUTY, false;
    }

    /** updateRelayState on the AC1 board: only relay 1 exists, and only changes act. */
    method UpdateRelayState(relay: int, state: int)
      requires Valid()
      modifies `relayState, `relayOnTime, `relayOffTime, `duty
      ensures Valid()
      ensures Now() == if relay == RELAY1 && state in {0, 1} then Switched(old(Now()), state == 1) else old(Now())
    {
      if relay == RELAY1 && state == 0 && relayState == 1 {
        duty := 0;
        relayState := 0;
        relayOnTime := 0;
        relayOffTime := 0;
      } else if relay == RELAY1 && state == 1 && relayState == 0 {
        duty := 1024;
        relayState := 1;
        relayOnTime := 0;
        relayOffTime := 0;
      }
    }

    /** One turn of the pilot task of connector 1, the one that owns the relay. */
    method PilotTask(cpId: int, adc: int)
      requires Valid() && cpId == RELAY1
      modifies this
      ensures Valid() && Now() == Step(old(Now()), Pilot(adc), config)
    {
      var t := config.thresholds;
      if Within(adc, t.a) {
        UpdateRelayState(cpId, 0);
        pilotDuty := FULL_PILOT_DUTY;
        cpState := StateA;
      } else if Within(adc, t.b1) {
        UpdateRelayState(cpId, 0);
        pilotDuty := FULL_PILOT_DUTY;
        cpState := StateB1;
      } else if Within(adc, t.b2) {
        UpdateRelayState(cpId, 0);
        pilotDuty := config.pilotDuty;
        cpState := StateB2;
      } else if Within(adc, t.e2) {
        pilotDuty := FULL_PILOT_DUTY;
        UpdateRelayState(cpId, 0);
        cpState := StateE2;
      } else if Within(adc, t.dis) {
        UpdateRelayState(cpId, 0);
        pilotDuty := FULL_PILOT_DUTY;
        cpState := StateDis;
      } else if Within(adc, t.c) {
        pilotDuty := config.pilotDuty;
        UpdateRelayState(cpId, 1);
        cpState := StateC;
      } else if Within(adc, t.d) {
        pilotDuty := config.pilotDuty;
        UpdateRelayState(cpId, 1);
        cpState := StateD;
      } else if adc < t.e1Max {
        pilotDuty := FULL_PILOT_DUTY;
        UpdateRelayState(cpId, 0);
        cpState := StateE1;
      } else {
        UpdateRelayState(cpId, 0);
        pilotDuty := FULL_PILOT_DUTY;
      }
    }

    /** The relay part of ReadFaultsTask. */
    method FaultsTask()
      requires Valid()
      modifies this
      ensures Valid() && Now() == Step(old(Now()), Tick, config)
    {
      if relayState == 1 {
        if relayOnTime < TIMER_MAX {
          relayOnTime := relayOnTime + 1;
        }
        if relayOnTime > 225 {
          duty := 256;
        } else if relayOnTime > 150 {
          duty := 512;
        } else if relayOnTime > 75 {
          duty := 768;
        } else {
          duty := 1024;
        }
      } else {
        if relayOffTime < TIMER_MAX {
          relayOffTime := relayOffTime + 1;
        }
      }
    }

    /** The tail of readMeterFaults. */
    method MeterTask(voltageB: real, threePhase: bool)
      requires Valid()
      modifies this
      ensures Valid() && Now() == Step(old(Now()), Meter(voltageB, threePhase), config)
    {
      if relayState == 0 && voltageB > 10.0 && !threePhase && relayOffTime > WELD_TICKS {
        weldDetected := true;
      } else if relayState == 1 && voltageB < 10.0 && !threePhase && relayOnTime > WELD_TICKS {
        weldDetected := true;
      } else {
        weldDetected := false;
      }
    }

    method StopTransaction()
      requires Valid()
      modifies this
      ensures Valid() && Now() == Step(old(Now()), Stop, config)
    {
      UpdateRelayState(RELAY1, 0);
      pilotDuty := FULL_PILOT_DUTY;
    }
  }

  function Run(events: seq<Event>, c: Config): State {
    if events == [] then Initial() else Step(Run(events[..|events| - 1], c), events[|events| - 1], c)
  }

  /** What the last event that commands the relay asked for; open before the first. */
  function Commanded(events: seq<Event>, c: Config): bool {
    if events == [] then false
    else match events[|events| - 1]
      case Pilot(adc) => Charging(Classify(adc, c.thresholds))
      case Stop => false
      case _ => Commanded(events[..|events| - 1], c)
  }

  /** Fault-task turns since the relay last changed state. */
  function TicksInState(events: seq<Event>, c: Config): nat {
    if events == [] then 0
    else
      var init := events[..|events| - 1];
      if Commanded(events, c) != Commanded(init, c) then 0
      else TicksInState(init, c) + if events[|events| - 1].Tick? then 1 else 0
  }

  /** Over every interleaving: the relay is closed iff the last command classified C or D, its PWM is a
      fixed function of how long it has been closed, and at most one timer runs, counting the turns in
      the present state up to 230. */
  lemma {:induction false} RelayFollowsCommands(events: seq<Event>, c: Config)
    ensures var s, ticks := Run(events, c), Min(TicksInState(events, c), 230);
            && s.closed == Commanded(events, c)
            && s.onTime == (if s.closed then ticks else 0)
            && s.offTime == (if s.closed then 0 else ticks)
            && s.duty == (if s.closed then DutyAt(ticks) else 0)
  {
    if events != [] {
      RelayFollowsCommands(events[..|events| - 1], c);
    }
  }

  /** One reading, with the windows in the order they are compared: which state is reported, that the
      relay is closed exactly by C and D, and that B2, C and D get the configured pilot duty. */
  lemma ReadingDecides(events: seq<Event>, adc: int, c: Config)
    ensures var t, before, s := c.thresholds, Run(events, c), Run(events + [Pilot(adc)], c);
            var beforeB2 := t.a.low <= adc < t.a.high || t.b1.low <= adc < t.b1.high;
            var b2 := t.b2.low <= adc < t.b2.high;
            var beforeC := beforeB2 || b2 || t.e2.low <= adc < t.e2.high || t.dis.low <= adc < t.dis.high;
            var cOrD := t.c.low <= adc < t.c.high || t.d.low <= adc < t.d.high;
            && (s.closed <==> !beforeC && cOrD)
            && s.pilotDuty == (if (!beforeB2 && b2) || (!beforeC && cOrD) then c.pilotDuty else 100)
            && s.cpState ==
                 (if t.a.low <= adc < t.a.high then StateA
                  else if t.b1.low <= adc < t.b1.high then StateB1
                  else if t.b2.low <= adc < t.b2.high then StateB2
                  else if t.e2.low <= adc < t.e2.high then StateE2
                  else if t.dis.low <= adc < t.dis.high then StateDis
                  else if t.c.low <= adc < t.c.high then StateC
                  else if t.d.low <= adc < t.d.high then StateD
                  else if adc < t.e1Max then StateE1
                  else before.cpState)
            && (s.closed == before.closed ==> s.onTime == before.onTime && s.offTime == before.offTime && s.duty == before.duty)
            && s.weld == before.weld
  {
    assert (events + [Pilot(adc)])[..|events|] == events;
  }

  /** The end of a transaction opens the relay and rests the pilot; the other tasks never touch the relay,
      the pilot or its reported state. */
  lemma OtherEventsDecide(events: seq<Event>, e: Event, c: Config)
    requires !e.Pilot?
    ensures var before, s := Run(events, c), Run(events + [e], c);
            && s.cpState == before.cpState
            && (e.Stop? ==> !s.closed && s.duty == 0 && s.pilotDuty == 100)
            && (!e.Stop? ==> s.closed == before.closed && s.pilotDuty == before.pilotDuty)
            && (!e.Meter? ==> s.weld == before.weld)
  {
    assert (events + [e])[..|events|] == events;
    RelayFollowsCommands(events, c);
  }

  /** The coil's duty by the turns since the relay last moved. */
  lemma DutyByTurns(events: seq<Event>, c: Config)
    ensures var s, turns := Run(events, c), TicksInState(events, c);
            s.duty == if !s.closed then 0
                      else if turns <= 75 then 1024
                      else if turns <= 150 then 768
                      else if turns <= 225 then 512
                      else 256
  {
    RelayFollowsCommands(events, c);
  }

  /** While the relay stays closed its duty never rises. */
  lemma DutyNeverRises(events: seq<Event>, e: Event, c: Config)
    requires Run(events, c).closed && Run(events + [e], c).closed
    ensures Run(events + [e], c).duty <= Run(events, c).duty
  {
    assert (events + [e])[..|events|] == events;
    RelayFollowsCommands(events, c);
    RelayFollowsCommands(events + [e], c);
  }

  /** A weld is reported exactly when the voltage contradicts a relay that has been in its present state
      for more than 50 unbroken turns. */
  lemma WeldReportedIff(events: seq<Event>, voltageB: real, threePhase: bool, c: Config)
    ensures var now := events + [Meter(voltageB, threePhase)];
            Run(now, c).weld <==>
            !threePhase && TicksInState(now, c) > 50 &&
            if Commanded(now, c) then voltageB < 10.0 else voltageB > 10.0
  {
    var now := events + [Meter(voltageB, threePhase)];
    assert now[..|events|] == events;
    RelayFollowsCommands(events, c);
  }

  predicate Matched(e: Event, c: Config) {
    e.Pilot? && Classify(e.adc, c.thresholds).Some?
  }

  /** The position of the last reading that matched a window, -1 before the first. */
  function LastMatch(events: seq<Event>, c: Config): (k: int)
    ensures -1 <= k < |events| && (k >= 0 ==> Matched(events[k], c))
    ensures forall i :: k < i < |events| ==> !Matched(events[i], c)
  {
    if events == [] then -1
    else if Matched(events[|events| - 1], c) then |events| - 1
    else LastMatch(events[..|events| - 1], c)
  }

  /** After event k comes one that commands the relay. */
  ghost predicate CommandedAfter(events: seq<Event>, k: int)
    requires k >= -1
  {
    exists j :: k < j < |events| && (events[j].Pilot? || events[j].Stop?)
  }

  lemma CommandedAfterStep(events: seq<Event>, k: int)
    requires -1 <= k < |events| - 1
    ensures var e := events[|events| - 1];
            CommandedAfter(events, k) <==> CommandedAfter(events[..|events| - 1], k) || e.Pilot? || e.Stop?
  {
    var init := events[..|events| - 1];
    assert forall j :: 0 <= j < |init| ==> init[j] == events[j];
    assert events[|events| - 1].Pilot? || events[|events| - 1].Stop? ==> CommandedAfter(events, k);
  }

  /** The pilot state is that of the last reading that matched a window; the relay still follows that
      reading only if nothing has commanded it since. */
  lemma {:induction false} StateOfLastMatch(events: seq<Event>, c: Config)
    ensures var s, k := Run(events, c), LastMatch(events, c);
            && s.cpState == (if k < 0 then StateA else Classify(events[k].adc, c.thresholds).value)
            && (s.closed <==> k >= 0 && Charging(Some(s.cpState)) && !CommandedAfter(events, k))
  {
    if events != [] {
      var n := |events| - 1;
      StateOfLastMatch(events[..n], c);
      var k := LastMatch(events, c);
      if k < n {
        CommandedAfterStep(events, k);
      }
    }
  }

  /** Over every interleaving, C or D is reported with the relay open exactly when the last reading that
      matched a window was C or D and an unmatched reading or a stop came after it. */
  lemma PilotStateLagsIff(events: seq<Event>, c: Config)
    ensures var s, k := Run(events, c), LastMatch(events, c);
            && (s.closed ==> Charging(Some(s.cpState)))
            && (Charging(Some(s.cpState)) && !s.closed <==>
                && k >= 0 && Charging(Classify(events[k].adc, c.thresholds))
                && exists j :: k < j < |events| && (events[j].Pilot? || events[j].Stop?))
  {
    StateOfLastMatch(events, c);
  }

  /** The first row of the AC1 threshold table. */
  const FIRST_ROW: Thresholds :=
    Thresholds(Window(3900, 4096), Window(3420, 3600), Window(567, 641), Window(2800, 3000), Window(639, 716),
               Window(495, 566), Window(248, 495), 248)

  /** The table does have such gaps: a reading of 566 right after 565 opens the relay and leaves C. */
  lemma GapOpensRelayInStateC()
    ensures var c := Config(FIRST_ROW, 16);
            var s := Run([Pilot(565), Pilot(566)], c);
            s.cpState == StateC && !s.closed
  {
    var c := Config(FIRST_ROW, 16);
    var one := [Pilot(565)];
    var two := [Pilot(565), Pilot(566)];
    assert one[..0] == [] && two[..1] == one;
    assert Run(one, c) == Step(Initial(), Pilot(565), c);
  }

  /** So does the end of a transaction, with no gap in the readings. */
  lemma StopOpensRelayInStateC()
    ensures var c := Config(FIRST_ROW, 16);
            var s := Run([Pilot(565), Stop], c);
            s.cpState == StateC && !s.closed
  {
    var c := Config(FIRST_ROW, 16);
    var one := [Pilot(565)];
    var two := [Pilot(565), Stop];
    assert one[..0] == [] && two[..1] == one;
    assert Run(one, c) == Step(Initial(), Pilot(565), c);
  }
}
