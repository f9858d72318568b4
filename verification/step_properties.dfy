/** Properties of one tick of a fleet: bounds, monotone loads, fixed routes,
    the same-tick start, one-station movement, the fleet-wide accident and
    the trains a tick leaves alone. */
module StepProperties {
  import opened Trains
  import opened Simulation
  import opened StepSpec

  predicate StationsNonNegative(stations: seq<Station>)
  {
    forall s :: 0 <= s < |stations| ==> stations[s].passengers >= 0
  }

  /** A train that no iteration moves: stopped, finished, or not yet due. */
  predicate Idle(t: Train, now: int)
  {
    t.status > 0 || t.status == FINISHED || (t.status == NOT_STARTED && now < t.departureTime)
  }

  /** Facts every iteration keeps, whatever the draws: the route and the
      schedule are fixed, the load only grows (for non-negative station
      volumes), and positions stay on the line. */
  lemma {:induction false} IterationsPreserve(fleet: seq<Train>, i: nat, now: int, stations: seq<Station>, rolls: seq<Roll>)
    requires |stations| >= 1
    requires i <= |fleet| == |rolls|
    ensures forall j :: 0 <= j < |fleet| ==>
      var r := StepFrom(fleet, i, now, stations, rolls);
      && r[j].destination == fleet[j].destination
      && r[j].departureTime == fleet[j].departureTime
    ensures StationsNonNegative(stations) ==>
      forall j :: 0 <= j < |fleet| ==> StepFrom(fleet, i, now, stations, rolls)[j].passengers >= fleet[j].passengers
    ensures PositionsInRange(fleet, |stations|) ==> PositionsInRange(StepFrom(fleet, i, now, stations, rolls), |stations|)
    decreases |fleet| - i
  {
    if i < |fleet| {
      var next := Iterate(fleet, i, now, stations, rolls);
      IterationsPreserve(next, i + 1, now, stations, rolls);
      if !Triggers(fleet[i], now, rolls[i]) {
        var s := Started(fleet[i], now);
        if s.status == RUNNING && rolls[i].chance >= 1 {
          assert next[i] == Advance(s, stations);
        }
      }
    }
  }

  /** Positions on the line stay on the line, so the station looked up for
      boarding always exists. */
  lemma StepKeepsPositionsInRange(fleet: seq<Train>, now: int, stations: seq<Station>, rolls: seq<Roll>)
    requires |stations| >= 1
    requires |fleet| == |rolls|
    requires PositionsInRange(fleet, |stations|)
    ensures PositionsInRange(Step(fleet, now, stations, rolls), |stations|)
  {
    IterationsPreserve(fleet, 0, now, stations, rolls);
  }

  /** No train loses passengers in a tick when station volumes are non-negative. */
  lemma StepPassengersNeverDecrease(fleet: seq<Train>, now: int, stations: seq<Station>, rolls: seq<Roll>)
    requires |stations| >= 1
    requires |fleet| == |rolls|
    requires StationsNonNegative(stations)
    ensures forall j :: 0 <= j < |fleet| ==> Step(fleet, now, stations, rolls)[j].passengers >= fleet[j].passengers
  {
    IterationsPreserve(fleet, 0, now, stations, rolls);
  }

  /** A tick changes no train's destination or departure time. */
  lemma StepKeepsRoute(fleet: seq<Train>, now: int, stations: seq<Station>, rolls: seq<Roll>)
    requires |stations| >= 1
    requires |fleet| == |rolls|
    ensures forall j :: 0 <= j < |fleet| ==>
      && Step(fleet, now, stations, rolls)[j].destination == fleet[j].destination
      && Step(fleet, now, stations, rolls)[j].departureTime == fleet[j].departureTime
  {
    IterationsPreserve(fleet, 0, now, stations, rolls);
  }

  /** Without an accident in the tick, every train is updated on its own. */
  lemma NoAccidentTrainsIndependent(fleet: seq<Train>, now: int, stations: seq<Station>, rolls: seq<Roll>)
    requires |stations| >= 1
    requires |fleet| == |rolls|
    requires ValidRolls(rolls)
    requires FirstAccident(fleet, now, rolls).None?
    ensures forall j :: 0 <= j < |fleet| ==>
      Step(fleet, now, stations, rolls)[j] == Solo(fleet[j], now, stations, rolls[j])
  {
    StepMatchesReference(fleet, now, stations, rolls);
  }

  /** The first accident of a tick, by train `a`, gives every train of the
      array (not started, running, finished or stopped alike) the same stop
      duration in [5, 104]. Trains before `a` have made their own move; train
      `a` and those after it keep position and load. */
  lemma AccidentStopsWholeFleet(fleet: seq<Train>, now: int, stations: seq<Station>, rolls: seq<Roll>, a: nat)
    requires |stations| >= 1
    requires |fleet| == |rolls|
    requires ValidRolls(rolls)
    requires FirstAccident(fleet, now, rolls) == Some(a)
    ensures a < |fleet| && 5 <= StopDuration(rolls[a]) <= 104
    ensures AllStopped(Step(fleet, now, stations, rolls))
    ensures forall k :: 0 <= k < |fleet| ==> Step(fleet, now, stations, rolls)[k].status == StopDuration(rolls[a])
    ensures forall k :: 0 <= k < a ==>
      Step(fleet, now, stations, rolls)[k] == Solo(fleet[k], now, stations, rolls[k]).(status := StopDuration(rolls[a]))
    ensures forall k :: a <= k < |fleet| ==>
      Step(fleet, now, stations, rolls)[k] == fleet[k].(status := StopDuration(rolls[a]))
  {
    StepMatchesReference(fleet, now, stations, rolls);
  }

  /** An idle train keeps its position and load; its status changes only when
      some train of the fleet has an accident in this tick. */
  lemma IdleTrainUnchanged(fleet: seq<Train>, now: int, stations: seq<Station>, rolls: seq<Roll>, j: nat)
    requires |stations| >= 1
    requires j < |fleet| == |rolls|
    requires ValidRolls(rolls)
    requires Idle(fleet[j], now)
    ensures Step(fleet, now, stations, rolls)[j].position == fleet[j].position
    ensures Step(fleet, now, stations, rolls)[j].passengers == fleet[j].passengers
    ensures FirstAccident(fleet, now, rolls).None? ==> Step(fleet, now, stations, rolls)[j] == fleet[j]
    ensures FirstAccident(fleet, now, rolls).Some? ==> AllStopped(Step(fleet, now, stations, rolls))
  {
    StepMatchesReference(fleet, now, stations, rolls);
    assert Solo(fleet[j], now, stations, rolls[j]) == fleet[j];
  }

  /** A finished train stays finished, unless an accident stops the whole fleet. */
  lemma FinishedStaysFinished(fleet: seq<Train>, now: int, stations: seq<Station>, rolls: seq<Roll>, j: nat)
    requires |stations| >= 1
    requires j < |fleet| == |rolls|
    requires ValidRolls(rolls)
    requires fleet[j].status == FINISHED
    ensures Step(fleet, now, stations, rolls)[j].status == FINISHED || AllStopped(Step(fleet, now, stations, rolls))
  {
    IdleTrainUnchanged(fleet, now, stations, rolls, j);
  }

  /** A train that becomes due in this tick starts and moves in the same
      iteration: it is not left at its start station. */
  lemma StartingTrainMovesSameTick(fleet: seq<Train>, now: int, stations: seq<Station>, rolls: seq<Roll>, j: nat)
    requires |stations| >= 1
    requires j < |fleet| == |rolls|
    requires ValidRolls(rolls)
    requires FirstAccident(fleet, now, rolls).None?
    requires fleet[j].status == NOT_STARTED && fleet[j].departureTime <= now
    ensures Step(fleet, now, stations, rolls)[j] == Advance(fleet[j].(status := RUNNING), stations)
    ensures Step(fleet, now, stations, rolls)[j].status != NOT_STARTED
    ensures 0 <= fleet[j].position < |stations| && 0 <= fleet[j].destination < |stations| && fleet[j].position != fleet[j].destination ==>
      Step(fleet, now, stations, rolls)[j].position != fleet[j].position
  {
    StepMatchesReference(fleet, now, stations, rolls);
    assert !Triggers(fleet[j], now, rolls[j]);
  }

  /** A running train whose position and destination are on the line and
      differ moves exactly one station closer, boards its share at the new
      station, and is finished exactly when it arrives. */
  lemma RunningTrainMovesOneStation(fleet: seq<Train>, now: int, stations: seq<Station>, rolls: seq<Roll>, j: nat)
    requires |stations| >= 1
    requires j < |fleet| == |rolls|
    requires ValidRolls(rolls)
    requires FirstAccident(fleet, now, rolls).None?
    requires fleet[j].status == RUNNING
    requires 0 <= fleet[j].position < |stations| && 0 <= fleet[j].destination < |stations|
    requires fleet[j].position != fleet[j].destination
    ensures var r := Step(fleet, now, stations, rolls)[j];
      var before := fleet[j];
      && (if before.position < before.destination then r.position == before.position + 1 else r.position == before.position - 1)
      && r.passengers == before.passengers + Share(stations[r.position].passengers)
      && (r.status == FINISHED <==> r.position == before.destination)
      && (r.status != FINISHED ==> r.status == RUNNING)
  {
    StepMatchesReference(fleet, now, stations, rolls);
    assert !Triggers(fleet[j], now, rolls[j]);
    assert Step(fleet, now, stations, rolls)[j] == Advance(fleet[j], stations);
  }

  /** Boarding adds exactly the station's share, and never a negative one
      when station volumes are non-negative. */
  lemma BoardingIsStationShare(t: Train, stations: seq<Station>)
    requires |stations| >= 1
    requires StationsNonNegative(stations)
    ensures var r := Advance(t, stations);
      && r.passengers - t.passengers == stations[r.position].passengers / (NUM_TRAINS_UP + NUM_TRAINS_DOWN)
      && r.passengers >= t.passengers
  {
  }
}
