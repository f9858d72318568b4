/** Consecutive ticks of one fleet, and the tick of both services together. */
module Runs {
  import opened Trains
  import opened Simulation
  import opened StepSpec
  import opened StepProperties

  /** The fleet after one tick per element of `rolls`, starting at tick `start`. */
  function Run(fleet: seq<Train>, start: int, stations: seq<Station>, rolls: seq<seq<Roll>>): (r: seq<Train>)
    requires |stations| >= 1
    requires forall t :: 0 <= t < |rolls| ==> |rolls[t]| == |fleet|
    ensures |r| == |fleet|
    decreases |rolls|
  {
    if |rolls| == 0 then fleet
    else Run(Step(fleet, start, stations, rolls[0]), start + 1, stations, rolls[1..])
  }

  /** Positions stay on the line for the whole run. */
  lemma {:induction false} RunKeepsPositionsInRange(fleet: seq<Train>, start: int, stations: seq<Station>, rolls: seq<seq<Roll>>)
    requires |stations| >= 1
    requires forall t :: 0 <= t < |rolls| ==> |rolls[t]| == |fleet|
    requires PositionsInRange(fleet, |stations|)
    ensures PositionsInRange(Run(fleet, start, stations, rolls), |stations|)
    decreases |rolls|
  {
    if |rolls| > 0 {
      StepKeepsPositionsInRange(fleet, start, stations, rolls[0]);
      RunKeepsPositionsInRange(Step(fleet, start, stations, rolls[0]), start + 1, stations, rolls[1..]);
    }
  }

  /** Loads never fall over a run (no alighting is modelled). */
  lemma {:induction false} RunPassengersNeverDecrease(fleet: seq<Train>, start: int, stations: seq<Station>, rolls: seq<seq<Roll>>)
    requires |stations| >= 1
    requires forall t :: 0 <= t < |rolls| ==> |rolls[t]| == |fleet|
    requires StationsNonNegative(stations)
    ensures forall j :: 0 <= j < |fleet| ==> Run(fleet, start, stations, rolls)[j].passengers >= fleet[j].passengers
    decreases |rolls|
  {
    if |rolls| > 0 {
      var next := Step(fleet, start, stations, rolls[0]);
      StepPassengersNeverDecrease(fleet, start, stations, rolls[0]);
      RunPassengersNeverDecrease(next, start + 1, stations, rolls[1..]);
    }
  }

  /** A stopped fleet never moves again: stop durations are never counted
      down, so nothing resumes. */
  lemma {:induction false} StoppedFleetFrozen(fleet: seq<Train>, start: int, stations: seq<Station>, rolls: seq<seq<Roll>>)
    requires |stations| >= 1
    requires forall t :: 0 <= t < |rolls| ==> |rolls[t]| == |fleet|
    requires AllStopped(fleet)
    ensures Run(fleet, start, stations, rolls) == fleet
    decreases |rolls|
  {
    if |rolls| > 0 {
      StoppedFleetUnchanged(fleet, 0, start, stations, rolls[0]);
      StoppedFleetFrozen(fleet, start + 1, stations, rolls[1..]);
    }
  }

  /** Once a tick has an accident, the fleet it leaves is the fleet for the
      rest of the run. */
  lemma AccidentFreezesRun(fleet: seq<Train>, start: int, stations: seq<Station>, rolls: seq<seq<Roll>>)
    requires |stations| >= 1
    requires |rolls| >= 1
    requires forall t :: 0 <= t < |rolls| ==> |rolls[t]| == |fleet|
    requires ValidRolls(rolls[0])
    requires FirstAccident(fleet, start, rolls[0]).Some?
    ensures Run(fleet, start, stations, rolls) == Step(fleet, start, stations, rolls[0])
    ensures AllStopped(Run(fleet, start, stations, rolls))
  {
    var next := Step(fleet, start, stations, rolls[0]);
    AccidentStopsWholeFleet(fleet, start, stations, rolls[0], FirstAccident(fleet, start, rolls[0]).value);
    StoppedFleetFrozen(next, start + 1, stations, rolls[1..]);
  }

  /** One tick of both services, up first: each fleet lives in its own array,
      so an accident in one does not touch the other. */
  method SimulateTick(up: array<Train>, down: array<Train>, stations: seq<Station>, now: int,
                      rollsUp: seq<Roll>, rollsDown: seq<Roll>)
    requires |stations| >= 1
    requires up != down
    requires up.Length == |rollsUp| && down.Length == |rollsDown|
    modifies up, down
    ensures up[..] == Step(old(up[..]), now, stations, rollsUp)
    ensures down[..] == Step(old(down[..]), now, stations, rollsDown)
  {
    SimulateStep(up, stations, now, rollsUp);
    SimulateStep(down, stations, now, rollsDown);
  }
}
