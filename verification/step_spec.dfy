/** A reference description of one tick of a fleet, stated train by train
    rather than iteration by iteration, and the proof that the step loop
    computes it. Up to the first accident every train moves on its own; the
    first accident gives every train the same stop duration, and no train
    after it changes. */
module StepSpec {
  import opened Trains
  import opened Simulation

  datatype Option<T> = None | Some(value: T)

  /** Index of the first train, from `i` on, that has an accident. */
  function FirstAccidentFrom(fleet: seq<Train>, i: nat, now: int, rolls: seq<Roll>): (a: Option<nat>)
    requires i <= |fleet| == |rolls|
    ensures a.Some? ==>
      && i <= a.value < |fleet|
      && Triggers(fleet[a.value], now, rolls[a.value])
      && forall k :: i <= k < a.value ==> !Triggers(fleet[k], now, rolls[k])
    ensures a.None? ==> forall k :: i <= k < |fleet| ==> !Triggers(fleet[k], now, rolls[k])
    decreases |fleet| - i
  {
    if i == |fleet| then None
    else if Triggers(fleet[i], now, rolls[i]) then Some(i)
    else FirstAccidentFrom(fleet, i + 1, now, rolls)
  }

  function FirstAccident(fleet: seq<Train>, now: int, rolls: seq<Roll>): Option<nat>
    requires |fleet| == |rolls|
  {
    FirstAccidentFrom(fleet, 0, now, rolls)
  }

  /** The fleet after iterations `i` onward, given that trains before `i`
      already hold their result: without an accident every later train
      takes its own `Solo` move; with a first accident at `a`, trains in
      `[i, a)` move, trains from `a` on do not, and all get the stop duration
      drawn by train `a`. */
  function Rest(fleet: seq<Train>, i: nat, now: int, stations: seq<Station>, rolls: seq<Roll>): seq<Train>
    requires |stations| >= 1
    requires i <= |fleet| == |rolls|
  {
    match FirstAccidentFrom(fleet, i, now, rolls)
    case None =>
      seq(|fleet|, j requires 0 <= j < |fleet| =>
        if j < i then fleet[j] else Solo(fleet[j], now, stations, rolls[j]))
    case Some(a) =>
      seq(|fleet|, j requires 0 <= j < |fleet| =>
        (if i <= j < a then Solo(fleet[j], now, stations, rolls[j]) else fleet[j]).(status := StopDuration(rolls[a])))
  }

  /** The reference result of one tick. */
  function StepReference(fleet: seq<Train>, now: int, stations: seq<Station>, rolls: seq<Roll>): seq<Train>
    requires |stations| >= 1
    requires |fleet| == |rolls|
  {
    Rest(fleet, 0, now, stations, rolls)
  }

  /** A fleet in which every train is stopped passes through the remaining
      iterations unchanged: no train starts, none is running. */
  lemma {:induction false} StoppedFleetUnchanged(fleet: seq<Train>, i: nat, now: int, stations: seq<Station>, rolls: seq<Roll>)
    requires |stations| >= 1
    requires i <= |fleet| == |rolls|
    requires AllStopped(fleet)
    ensures StepFrom(fleet, i, now, stations, rolls) == fleet
    decreases |fleet| - i
  {
    if i < |fleet| {
      assert fleet[i].IsStopped();
      assert Iterate(fleet, i, now, stations, rolls) == fleet;
      StoppedFleetUnchanged(fleet, i + 1, now, stations, rolls);
    }
  }

  /** Changing only train `i` does not move the first accident found from
      `i + 1`, and when train `i` itself has none, searching from `i` finds
      the same one. */
  lemma FirstAccidentSkips(fleet: seq<Train>, updated: seq<Train>, i: nat, now: int, rolls: seq<Roll>)
    requires i < |fleet| == |updated| == |rolls|
    requires forall k :: i < k < |fleet| ==> updated[k] == fleet[k]
    requires !Triggers(fleet[i], now, rolls[i])
    ensures FirstAccidentFrom(updated, i + 1, now, rolls) == FirstAccidentFrom(fleet, i, now, rolls)
  {
  }

  /** The iterations from `i` on compute `Rest`. */
  lemma {:induction false} StepFromMatchesRest(fleet: seq<Train>, i: nat, now: int, stations: seq<Station>, rolls: seq<Roll>)
    requires |stations| >= 1
    requires i <= |fleet| == |rolls|
    requires ValidRolls(rolls)
    ensures StepFrom(fleet, i, now, stations, rolls) == Rest(fleet, i, now, stations, rolls)
    decreases |fleet| - i
  {
    if i == |fleet| {
      assert Rest(fleet, i, now, stations, rolls) == fleet;
    } else if Triggers(fleet[i], now, rolls[i]) {
      var d := StopDuration(rolls[i]);
      var stopped := StopAll(fleet, d);
      assert AllStopped(stopped);
      StoppedFleetUnchanged(stopped, i + 1, now, stations, rolls);
      assert FirstAccidentFrom(fleet, i, now, rolls) == Some(i);
      assert Rest(fleet, i, now, stations, rolls) == stopped;
    } else {
      var next := fleet[i := Solo(fleet[i], now, stations, rolls[i])];
      StepFromMatchesRest(next, i + 1, now, stations, rolls);
      FirstAccidentSkips(fleet, next, i, now, rolls);
      assert Rest(next, i + 1, now, stations, rolls) == Rest(fleet, i, now, stations, rolls);
    }
  }

  /** The step loop computes the reference result. */
  lemma StepMatchesReference(fleet: seq<Train>, now: int, stations: seq<Station>, rolls: seq<Roll>)
    requires |stations| >= 1
    requires |fleet| == |rolls|
    requires ValidRolls(rolls)
    ensures Step(fleet, now, stations, rolls) == StepReference(fleet, now, stations, rolls)
  {
    StepFromMatchesRest(fleet, 0, now, stations, rolls);
  }
}
