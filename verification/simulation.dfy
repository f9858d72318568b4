/** One simulated tick of one fleet: the start transition, the accident
    roll, one-station movement with clamping, boarding and arrival. */
module Simulation {
  import opened Trains

  /** The two random draws a running train may consume in one iteration:
      `chance` is the accident test (an accident when below 1) and `delay`
      the stop duration minus 5. Both stand for `rand() % 100`. */
  datatype Roll = Roll(chance: int, delay: int)

  predicate ValidRolls(rolls: seq<Roll>)
  {
    forall i :: 0 <= i < |rolls| ==> 0 <= rolls[i].chance < 100 && 0 <= rolls[i].delay < 100
  }

  /** Status every train of the fleet gets when an accident happens. */
  function StopDuration(roll: Roll): int
  {
    roll.delay + 5
  }

  /** Number of passengers boarding at a station with the given daily volume:
      the volume shared among all trains of both services, with C's
      division, which truncates toward zero. */
  function Share(daily: int): (q: int)
    ensures daily >= 0 ==> 0 <= q && 0 <= daily - q * (NUM_TRAINS_UP + NUM_TRAINS_DOWN) < NUM_TRAINS_UP + NUM_TRAINS_DOWN
    ensures daily < 0 ==> q <= 0 && -(NUM_TRAINS_UP + NUM_TRAINS_DOWN) < daily - q * (NUM_TRAINS_UP + NUM_TRAINS_DOWN) <= 0
  {
    if daily >= 0 then daily / (NUM_TRAINS_UP + NUM_TRAINS_DOWN)
    else -((-daily) / (NUM_TRAINS_UP + NUM_TRAINS_DOWN))
  }

  /** The movement branch for a running train that had no accident: one
      station toward the destination (down when already at it), clamped to the
      line, then boarding, then arrival. */
  function Advance(t: Train, stations: seq<Station>): (r: Train)
    requires |stations| >= 1
    ensures 0 <= r.position < |stations|
    ensures r.destination == t.destination && r.departureTime == t.departureTime
    ensures r.satisfaction == t.satisfaction
    ensures r.status == (if r.position == t.destination then FINISHED else t.status)
    ensures r.passengers == t.passengers + Share(stations[r.position].passengers)
    ensures 0 <= t.position < |stations| && 0 <= t.destination < |stations| && t.position != t.destination ==>
      && (r.position - t.position == 1 || t.position - r.position == 1)
      && (t.position < t.destination ==> t.position < r.position <= t.destination)
      && (t.destination < t.position ==> t.destination <= r.position < t.position)
  {
    var direction := if t.position < t.destination then 1 else -1;
    var moved := t.position + direction;
    var low := if moved < 0 then 0 else moved;
    var clamped := if low >= |stations| then |stations| - 1 else low;
    var boarded := t.passengers + Share(stations[clamped].passengers);
    t.(position := clamped, passengers := boarded,
       status := if clamped == t.destination then FINISHED else t.status)
  }

  /** The start transition: a not-started train whose departure time has come
      becomes running. */
  function Started(t: Train, now: int): Train
  {
    if now >= t.departureTime && t.status == NOT_STARTED then t.(status := RUNNING) else t
  }

  /** Whether train `t`, handled at tick `now` with the draws `roll`, has an
      accident. */
  predicate Triggers(t: Train, now: int, roll: Roll)
  {
    Started(t, now).status == RUNNING && roll.chance < 1
  }

  /** What one iteration does to its own train when it does not trigger an
      accident: start it if due, and move it if it is running. */
  function Solo(t: Train, now: int, stations: seq<Station>, roll: Roll): Train
    requires |stations| >= 1
  {
    var s := Started(t, now);
    if s.status == RUNNING && roll.chance >= 1 then Advance(s, stations) else s
  }

  /** The fleet-wide overwrite of an accident: every train gets status `d`,
      nothing else changes. */
  function StopAll(fleet: seq<Train>, d: int): (r: seq<Train>)
    ensures |r| == |fleet|
    ensures forall k :: 0 <= k < |r| ==> r[k].status == d && r[k].(status := fleet[k].status) == fleet[k]
  {
    seq(|fleet|, k requires 0 <= k < |fleet| => fleet[k].(status := d))
  }

  /** Iteration `i` of the step loop, acting on the whole fleet, since an
      accident of train `i` reaches every train of the array. */
  function Iterate(fleet: seq<Train>, i: nat, now: int, stations: seq<Station>, rolls: seq<Roll>): (r: seq<Train>)
    requires |stations| >= 1
    requires i < |fleet| == |rolls|
    ensures |r| == |fleet|
  {
    if Triggers(fleet[i], now, rolls[i]) then StopAll(fleet, StopDuration(rolls[i]))
    else fleet[i := Solo(fleet[i], now, stations, rolls[i])]
  }

  /** Iterations `i` up to the end of the fleet, in index order. */
  function StepFrom(fleet: seq<Train>, i: nat, now: int, stations: seq<Station>, rolls: seq<Roll>): (r: seq<Train>)
    requires |stations| >= 1
    requires i <= |fleet| == |rolls|
    ensures |r| == |fleet|
    decreases |fleet| - i
  {
    if i == |fleet| then fleet
    else StepFrom(Iterate(fleet, i, now, stations, rolls), i + 1, now, stations, rolls)
  }

  /** One tick of one fleet; train `i` reads `rolls[i]` only if it is running. */
  function Step(fleet: seq<Train>, now: int, stations: seq<Station>, rolls: seq<Roll>): (r: seq<Train>)
    requires |stations| >= 1
    requires |fleet| == |rolls|
    ensures |r| == |fleet|
  {
    StepFrom(fleet, 0, now, stations, rolls)
  }

  /** The accident overwrite on the array: every train takes the status of
      train `i`. */
  method StopFleet(trains: array<Train>, i: nat)
    requires i < trains.Length
    modifies trains
    ensures trains[..] == StopAll(old(trains[..]), old(trains[i].status))
  {
    ghost var before := trains[..];
    var k := 0;
    while k < trains.Length
      invariant 0 <= k <= trains.Length
      invariant trains[i].status == before[i].status
      invariant forall j :: 0 <= j < k ==> trains[j] == before[j].(status := before[i].status)
      invariant forall j :: k <= j < trains.Length ==> trains[j] == before[j]
    {
      trains[k] := trains[k].(status := trains[i].status);
      k := k + 1;
    }
  }

  /** The movement branch on the array, in the source's order of statements. */
  method MoveTrain(trains: array<Train>, i: nat, stations: seq<Station>)
    requires |stations| >= 1
    requires i < trains.Length
    modifies trains
    ensures trains[..] == old(trains[..])[i := Advance(old(trains[i]), stations)]
  {
    var direction := if trains[i].position < trains[i].destination then 1 else -1;
    var position := trains[i].position + direction;
    if position < 0 { position := 0; }
    if position >= |stations| { position := |stations| - 1; }
    var boarding := Share(stations[position].passengers);
    trains[i] := trains[i].(position := position, passengers := trains[i].passengers + boarding);
    if trains[i].position == trains[i].destination {
      trains[i] := trains[i].(status := FINISHED);
    }
  }

  /** The step on the fleet's array, in place and in the source's order of
      statements; only this array changes. */
  method SimulateStep(trains: array<Train>, stations: seq<Station>, now: int, rolls: seq<Roll>)
    requires |stations| >= 1
    requires trains.Length == |rolls|
    modifies trains
    ensures trains[..] == Step(old(trains[..]), now, stations, rolls)
  {
    var i := 0;
    while i < trains.Length
      invariant 0 <= i <= trains.Length
      invariant StepFrom(trains[..], i, now, stations, rolls) == Step(old(trains[..]), now, stations, rolls)
    {
      ghost var before := trains[..];
      if now >= trains[i].departureTime && trains[i].status == NOT_STARTED {
        trains[i] := trains[i].(status := RUNNING);
      }
      if trains[i].status == RUNNING {
        if rolls[i].chance < 1 {
          trains[i] := trains[i].(status := rolls[i].delay + 5);
          StopFleet(trains, i);
        } else {
          MoveTrain(trains, i, stations);
        }
      }
      assert trains[..] == Iterate(before, i, now, stations, rolls);
      i := i + 1;
    }
  }
}
