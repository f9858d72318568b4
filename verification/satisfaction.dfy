/** Rider satisfaction per train, over the reals (the source uses double). */
module Satisfaction {
  import opened Trains

  /** Trains out of service (not started or finished) score a neutral 100;
      every other train loses 150 points per full train of load and one
      point per tick of a stop. There is no lower bound. */
  function Score(t: Train): (s: real)
    ensures t.status == NOT_STARTED || t.status == FINISHED ==> s == 100.0
    ensures t.status != NOT_STARTED && t.status != FINISHED ==>
      s == 100.0 - (3.0 / 50.0) * (t.passengers as real) - (if t.status > 0 then t.status as real else 0.0)
    ensures t.passengers >= 0 ==> s <= 100.0
    ensures t.status == RUNNING && t.passengers == 0 ==> s == 100.0
  {
    if t.status == NOT_STARTED || t.status == FINISHED then 100.0
    else
      var congestion := (t.passengers as real) / (TRAIN_CAPACITY as real);
      var congestionPenalty := 150.0 * congestion;
      var stopPenalty := if t.status > 0 then t.status as real else 0.0;
      100.0 - congestionPenalty - stopPenalty
  }

  /** A heavier train in the same state is never scored higher. */
  lemma SatisfactionFallsWithLoad(t: Train, passengers: int)
    requires t.passengers <= passengers
    ensures Score(t.(passengers := passengers)) <= Score(t)
  {
  }

  /** A longer stop with the same load is never scored higher. */
  lemma SatisfactionFallsWithStop(t: Train, status: int)
    requires 0 < t.status <= status
    ensures Score(t.(status := status)) <= Score(t)
  {
  }

  /** Scores every train of the fleet's array in place; nothing but the
      satisfaction field changes. */
  method CalculateSatisfaction(trains: array<Train>)
    modifies trains
    ensures forall i :: 0 <= i < trains.Length ==>
      trains[i] == old(trains[i]).(satisfaction := Score(old(trains[i])))
  {
    var i := 0;
    while i < trains.Length
      invariant 0 <= i <= trains.Length
      invariant forall k :: 0 <= k < i ==> trains[k] == old(trains[k]).(satisfaction := Score(old(trains[k])))
      invariant forall k :: i <= k < trains.Length ==> trains[k] == old(trains[k])
    {
      trains[i] := trains[i].(satisfaction := Score(trains[i]));
      i := i + 1;
    }
  }
}
