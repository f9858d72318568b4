/** The records of the simulation (trains and stations), the fixed
    configuration constants, and construction of a fleet. */
module Trains {

  /** Fleet sizes of the two services; their sum divides each station's
      daily volume among all trains. */
  const NUM_TRAINS_UP: int := 48
  const NUM_TRAINS_DOWN: int := 48
  const TRAIN_CAPACITY: int := 2500
  /** Ticks between consecutive departures within one fleet. */
  const DEPARTURE_INTERVAL: int := 15

  /** The source encodes the operating state of a train in one integer:
      NOT_STARTED, FINISHED, RUNNING, or a positive number of ticks for a
      stopped train. */
  const NOT_STARTED: int := -1
  const FINISHED: int := -2
  const RUNNING: int := 0

  datatype Train = Train(
    position: int,       // index into the station sequence
    destination: int,    // index into the station sequence
    passengers: int,     // cumulative boarded passengers
    status: int,         // see NOT_STARTED, FINISHED, RUNNING; > 0 means stopped
    satisfaction: real,
    departureTime: int)  // tick at which the train may start
  {
    predicate IsStopped() { status > 0 }
  }

  /** A station as the simulation sees it: only its daily passenger volume.
      Name and travel time to the next station are never read. */
  datatype Station = Station(passengers: int)

  /** Every train stands on a valid station index. */
  predicate PositionsInRange(fleet: seq<Train>, numStations: int)
  {
    forall i :: 0 <= i < |fleet| ==> 0 <= fleet[i].position < numStations
  }

  /** Every train of the fleet is stopped (the state an accident leaves behind). */
  predicate AllStopped(fleet: seq<Train>)
  {
    forall i :: 0 <= i < |fleet| ==> fleet[i].IsStopped()
  }

  /** Builds a fleet of `numTrains` trains waiting at `startStation`, bound for
      `endStation`, departing every DEPARTURE_INTERVAL ticks from `startTime`.
      A non-positive count yields an empty fleet, as the source's loop does
      nothing then. */
  method InitializeTrains(numTrains: int, startStation: int, endStation: int, startTime: int)
    returns (fleet: seq<Train>)
    ensures |fleet| == if numTrains > 0 then numTrains else 0
    ensures forall i :: 0 <= i < |fleet| ==>
      && fleet[i].position == startStation
      && fleet[i].destination == endStation
      && fleet[i].passengers == 0
      && fleet[i].status == NOT_STARTED
      && fleet[i].satisfaction == 100.0
      && fleet[i].departureTime == startTime + i * DEPARTURE_INTERVAL
    ensures forall i, j :: 0 <= i < j < |fleet| ==> fleet[i].departureTime < fleet[j].departureTime
  {
    fleet := [];
    var i := 0;
    while i < numTrains
      invariant 0 <= i
      invariant if numTrains > 0 then i <= numTrains else i == 0
      invariant |fleet| == i
      invariant forall k :: 0 <= k < i ==>
        fleet[k] == Train(startStation, endStation, 0, NOT_STARTED, 100.0, startTime + k * DEPARTURE_INTERVAL)
    {
      fleet := fleet + [Train(startStation, endStation, 0, NOT_STARTED, 100.0, startTime + i * DEPARTURE_INTERVAL)];
      i := i + 1;
    }
  }
}
