# Train fleet simulation — Dafny model

This project models the simulation engine of a two-service commuter line
(upward and downward trains over 23 stations): building a fleet, advancing a
fleet by one tick (start transition, accident roll, one-station movement with
clamping, boarding and arrival), and scoring rider satisfaction per train.

The model follows `sim.c`:

- `Trains` holds the `Train` and `Station` records, the configuration constants
  (48 + 48 trains, capacity 2500, departures every 15 ticks), the integer
  status encoding (`-1` not started, `-2` finished, `0` running, `> 0`
  stopped), and `InitializeTrains`.
- `Simulation` models `simulate_step`. `Iterate` is one iteration of its loop,
  acting on the whole fleet, so an accident's overwrite of every status is
  seen by the later iterations. `Step` runs the iterations in index order.
  `SimulateStep` performs the same loop in place on an `array<Train>` and is
  proved to compute `Step`.
- `StepSpec` gives an independent, train-by-train description of one tick
  (`StepReference`): up to the first accident every train moves on its own;
  the first accident gives every train the same stop duration; no train
  after it changes. `StepMatchesReference` proves that the loop computes it.
- `StepProperties` states the consequences: bounds, monotone loads, fixed
  routes, the same-tick start, one-station movement and arrival, the
  fleet-wide accident, and trains that a tick leaves alone.
- `Runs` chains ticks (`Run`) and shows that bounds and loads hold over a run
  and that a stopped fleet stays frozen. `SimulateTick` steps the two services'
  separate arrays one after the other.
- `Satisfaction` models `calculate_satisfaction` over `real`.

Random draws: `rand()` is not modelled. Each train of a tick receives a
`Roll(chance, delay)`, both in `[0, 100)` as `rand() % 100` is. The roll is read
only when the train is running: an accident when `chance < 1`, with stop
duration `delay + 5`.

Behaviour kept as the code has it:

- A train that starts on a tick is handled by the running branch in the same
  iteration (sim.c:42-45): it takes the accident roll and, if no accident
  happens in the tick, it moves. So a train three stations from its
  destination that is due at tick 0 and meets no accident arrives during the
  tick-2 step.
- An accident overwrites the status of every train in that one array
  (sim.c:48), including not-started and finished trains. The two services are
  separate arrays (sim.c:110-111, 128-129), so an accident never reaches the
  other service.
- A stopped train's status is never counted down (sim.c:40-65). Once an
  accident happens, the fleet never moves again (`StoppedFleetFrozen`,
  `AccidentFreezesRun`).
- The stop duration is `rand() % 100 + 5`, which lies in `[5, 104]`. The
  source comment beside it says "20+ minutes".
- A running train already standing on its destination moves one station
  down: the direction is `+1` only when the position is below the destination
  (at station 0 it stays, clamped, and is finished).

## Model

| member | source | states |
|---|---|---|
| Trains.InitializeTrains | sim.c:29-37 | train `i` stands at the start station, is bound for the end station, is empty, not started, has satisfaction 100 and departs at `start + 15*i`; departure times strictly increase; a non-positive count gives an empty fleet |
| Simulation.Share | sim.c:56 | boarding is the station volume divided among the 96 trains with division truncated toward zero (the remainder lies in `[0, 96)` for non-negative volumes and in `(-96, 0]` for negative ones) |
| Simulation.Advance | sim.c:50-61 | the new position is always a valid station index; a train on the line with a different destination moves exactly one station toward it; it boards the share of its new station; it becomes finished exactly when it reaches its destination; route and schedule are unchanged |
| Simulation.StopAll | sim.c:48 | after the overwrite every train has status `d`, and putting back a train's old status gives the original train, so nothing else changed |
| Simulation.StopFleet | sim.c:46-48 | the loop over the array leaves every train with the status the triggering train was given, and nothing else changed |
| Simulation.MoveTrain | sim.c:50-61 | the clamping, boarding and arrival statements change only the moving train, exactly as `Advance` describes |
| Simulation.SimulateStep | sim.c:40-65 | the in-place loop over the array leaves the fleet that `Step` describes, and only that array changes |
| StepSpec.FirstAccidentFrom | sim.c:41-46 | finds the first train, in loop order, that is running after its start transition and draws an accident, or reports that no train does |
| StepSpec.StoppedFleetUnchanged | sim.c:40-65 | when every train is stopped, the remaining iterations change nothing, because no train starts or runs |
| StepSpec.StepFromMatchesRest | sim.c:41-64 | the iterations from `i` onward produce the train-by-train reference result |
| StepSpec.StepMatchesReference | sim.c:40-65 | one tick equals the reference: without an accident each train takes its own update; after the first accident, trains before it have moved, trains from it on have not, and all share its stop duration |
| StepProperties.IterationsPreserve | sim.c:41-64 | every iteration keeps destinations and departure times, keeps positions on the line, and never lowers a load when station volumes are non-negative |
| StepProperties.StepKeepsPositionsInRange | sim.c:50-56 | with at least one station and every position on the line, every position is still on the line after a tick, so the boarding lookup is in bounds |
| StepProperties.StepPassengersNeverDecrease | sim.c:56-58 | with non-negative station volumes no train's load falls during a tick |
| StepProperties.StepKeepsRoute | sim.c:40-65 | a tick changes no destination and no departure time |
| StepProperties.NoAccidentTrainsIndependent | sim.c:41-64 | without an accident in the tick, each train is updated from its own state and roll alone |
| StepProperties.AccidentStopsWholeFleet | sim.c:46-48 | after the first accident every train has the same status `d` in `[5, 104]`, whatever its status was; trains from the accident on keep position and load; the fleet is all stopped |
| StepProperties.IdleTrainUnchanged | sim.c:41-64 | a stopped, finished or not-yet-due train keeps position and load; it is unchanged unless an accident stopped the fleet |
| StepProperties.FinishedStaysFinished | sim.c:41-64 | a finished train stays finished unless an accident stops the whole fleet |
| StepProperties.StartingTrainMovesSameTick | sim.c:42-45 | in a tick without an accident, a due not-started train becomes running and takes its move in the same iteration; it never stays not started, and it leaves its start station when start and destination are distinct stations on the line |
| StepProperties.RunningTrainMovesOneStation | sim.c:50-61 | a running train on the line, not at its destination and with no accident in the tick, moves exactly one station toward it, boards that station's share, and is finished exactly when it arrives (otherwise still running) |
| StepProperties.BoardingIsStationShare | sim.c:56-58 | with non-negative volumes the load grows by exactly the station's volume divided by 96 (integer division), never less than zero |
| Satisfaction.Score | sim.c:67-77 | not-started and finished trains score exactly 100; others score 100 minus 150 per full train of load minus the stop duration; with a non-negative load the score is at most 100; a running empty train scores 100 |
| Satisfaction.SatisfactionFallsWithLoad | sim.c:72-75 | a heavier load in the same state never scores higher |
| Satisfaction.SatisfactionFallsWithStop | sim.c:74-75 | a longer stop with the same load never scores higher |
| Satisfaction.CalculateSatisfaction | sim.c:67-77 | every train of the array gets the satisfaction of its state, and no other field changes |
| Runs.RunKeepsPositionsInRange | sim.c:127-129 | positions stay on the line over any number of ticks |
| Runs.RunPassengersNeverDecrease | sim.c:127-129 | loads never fall over a run with non-negative station volumes |
| Runs.StoppedFleetFrozen | sim.c:40-65 | a fleet in which every train is stopped never changes again |
| Runs.AccidentFreezesRun | sim.c:46-48 | after a tick with an accident, the fleet stays as that tick left it for the rest of the run |
| Runs.SimulateTick | sim.c:128-129 | stepping the up and down services' separate arrays gives each array its own `Step` |

## Left out

- `output_results` (sim.c:80-106): file output, two-decimal formatting and a floating-point mean. These are I/O and formatting.
- The `main` driver (sim.c:108-147): seeding with the clock, the 100-repetition loop and the `double` averaging across trains and ticks. `Run` and `SimulateTick` model only the tick sequence.
- `rand()`: replaced by the explicit `Roll` inputs described above. The generator itself is not modelled.
- IEEE `double` rounding in the satisfaction score: the model computes over `real`.
- The station name and `time_to_next` fields: the simulation never reads them.
- C `int` width: the integers are unbounded. No 32-bit overflow is modelled. With the reference table (sim.c:114-120) a train finishes on arrival, so it boards at most at the 22 stations after its start: at most 8,136 passengers on the up service and 6,922 on the down service, far below 2^31. This bound is computed from the table and is not proved in the model.
- `num_trains`: `simulate_step` and `calculate_satisfaction` take a count beside the array; the model uses the length of the fleet (`|fleet|`, `trains.Length`), since every call passes the array's own size (sim.c:128-131).
- `num_stations`: the model takes it to be the length of the station sequence, and `Step` requires at least one station. With no stations the source would index `stations[-1]`.
- `initialize_trains` writes into an array the caller provides. `InitializeTrains` returns a new fleet of the given size. The caller always passes an array of exactly that size.
- Simulation.Iterate, Simulation.StepFrom, Simulation.Step and Runs.Run: their own contracts state only that the fleet size is kept. Their meaning is stated by `StepMatchesReference` and by the lemmas about them.
- Simulation.StopDuration, Simulation.Started, Simulation.Triggers and Simulation.Solo: helpers without contracts of their own. `StopDuration` (`rand() % 100 + 5`, sim.c:47) is bounded to `[5, 104]` by `AccidentStopsWholeFleet`. `Started` (the start transition, sim.c:42-44) is described by `StartingTrainMovesSameTick` and `IdleTrainUnchanged`. `Triggers` (the running test and accident roll, sim.c:45-46) is described by `FirstAccidentFrom` and `AccidentStopsWholeFleet`. `Solo` (an iteration without an accident, sim.c:42-62) is described by `NoAccidentTrainsIndependent`, `StartingTrainMovesSameTick` and `RunningTrainMovesOneStation`.
