# elevator-rs in Dafny

A model of a small elevator bank: a dispatcher (`Controller`) that assigns
each floor request to the elevator with the lowest direction-aware score, and
per-elevator workers that drain their command channel and then move at most
one floor per tick with a SCAN-style sweep over an ordered set of stops.

Modules:

- `Common` (common.dfy): `Direction`, `Command`, `Option`, the i32 range.
- `OrderedSet` (ordered_set.dfy): the `BTreeSet` queries the worker makes —
  `range(lo..)`, `range(..hi)`, `range(..=hi)` as set functions and
  `next()` / `next_back()` as `First` / `Last` (least / greatest element).
- `Scoring` (scoring.dfy): `calculate_score` as the pure function `Score`,
  with penalties 0, 500 and 1000, and its properties.
- `Channels` (channels.dfy): a command channel as a class holding a FIFO
  queue (`seq<Command>`) with `Send` and the non-blocking `TryRecv`.
- `Worker` (worker.dfy): `ElevatorState` as a class whose fields the worker
  updates in place; the three phases of one iteration of `elevator_loop` as
  functions on a `Snapshot` value (`Drained`, `Decide`, `Apply`, `Step`,
  `Ticks`), and the methods `Drain` and `Tick` that perform them on the
  objects and are proved to agree with those functions.
- `Sweep` (sweep.dfy): what a tick and a run of ticks do.
- `Dispatch` (dispatch.dfy): `ElevatorHandle`, the `Controller` class, the
  selection loop `ChooseElevator` and `RequestElevator`, specified by the
  predicate `IsSelection` (first index of a minimal score below i32::MAX).
- `Findings` (findings.dfy): the reachable `unreachable!()` and its fix.

The `unreachable!()` of the idle branch is the value `Decision.Unreachable`:
`Tick` returns it with the state as the drain phase left it. Integer
arithmetic is done on `int`; where the original's `i32` arithmetic could
overflow, the callers must meet `ScoreFits` (for scoring) or `TickFits`
(for a tick). `RequestElevator` returns the index it chose, where the
original returns nothing and only logs the choice.

The idle branch searches strictly below the current floor (src/main.rs:153),
while the up and down branches fall back to inclusive searches
(src/main.rs:136, 146) and the `unreachable!()` at src/main.rs:173 says the
author held the remaining case impossible. The model follows the code as
written and records the difference under "## Findings".

## Model

| member | source | states |
|---|---|---|
| `OrderedSet.First` | src/main.rs:152 | `range(..).next()`: nothing exactly when the range is empty, otherwise its least element |
| `OrderedSet.Last` | src/main.rs:153 | `range(..).next_back()`: nothing exactly when the range is empty, otherwise its greatest element |
| `Scoring.Score` | src/main.rs:36-59 | the score is at least the distance, exceeds it by exactly 0, 500 or 1000, and equals it for an idle elevator |
| `Scoring.PenaltyCases` | src/main.rs:38-58 | penalty 0 iff idle or the request goes the elevator's way and is ahead of it; 1000 iff same way but already passed; 500 iff the other way |
| `Scoring.PenaltyOrdering` | src/main.rs:40-57 | at equal distance: same way and ahead < opposite way < same way but passed |
| `Scoring.ScoreMonotoneAhead` | src/main.rs:41-42 | for same-way requests ahead of a moving elevator, the nearer scores no worse |
| `Scoring.ScoreFitsWithinBounds` | src/main.rs:37-57 | i32 floors whose difference (and its absolute value) leaves room for the 1000 penalty keep the whole score computation within i32, for any directions |
| `Channels.Channel.constructor` | src/main.rs:206 | a new channel holds no commands |
| `Channels.Channel.Send` | src/main.rs:91 | the command is appended at the back of the queue |
| `Channels.Channel.TryRecv` | src/main.rs:103 | returns the oldest command and removes it, or nothing when the queue is empty |
| `Worker.ElevatorState.constructor` | src/main.rs:27-34 | a new elevator is at floor 0, idle, with no stops, and keeps its id |
| `Worker.AddedFloors` | src/main.rs:105-108 | a floor is added by a queue exactly when the queue holds `AddStop` of it |
| `Worker.Drain` | src/main.rs:103-118 | the queue ends empty; stops become old stops plus every `AddStop` floor; floor and direction unchanged |
| `Worker.Decide` | src/main.rs:120-181 | faults iff idle with the current floor as the only stop; no stops: stay and become idle; otherwise move exactly one floor, direction matching the move; the stop flag says whether the new floor is a stop |
| `Worker.Tick` | src/main.rs:102-198 | drains the channel, then the decision and the new state are those of `Decide` and `Apply` on the drained state, or the drained state is kept on the fault |
| `Sweep.StepMotion` | src/main.rs:122-181 | with no stops the elevator idles in place; otherwise it moves exactly one floor and stores the direction moved; it faults exactly when idle on its only stop |
| `Sweep.StepRemovesOnlyArrival` | src/main.rs:179-189 | the new stops are the old minus the arrival floor; the dwell flag holds iff the arrival floor was a stop; the elevator never stands on a pending stop afterwards |
| `Sweep.NoLeftoverNoFault` | src/main.rs:151-189 | an elevator not standing on a pending stop never faults, and stays that way after the tick |
| `Sweep.UpSweepContinuesOrReverses` | src/main.rs:131-140 | going up, it keeps going up iff some stop is above, otherwise it turns down |
| `Sweep.DownSweepContinuesOrReverses` | src/main.rs:141-150 | going down, it keeps going down iff some stop is below, otherwise it turns up |
| `Sweep.IdleHeadsToNearest` | src/main.rs:151-175 | an idle elevator heads for a nearest stop; it goes down only if every stop above is strictly farther (ties go up) |
| `Sweep.IdleChoiceNearest` | src/main.rs:155-174 | the same for the four-way match on the nearest stop above and below |
| `Sweep.SweepUpReachesNextStop` | src/main.rs:131-133 | going up to the nearest stop above, it arrives after exactly that many ticks, still going up, with only that stop removed |
| `Sweep.SweepDownReachesNextStop` | src/main.rs:141-143 | going down to the nearest stop below, it arrives after exactly that many ticks with only that stop removed |
| `Sweep.SweepReversalExample` | src/main.rs:131-150 | floor 5, up, stops {2}: floors 4, 3, 2, turning down on the first tick, ending with no stops |
| `Sweep.IdleTieBreakExample` | src/main.rs:155-164 | floor 5, idle, stops {3, 7}: the tie goes up, to floor 6 |
| `Sweep.DrainMerges` | src/main.rs:103-118 | draining adds exactly the requested floors; a pending floor or `Status` changes nothing; two drains equal one drain of both batches |
| `Sweep.ServicedFloorIsRequestedAfresh` | src/main.rs:108 | a floor just serviced is no longer pending, so a new `AddStop` for it changes the stops (it is added again), unlike one for a pending floor |
| `Dispatch.SelectionIsUnique` | src/main.rs:76-88 | the scores determine the chosen elevator |
| `Dispatch.SelectionExtends` | src/main.rs:84-87 | one more score takes over exactly when it is strictly below the best so far |
| `Dispatch.MaxScoreNeverChosen` | src/main.rs:77-84 | no selection ever picks an elevator whose score is exactly i32::MAX; such a score occurs without overflow (idle at floor i32::MAX, request at floor 0), and a fleet of that elevator alone chooses nothing |
| `Dispatch.Controller.constructor` | src/main.rs:72-74 | the controller holds the given handles and, given one channel per handle, is valid |
| `Dispatch.Controller.ChooseElevator` | src/main.rs:77-88 | picks the first elevator with a minimal score below i32::MAX; picks none iff every score is i32::MAX (in particular for an empty fleet) |
| `Dispatch.Controller.RequestElevator` | src/main.rs:76-97 | the same choice; exactly one `AddStop(floor)` is appended to the chosen elevator's channel and to no other; no elevator state changes |
| `Findings.IdleElevatorSentToItsOwnFloorFaults` | src/main.rs:153-173 | an idle elevator with no stops is picked for a request at its own floor and its next tick faults |
| `Findings.DecideAtOrBelow` | src/main.rs:151-175 | the corrected decision never faults and agrees with the original whenever the elevator is not idle on a pending stop |
| `Findings.AtOrBelowServesOwnFloor` | src/main.rs:153 | corrected: an idle elevator whose only stop is its own floor steps down and back, serving the stop |

## Left out

- Threads, `thread::spawn`, `Arc<Mutex<…>>` locking and the fatal `unwrap` on a poisoned lock: concurrency and library behaviour; the dispatcher and the worker access the state objects directly.
- The race between the dispatcher reading a state and the worker changing it: a concurrency artefact.
- Channel disconnection: `try_recv` failing on a disconnected channel ends the drain like an empty queue, and `send(..).unwrap()` panics when the worker is gone; the model has no disconnected channel, so neither is modelled.
- Worker.Tick: in the original the fault is final. The `unreachable!()` panics while the worker holds the state lock, which poisons that elevator's `Mutex` and ends its thread; the dispatcher's next `request_elevator` then panics at `lock().unwrap()` when it scores that elevator, and a `send` to it would panic too. The model returns `Unreachable` and leaves the state usable, and `Dispatch.Controller.RequestElevator` goes on scoring and sending to that elevator; the aftermath of the fault is not carried forward.
- `thread::sleep` for dwell and transit: timing only; the decision's `shouldStop` flag keeps the difference.
- All `println!` output, including what `Status` prints and the second lock that reads the chosen elevator's `id` for the log line.
- `main`, its demo requests and its idle loop: a demo driver, not part of the core. Its `mpsc::channel()` call is modelled only as the `Channel` constructor.
- The unbounded `loop` of `elevator_loop`: one iteration is `Tick`; repeated iterations are the function `Ticks`, which assumes no new commands arrive between ticks (`DrainMerges` shows that batches drained in turn compose).
- Worker.Tick: its precondition `TickFits` asks that the neighbouring floors and every distance to a stop fit in i32 whenever there is a stop, which is more than each single branch of the original computes.
- Scoring.Score: computed on unbounded integers; the i32 overflow of the original is excluded by `ScoreFits`, which the dispatcher requires of every elevator.

## Findings

| source | as written | input that shows it | evidently intended | confidence | as-written member | corrected member |
|---|---|---|---|---|---|---|
| src/main.rs:153 | the idle branch searches `range(..current_floor)`, strictly below, so a stop at the current floor is found neither above nor below and `unreachable!()` at line 173 is reached | a new elevator (floor 0, idle, no stops) alone in the fleet; `request_elevator(0, Up)` picks it with score 0 and sends `AddStop(0)`; its next tick has stops {0} and panics | search at or below the current floor (`range(..=current_floor)`), as the up and down branches do when they turn (src/main.rs:136, 146), so that the case `unreachable!()` at src/main.rs:173 treats as impossible really is | medium; not executed | `Findings.IdleElevatorSentToItsOwnFloorFaults` | `Findings.DecideAtOrBelow` |

The worker model itself (`Worker.Decide`, `Worker.Tick`) keeps the code as
written, with the fault as an explicit outcome (in the original the fault
also ends that worker and makes the next dispatch panic; see "## Left out");
`Findings.DecideAtOrBelow`
is the corrected decision, proved never to fault, and
`Findings.AtOrBelowServesOwnFloor` shows it serving the request.
