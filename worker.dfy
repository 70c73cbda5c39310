/** One elevator: its state, the three phases of a worker tick (drain the
    command channel, decide the next move, apply it) and what repeated ticks
    do. The phases are given as functions on a `Snapshot` of the state; the
    methods `Drain` and `Tick` perform them in place on an `ElevatorState`
    and are proved to agree with those functions. */
module Worker {
  import opened Common
  import opened OrderedSet
  import opened Channels

  /** The mutable part of an elevator's state, as a value. */
  datatype Snapshot = Snapshot(currentFloor: int, direction: Direction, stops: set<int>)

  /** What the decision phase settles: the floor to move to, the direction
      to store, and whether the new floor is a stop (dwell) or not (transit).
      `Unreachable` is the internal-consistency fault (`unreachable!()`). */
  datatype Decision = Decided(nextFloor: int, direction: Direction, shouldStop: bool) | Unreachable

  /** The elevator's shared state; the worker is its only writer. */
  class ElevatorState {
    const id: nat
    var currentFloor: int
    var direction: Direction
    var stops: set<int>

    /** `ElevatorState::new`: ground floor, idle, no stops. */
    constructor (id: nat)
      ensures this.id == id
      ensures Snap() == Snapshot(0, Idle, {})
    {
      this.id := id;
      currentFloor := 0;
      direction := Idle;
      stops := {};
    }

    function Snap(): Snapshot
      reads this
    {
      Snapshot(currentFloor, direction, stops)
    }
  }

  // ---------------------------------------------------------------------
  // Drain phase

  /** The floors named by the `AddStop` commands of a queue. */
  function AddedFloors(cmds: seq<Command>): (r: set<int>)
    ensures forall f :: f in r <==> AddStop(f) in cmds
  {
    if cmds == [] then {}
    else
      var first := match cmds[0] case AddStop(f) => {f} case Status => {};
      first + AddedFloors(cmds[1..])
  }

  /** The state after every queued command has been handled. */
  function Drained(s: Snapshot, cmds: seq<Command>): Snapshot {
    s.(stops := s.stops + AddedFloors(cmds))
  }

  // ---------------------------------------------------------------------
  // Decision phase

  function Move(s: Snapshot, nextFloor: int, direction: Direction): Decision {
    Decided(nextFloor, direction, nextFloor in s.stops)
  }

  /** The idle branch: head for the nearer of the nearest stop above and the
      nearest stop strictly below, preferring up on a tie. */
  function IdleChoice(s: Snapshot, upStop: Option<int>, downStop: Option<int>): Decision {
    var currentFloor := s.currentFloor;
    match (upStop, downStop)
    case (Some(u), Some(d)) =>
      if u - currentFloor <= currentFloor - d then Move(s, currentFloor + 1, Up)
      else Move(s, currentFloor - 1, Down)
    case (Some(_), None) => Move(s, currentFloor + 1, Up)
    case (None, Some(_)) => Move(s, currentFloor - 1, Down)
    case (None, None) => Unreachable
  }

  /** A non-empty set has an element above `pivot` or one at or below it. */
  lemma SplitAt(s: set<int>, pivot: int)
    requires s != {}
    ensures RangeFrom(s, pivot + 1) != {} || RangeToInclusive(s, pivot) != {}
    ensures RangeTo(s, pivot) != {} || RangeFrom(s, pivot) != {}
  {
  }

  /** With nothing above and nothing strictly below, the only stop is the
      current floor itself. */
  lemma NothingAboveOrBelow(s: set<int>, floor: int)
    requires s != {}
    ensures RangeFrom(s, floor + 1) == {} && RangeTo(s, floor) == {} <==> s == {floor}
  {
  }

  /** The decision phase of one tick. */
  function Decide(s: Snapshot): (d: Decision)
    ensures d.Unreachable? <==> s.direction == Idle && s.stops == {s.currentFloor}
    ensures s.stops == {} ==> d == Decided(s.currentFloor, Idle, false)
    ensures d.Decided? ==> d.shouldStop == (d.nextFloor in s.stops)
    ensures d.Decided? && s.stops != {} ==>
      || (d.direction == Up && d.nextFloor == s.currentFloor + 1)
      || (d.direction == Down && d.nextFloor == s.currentFloor - 1)
  {
    var currentFloor := s.currentFloor;
    if s.stops == {} then Decided(currentFloor, Idle, false)
    else
      SplitAt(s.stops, currentFloor);
      NothingAboveOrBelow(s.stops, currentFloor);
      match s.direction
      case Up =>
        if First(RangeFrom(s.stops, currentFloor + 1)).Some? then Move(s, currentFloor + 1, Up)
        else if Last(RangeToInclusive(s.stops, currentFloor)).Some? then Move(s, currentFloor - 1, Down)
        else Move(s, currentFloor, Down)
      case Down =>
        if Last(RangeTo(s.stops, currentFloor)).Some? then Move(s, currentFloor - 1, Down)
        else if First(RangeFrom(s.stops, currentFloor)).Some? then Move(s, currentFloor + 1, Up)
        else Move(s, currentFloor, Up)
      case Idle =>
        IdleChoice(s, First(RangeFrom(s.stops, currentFloor + 1)), Last(RangeTo(s.stops, currentFloor)))
  }

  // ---------------------------------------------------------------------
  // Apply phase and whole ticks

  /** The apply phase: arrive at the chosen floor and, if it was a stop,
      remove it. */
  function Apply(s: Snapshot, d: Decision): Snapshot
    requires d.Decided?
  {
    Snapshot(d.nextFloor, d.direction, if d.shouldStop then s.stops - {d.nextFloor} else s.stops)
  }

  /** Decide and apply; `None` when the decision phase faults. */
  function Step(s: Snapshot): Option<Snapshot> {
    var d := Decide(s);
    if d.Unreachable? then None else Some(Apply(s, d))
  }

  /** `n` ticks with no new commands arriving; `None` when one of them faults. */
  function Ticks(s: Snapshot, n: nat): Option<Snapshot>
    decreases n
  {
    if n == 0 then Some(s)
    else match Step(s)
      case None => None
      case Some(t) => Ticks(t, n - 1)
  }

  /** The i32 arithmetic of a tick does not overflow: the floor and every
      stop are i32 values and, when there is a stop, so are the neighbouring
      floors and the distance to every stop. */
  predicate TickFits(s: Snapshot) {
    && IsI32(s.currentFloor)
    && (forall x :: x in s.stops ==> IsI32(x))
    && (s.stops != {} ==>
          && IsI32(s.currentFloor + 1)
          && IsI32(s.currentFloor - 1)
          && forall x :: x in s.stops ==> IsI32(x - s.currentFloor) && IsI32(s.currentFloor - x))
  }

  // ---------------------------------------------------------------------
  // The worker loop, one tick at a time

  /** Drain phase: handle every command already queued, oldest first,
      without waiting for more. */
  method Drain(receiver: Channel, state: ElevatorState)
    modifies receiver, state
    ensures receiver.queue == []
    ensures state.Snap() == Drained(old(state.Snap()), old(receiver.queue))
  {
    ghost var pending := receiver.queue;
    var cmd := receiver.TryRecv();
    while cmd.Some?
      invariant cmd.None? ==> receiver.queue == [] && pending == []
      invariant cmd.Some? ==> pending == [cmd.value] + receiver.queue
      invariant state.currentFloor == old(state.currentFloor)
      invariant state.direction == old(state.direction)
      invariant state.stops + AddedFloors(pending) == old(state.stops) + AddedFloors(old(receiver.queue))
      decreases |pending|
    {
      match cmd.value {
        case AddStop(floor) =>
          state.stops := state.stops + {floor};
        case Status =>
      }
      pending := receiver.queue;
      cmd := receiver.TryRecv();
    }
  }

  /** One iteration of the worker loop: drain, decide, apply. Returns the
      decision taken; its `shouldStop` tells a dwell from a transit.
      `Unreachable` is returned where the original panics, with the state
      left as the drain phase made it. */
  method Tick(receiver: Channel, state: ElevatorState) returns (decision: Decision)
    requires TickFits(Drained(state.Snap(), receiver.queue))
    modifies receiver, state
    ensures receiver.queue == []
    ensures decision == Decide(Drained(old(state.Snap()), old(receiver.queue)))
    ensures decision.Decided? ==> state.Snap() == Apply(Drained(old(state.Snap()), old(receiver.queue)), decision)
    ensures decision.Unreachable? ==> state.Snap() == Drained(old(state.Snap()), old(receiver.queue))
  {
    Drain(receiver, state);
    ghost var drained := state.Snap();
    if state.stops == {} {
      state.direction := Idle;
      decision := Decided(state.currentFloor, Idle, false);
    } else {
      var currentFloor := state.currentFloor;
      var direction := state.direction;
      var nextFloor := currentFloor;
      assert IsI32(currentFloor + 1) && IsI32(currentFloor - 1);
      match direction {
        case Up =>
          if First(RangeFrom(state.stops, currentFloor + 1)).Some? {
            nextFloor := currentFloor + 1;
          } else {
            direction := Down;
            if Last(RangeToInclusive(state.stops, currentFloor)).Some? {
              nextFloor := currentFloor - 1;
            }
          }
        case Down =>
          if Last(RangeTo(state.stops, currentFloor)).Some? {
            nextFloor := currentFloor - 1;
          } else {
            direction := Up;
            if First(RangeFrom(state.stops, currentFloor)).Some? {
              nextFloor := currentFloor + 1;
            }
          }
        case Idle =>
          var upStop := First(RangeFrom(state.stops, currentFloor + 1));
          var downStop := Last(RangeTo(state.stops, currentFloor));
          match (upStop, downStop) {
            case (Some(u), Some(d)) =>
              assert IsI32(u - currentFloor) && IsI32(currentFloor - d);
              if u - currentFloor <= currentFloor - d {
                direction := Up;
                nextFloor := currentFloor + 1;
              } else {
                direction := Down;
                nextFloor := currentFloor - 1;
              }
            case (Some(_), None) =>
              direction := Up;
              nextFloor := currentFloor + 1;
            case (None, Some(_)) =>
              direction := Down;
              nextFloor := currentFloor - 1;
            case (None, None) =>
              decision := Unreachable;
              return;
          }
      }
      state.direction := direction;
      decision := Decided(nextFloor, direction, nextFloor in state.stops);
    }
    assert decision == Decide(drained);
    state.currentFloor := decision.nextFloor;
    if decision.shouldStop {
      state.stops := state.stops - {decision.nextFloor};
    }
  }
}
