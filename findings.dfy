/** The idle branch searches for a stop strictly below the current floor, so
    an idle elevator whose only stop is its own floor reaches the
    internal-consistency fault. The dispatcher does produce that state: an
    idle elevator with no stops scores 0 for a request at its own floor.
    The second half gives the idle search at or below the current floor and
    shows that it never faults and serves such a request. */
module Findings {
  import opened Common
  import opened OrderedSet
  import opened Scoring
  import opened Worker
  import opened Dispatch

  /** As written: a fleet holding one idle elevator with no stops, asked for
      the elevator's own floor, picks that elevator, and its next tick drains
      `AddStop(floor)` and faults. */
  lemma IdleElevatorSentToItsOwnFloorFaults(floor: int, requested: Direction)
    requires IsI32(floor)
    ensures IsSelection([Score(floor, Idle, floor, requested)], Some(0))
    ensures Decide(Drained(Snapshot(floor, Idle, {}), [AddStop(floor)])) == Unreachable
  {
  }

  lemma InclusiveWithoutFloor(s: set<int>, floor: int)
    ensures floor !in s ==> RangeToInclusive(s, floor) == RangeTo(s, floor)
  {
  }

  /** Corrected decision phase: the idle branch looks for the nearest stop at
      or below the current floor (`range(..=current_floor)`), as the up and
      down branches already do when they turn round. */
  function DecideAtOrBelow(s: Snapshot): (d: Decision)
    ensures d.Decided?
    ensures s.direction != Idle || s.stops == {} || s.currentFloor !in s.stops ==> d == Decide(s)
    ensures d.shouldStop == (d.nextFloor in s.stops)
  {
    var currentFloor := s.currentFloor;
    if s.direction == Idle && s.stops != {} then
      SplitAt(s.stops, currentFloor);
      InclusiveWithoutFloor(s.stops, currentFloor);
      IdleChoice(s, First(RangeFrom(s.stops, currentFloor + 1)), Last(RangeToInclusive(s.stops, currentFloor)))
    else Decide(s)
  }

  /** With the corrected search, the request that faults above is served:
      the elevator steps down one floor and comes straight back, stopping at
      the requested floor with nothing left pending. */
  lemma AtOrBelowServesOwnFloor(floor: int)
    ensures var s := Snapshot(floor, Idle, {floor});
      && DecideAtOrBelow(s) == Decided(floor - 1, Down, false)
      && Step(Apply(s, DecideAtOrBelow(s))) == Some(Snapshot(floor, Up, {}))
  {
    var s := Snapshot(floor, Idle, {floor});
    assert RangeFrom(s.stops, floor + 1) == {};
    assert RangeToInclusive(s.stops, floor) == {floor};
    var t := Snapshot(floor - 1, Down, {floor});
    assert RangeTo(t.stops, floor - 1) == {};
    assert floor in RangeFrom(t.stops, floor - 1);
    assert Apply(s, DecideAtOrBelow(s)) == t;
    assert Decide(t) == Decided(floor, Up, true);
    assert t.stops - {floor} == {};
  }
}
