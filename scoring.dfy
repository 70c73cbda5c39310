/** The dispatcher's cost of sending one elevator to a requested floor
    (`ElevatorState::calculate_score`). Lower is better. */
module Scoring {
  import opened Common

  /** Penalty for a request the elevator will meet on its current sweep. */
  const ON_THE_WAY: nat := 0
  /** Penalty for a request to travel against the elevator's sweep. */
  const OPPOSITE_DIRECTION: nat := 500
  /** Penalty for a same-direction request the elevator has already passed. */
  const ALREADY_PASSED: nat := 1000

  function Distance(currentFloor: int, floor: int): nat {
    Abs(currentFloor - floor)
  }

  /** True when `floor` lies ahead of (or at) an elevator sweeping in `heading`. */
  predicate Ahead(heading: Direction, currentFloor: int, floor: int) {
    match heading
    case Up => floor >= currentFloor
    case Down => floor <= currentFloor
    case Idle => true
  }

  /** The score of an elevator at `currentFloor` sweeping in `heading` for a
      request at `floor` that wants to travel in `requested`; computed on
      unbounded integers (see `ScoreFits` for the i32 side condition). */
  function Score(currentFloor: int, heading: Direction, floor: int, requested: Direction): (r: int)
    ensures r >= Distance(currentFloor, floor)
    ensures r - Distance(currentFloor, floor) in {ON_THE_WAY, OPPOSITE_DIRECTION, ALREADY_PASSED}
    ensures heading == Idle ==> r == Distance(currentFloor, floor)
  {
    var distance := Abs(currentFloor - floor);
    match heading
    case Idle => distance
    case Up =>
      if requested == Up && floor >= currentFloor then distance
      else if requested == Up then distance + ALREADY_PASSED
      else distance + OPPOSITE_DIRECTION
    case Down =>
      if requested == Down && floor <= currentFloor then distance
      else if requested == Down then distance + ALREADY_PASSED
      else distance + OPPOSITE_DIRECTION
  }

  /** The i32 arithmetic of the score does not overflow: the difference of
      floors, its absolute value and the penalised sum all fit. */
  predicate ScoreFits(currentFloor: int, heading: Direction, floor: int, requested: Direction) {
    && IsI32(currentFloor)
    && IsI32(floor)
    && IsI32(currentFloor - floor)
    && Distance(currentFloor, floor) <= I32_MAX
    && Score(currentFloor, heading, floor, requested) <= I32_MAX
  }

  /** Which penalty applies, as an if-and-only-if for each of the three. */
  lemma PenaltyCases(currentFloor: int, heading: Direction, floor: int, requested: Direction)
    ensures var p := Score(currentFloor, heading, floor, requested) - Distance(currentFloor, floor);
      && (p == ON_THE_WAY <==> heading == Idle || (requested == heading && Ahead(heading, currentFloor, floor)))
      && (p == ALREADY_PASSED <==> heading != Idle && requested == heading && !Ahead(heading, currentFloor, floor))
      && (p == OPPOSITE_DIRECTION <==> heading != Idle && requested != heading)
  {
  }

  /** At equal distance, a moving elevator ranks "same direction, not yet
      passed" below "opposite direction", and that below "same direction,
      already passed". */
  lemma PenaltyOrdering(currentFloor: int, heading: Direction, ahead: int, opposite: Direction, passed: int)
    requires heading != Idle && opposite != heading
    requires Ahead(heading, currentFloor, ahead) && !Ahead(heading, currentFloor, passed)
    requires Distance(currentFloor, ahead) == Distance(currentFloor, passed)
    ensures Score(currentFloor, heading, ahead, heading) < Score(currentFloor, heading, ahead, opposite)
    ensures Score(currentFloor, heading, ahead, opposite) < Score(currentFloor, heading, passed, heading)
  {
  }

  /** For an elevator going up, of two upward requests both at or above it the
      nearer one scores no worse (and symmetrically going down). */
  lemma ScoreMonotoneAhead(currentFloor: int, heading: Direction, near: int, far: int)
    requires heading != Idle
    requires Ahead(heading, currentFloor, near) && Ahead(heading, currentFloor, far)
    requires Distance(currentFloor, near) <= Distance(currentFloor, far)
    ensures Score(currentFloor, heading, near, heading) <= Score(currentFloor, heading, far, heading)
  {
  }

  /** Two i32 floors whose difference leaves room for the largest penalty
      keep every step of the score arithmetic in range, whatever the
      elevator's direction and the requested one. */
  lemma ScoreFitsWithinBounds(currentFloor: int, heading: Direction, floor: int, requested: Direction)
    requires IsI32(currentFloor) && IsI32(floor) && IsI32(currentFloor - floor)
    requires Abs(currentFloor - floor) <= I32_MAX - ALREADY_PASSED
    ensures ScoreFits(currentFloor, heading, floor, requested)
    ensures IsI32(Score(currentFloor, heading, floor, requested))
  {
  }
}
