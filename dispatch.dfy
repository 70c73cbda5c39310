/** The dispatcher (`Controller`): for each request it scores every elevator
    and sends `AddStop(floor)` to the first elevator with the lowest score. */
module Dispatch {
  import opened Common
  import opened Scoring
  import opened Channels
  import opened Worker

  /** The dispatcher's view of one worker: the channel it sends on and the
      shared state it reads. */
  datatype ElevatorHandle = ElevatorHandle(sender: Channel, state: ElevatorState)

  /** `chosen` is what the greedy argmin picks from `scores`: starting from
      i32::MAX, every strictly smaller score takes over, so the pick is the
      first index of a minimal score below i32::MAX, and there is none when
      every score is i32::MAX or more (or there are no scores). */
  ghost predicate IsSelection(scores: seq<int>, chosen: Option<nat>) {
    match chosen
    case None => forall i :: 0 <= i < |scores| ==> scores[i] >= I32_MAX
    case Some(k) =>
      && k < |scores|
      && scores[k] < I32_MAX
      && (forall j :: 0 <= j < |scores| ==> scores[k] <= scores[j])
      && (forall j :: 0 <= j < k ==> scores[k] < scores[j])
  }

  /** The selection is determined by the scores alone: two calls on the same
      elevator states with the same request pick the same elevator. */
  lemma SelectionIsUnique(scores: seq<int>, a: Option<nat>, b: Option<nat>)
    requires IsSelection(scores, a) && IsSelection(scores, b)
    ensures a == b
  {
  }

  /** Extending the scores by one keeps the earlier pick unless the new score
      is strictly below the best so far (i32::MAX when there is none). */
  lemma SelectionExtends(scores: seq<int>, chosen: Option<nat>, next: int)
    requires IsSelection(scores, chosen)
    ensures var best := if chosen.Some? then scores[chosen.value] else I32_MAX;
      IsSelection(scores + [next], if next < best then Some(|scores|) else chosen)
  {
  }

  /** An elevator scoring exactly i32::MAX is never chosen, because the
      search starts from that value and only a strictly smaller score takes
      over. Such a score occurs without overflow: an idle elevator at floor
      i32::MAX asked for floor 0, and then a fleet of it alone chooses
      nothing. */
  lemma MaxScoreNeverChosen(scores: seq<int>, requested: Direction)
    ensures forall k :: 0 <= k < |scores| && scores[k] == I32_MAX ==> !IsSelection(scores, Some(k))
    ensures ScoreFits(I32_MAX, Idle, 0, requested)
    ensures Score(I32_MAX, Idle, 0, requested) == I32_MAX
    ensures IsSelection([Score(I32_MAX, Idle, 0, requested)], None)
  {
  }

  class Controller {
    const elevators: seq<ElevatorHandle>

    /** `Controller::new`, given handles that each have their own channel. */
    constructor (elevators: seq<ElevatorHandle>)
      requires forall i, j :: 0 <= i < j < |elevators| ==> elevators[i].sender != elevators[j].sender
      ensures this.elevators == elevators
      ensures Valid()
    {
      this.elevators := elevators;
    }

    /** Each elevator has a channel of its own. */
    ghost predicate Valid() {
      forall i, j :: 0 <= i < j < |elevators| ==> elevators[i].sender != elevators[j].sender
    }

    ghost function States(): set<ElevatorState> {
      set i | 0 <= i < |elevators| :: elevators[i].state
    }

    ghost function Senders(): set<Channel> {
      set i | 0 <= i < |elevators| :: elevators[i].sender
    }

    /** Every elevator's score for the request, in fleet order. */
    function Scores(floor: int, requested: Direction): (r: seq<int>)
      reads States()
      ensures |r| == |elevators|
      ensures forall i :: 0 <= i < |elevators| ==>
        r[i] == Score(elevators[i].state.currentFloor, elevators[i].state.direction, floor, requested)
    {
      seq(|elevators|, i reads States() requires 0 <= i < |elevators| =>
        Score(elevators[i].state.currentFloor, elevators[i].state.direction, floor, requested))
    }

    /** The selection loop of `request_elevator`: the first elevator with the
        lowest score, if that score is below i32::MAX. */
    method ChooseElevator(floor: int, requested: Direction) returns (chosen: Option<nat>)
      requires forall i :: 0 <= i < |elevators| ==>
        ScoreFits(elevators[i].state.currentFloor, elevators[i].state.direction, floor, requested)
      ensures IsSelection(Scores(floor, requested), chosen)
      ensures chosen.None? <==> forall i :: 0 <= i < |elevators| ==> Scores(floor, requested)[i] == I32_MAX
    {
      ghost var scores := Scores(floor, requested);
      var bestScore := I32_MAX;
      chosen := None;
      var i := 0;
      while i < |elevators|
        invariant 0 <= i <= |elevators|
        invariant IsSelection(scores[..i], chosen)
        invariant bestScore == if chosen.Some? then scores[chosen.value] else I32_MAX
      {
        var state := elevators[i].state;
        var score := Score(state.currentFloor, state.direction, floor, requested);
        SelectionExtends(scores[..i], chosen, score);
        assert scores[..i] + [score] == scores[..i + 1];
        if score < bestScore {
          bestScore := score;
          chosen := Some(i);
        }
        i := i + 1;
      }
      assert scores[..i] == scores;
    }

    /** `request_elevator`: choose as above and send `AddStop(floor)` to the
        chosen elevator's channel only. Returns the choice. */
    method RequestElevator(floor: int, requested: Direction) returns (chosen: Option<nat>)
      requires Valid()
      requires IsI32(floor)
      requires forall i :: 0 <= i < |elevators| ==>
        ScoreFits(elevators[i].state.currentFloor, elevators[i].state.direction, floor, requested)
      modifies Senders()
      ensures IsSelection(Scores(floor, requested), chosen)
      ensures forall i :: 0 <= i < |elevators| ==>
        elevators[i].sender.queue ==
          if chosen == Some(i) then old(elevators[i].sender.queue) + [AddStop(floor)]
          else old(elevators[i].sender.queue)
      ensures forall i :: 0 <= i < |elevators| ==> elevators[i].state.Snap() == old(elevators[i].state.Snap())
    {
      chosen := ChooseElevator(floor, requested);
      if chosen.Some? {
        elevators[chosen.value].sender.Send(AddStop(floor));
      }
    }
  }
}
