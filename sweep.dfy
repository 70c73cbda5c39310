/** What one tick and a run of ticks do to an elevator: it moves at most one
    floor, keeps sweeping while there is a stop ahead, reverses otherwise,
    removes only the floor it arrives at, and reaches the next stop of its
    sweep after exactly as many ticks as that stop is floors away. */
module Sweep {
  import opened Common
  import opened OrderedSet
  import opened Worker

  /** With no stops the elevator becomes idle and stays; with stops it moves
      exactly one floor and the stored direction is the direction moved; it
      faults exactly when idle with its own floor as the only stop. */
  lemma StepMotion(s: Snapshot)
    ensures s.stops == {} ==> Step(s) == Some(s.(direction := Idle))
    ensures Step(s).None? <==> s.direction == Idle && s.stops == {s.currentFloor}
    ensures s.stops != {} && Step(s).Some? ==>
      var t := Step(s).value;
      && Abs(t.currentFloor - s.currentFloor) == 1
      && t.direction != Idle
      && (t.direction == Up <==> t.currentFloor > s.currentFloor)
  {
  }

  /** Only the arrival floor can leave the stops, and it leaves exactly when
      it was one (the dwell-versus-transit flag); afterwards the elevator is
      never standing on a pending stop. */
  lemma StepRemovesOnlyArrival(s: Snapshot)
    requires Step(s).Some?
    ensures var t := Step(s).value;
      && t.stops == s.stops - {t.currentFloor}
      && (Decide(s).shouldStop <==> t.currentFloor in s.stops)
      && t.currentFloor !in t.stops
  {
  }

  /** An elevator not standing on a pending stop never faults; every
      completed tick re-establishes that condition, so only a stop newly added
      for the current floor can lead to the fault. */
  lemma NoLeftoverNoFault(s: Snapshot)
    requires s.currentFloor !in s.stops
    ensures Step(s).Some?
    ensures Step(s).value.currentFloor !in Step(s).value.stops
  {
  }

  /** Going up, the elevator keeps going up exactly while some stop lies
      above it, and otherwise turns down. */
  lemma UpSweepContinuesOrReverses(s: Snapshot)
    requires s.direction == Up && s.stops != {}
    ensures Decide(s).Decided?
    ensures Decide(s).direction == Up <==> exists x :: x in s.stops && x > s.currentFloor
  {
  }

  /** Going down, the elevator keeps going down exactly while some stop lies
      below it, and otherwise turns up. */
  lemma DownSweepContinuesOrReverses(s: Snapshot)
    requires s.direction == Down && s.stops != {}
    ensures Decide(s).Decided?
    ensures Decide(s).direction == Down <==> exists x :: x in s.stops && x < s.currentFloor
  {
  }

  /** An idle elevator heads for a nearest stop other than its own floor;
      it goes down only when every stop above is strictly farther than the
      stop it goes down to, so a tie between the two sides goes up. */
  lemma IdleHeadsToNearest(s: Snapshot)
    requires s.direction == Idle && s.stops != {} && Decide(s).Decided?
    ensures Decide(s).direction == Up ==>
      exists x :: x in s.stops && x > s.currentFloor &&
        forall y :: y in s.stops && y != s.currentFloor ==> x - s.currentFloor <= Abs(y - s.currentFloor)
    ensures Decide(s).direction == Down ==>
      exists x :: x in s.stops && x < s.currentFloor &&
        (forall y :: y in s.stops && y != s.currentFloor ==> s.currentFloor - x <= Abs(y - s.currentFloor)) &&
        (forall y :: y in s.stops && y > s.currentFloor ==> s.currentFloor - x < y - s.currentFloor)
  {
    var cf := s.currentFloor;
    var up := First(RangeFrom(s.stops, cf + 1));
    var down := Last(RangeTo(s.stops, cf));
    assert Decide(s) == IdleChoice(s, up, down);
    IdleChoiceNearest(s, up, down);
  }

  lemma IdleChoiceNearest(s: Snapshot, up: Option<int>, down: Option<int>)
    requires up == First(RangeFrom(s.stops, s.currentFloor + 1))
    requires down == Last(RangeTo(s.stops, s.currentFloor))
    requires IdleChoice(s, up, down).Decided?
    ensures IdleChoice(s, up, down).direction == Up ==>
      exists x :: x in s.stops && x > s.currentFloor &&
        forall y :: y in s.stops && y != s.currentFloor ==> x - s.currentFloor <= Abs(y - s.currentFloor)
    ensures IdleChoice(s, up, down).direction == Down ==>
      exists x :: x in s.stops && x < s.currentFloor &&
        (forall y :: y in s.stops && y != s.currentFloor ==> s.currentFloor - x <= Abs(y - s.currentFloor)) &&
        (forall y :: y in s.stops && y > s.currentFloor ==> s.currentFloor - x < y - s.currentFloor)
  {
  }

  /** Going up towards `target`, the nearest stop above, the elevator reaches
      it after exactly `target - currentFloor` ticks, passing the floors in
      between, and removes it (and nothing else) from its stops. */
  lemma {:induction false} SweepUpReachesNextStop(s: Snapshot, target: int)
    requires s.direction == Up && target in s.stops && s.currentFloor < target
    requires forall x :: x in s.stops && s.currentFloor < x ==> target <= x
    ensures Ticks(s, target - s.currentFloor) == Some(Snapshot(target, Up, s.stops - {target}))
    decreases target - s.currentFloor
  {
    var cf := s.currentFloor;
    assert target in RangeFrom(s.stops, cf + 1);
    var t := Snapshot(cf + 1, Up, if cf + 1 == target then s.stops - {target} else s.stops);
    assert Step(s) == Some(t);
    if cf + 1 < target {
      SweepUpReachesNextStop(t, target);
    }
  }

  /** Going down towards `target`, the nearest stop below, the elevator
      reaches it after exactly `currentFloor - target` ticks and removes it. */
  lemma {:induction false} SweepDownReachesNextStop(s: Snapshot, target: int)
    requires s.direction == Down && target in s.stops && target < s.currentFloor
    requires forall x :: x in s.stops && x < s.currentFloor ==> x <= target
    ensures Ticks(s, s.currentFloor - target) == Some(Snapshot(target, Down, s.stops - {target}))
    decreases s.currentFloor - target
  {
    var cf := s.currentFloor;
    assert target in RangeTo(s.stops, cf);
    var t := Snapshot(cf - 1, Down, if cf - 1 == target then s.stops - {target} else s.stops);
    assert Step(s) == Some(t);
    if target < cf - 1 {
      SweepDownReachesNextStop(t, target);
    }
  }

  /** Floor 5, going up, only stop 2: the first tick turns the elevator down
      to floor 4, the next ones pass 3 and stop at 2, leaving no stops. */
  lemma SweepReversalExample()
    ensures Ticks(Snapshot(5, Up, {2}), 1) == Some(Snapshot(4, Down, {2}))
    ensures Ticks(Snapshot(5, Up, {2}), 2) == Some(Snapshot(3, Down, {2}))
    ensures Ticks(Snapshot(5, Up, {2}), 3) == Some(Snapshot(2, Down, {}))
  {
    var s := Snapshot(5, Up, {2});
    assert RangeFrom(s.stops, 6) == {};
    assert 2 in RangeToInclusive(s.stops, 5);
    assert Step(s) == Some(Snapshot(4, Down, {2}));
    var t := Snapshot(4, Down, {2});
    SweepDownReachesNextStop(t, 2);
    assert Ticks(s, 3) == Ticks(t, 2);
    assert t.stops - {2} == {};
    assert 2 in RangeTo(t.stops, 4);
    assert Step(t) == Some(Snapshot(3, Down, {2}));
  }

  /** Floor 5, idle, stops 3 and 7: the distance tie goes up, to floor 6. */
  lemma IdleTieBreakExample()
    ensures Step(Snapshot(5, Idle, {3, 7})) == Some(Snapshot(6, Up, {3, 7}))
  {
  }

  /** Draining merges the requested floors into the stops and touches neither
      the floor nor the direction; a floor already pending and a `Status`
      command change nothing, and draining two batches one after the other is
      draining them together. */
  lemma DrainMerges(s: Snapshot, floor: int, first: seq<Command>, second: seq<Command>)
    ensures Drained(s, first).currentFloor == s.currentFloor && Drained(s, first).direction == s.direction
    ensures forall f :: f in Drained(s, first).stops <==> f in s.stops || AddStop(f) in first
    ensures floor in s.stops ==> Drained(s, [AddStop(floor)]) == s
    ensures Drained(s, [Status]) == s
    ensures Drained(Drained(s, first), second) == Drained(s, first + second)
  {
    assert AddedFloors([Status]) == {};
    assert AddedFloors([AddStop(floor)]) == {floor};
    forall f
      ensures f in AddedFloors(first + second) <==> f in AddedFloors(first) + AddedFloors(second)
    {
      assert AddStop(f) in first + second <==> AddStop(f) in first || AddStop(f) in second;
    }
    assert AddedFloors(first + second) == AddedFloors(first) + AddedFloors(second);
  }

  /** A floor just serviced is no longer pending, so asking for it again
      changes the stops: it is added afresh, not absorbed as a duplicate
      (contrast `DrainMerges`, where a pending floor changes nothing). */
  lemma ServicedFloorIsRequestedAfresh(s: Snapshot)
    requires Step(s).Some? && Decide(s).shouldStop
    ensures var t := Step(s).value;
      && t.currentFloor in s.stops && t.currentFloor !in t.stops
      && Drained(t, [AddStop(t.currentFloor)]).stops != t.stops
      && Drained(t, [AddStop(t.currentFloor)]).stops == t.stops + {t.currentFloor}
  {
    assert AddedFloors([AddStop(Step(s).value.currentFloor)]) == {Step(s).value.currentFloor};
  }
}
