/** The decision logic of MultipleCarriages.Elevator as functions on the
    car's state: its floor, its direction of travel, its two request sets
    and the timestamp counter shared by both sets. The Elevator class in
    module Carriage is proved to change its fields exactly as these
    functions say. */
module Sweep {
  import opened Common
  import opened Requests
  import opened FloorIndex
  import opened CarriageRequests

  datatype CarState = CarState(
    floor: int,
    direction: int,
    pickups: seq<Request>,
    dropoffs: seq<Request>,
    timestamp: int)

  /** Outcome of a step: whether the car's state changed, and the new state. */
  datatype Tick = Tick(changed: bool, car: CarState)

  ghost predicate Valid(c: CarState) {
    Sorted(c.pickups) && Sorted(c.dropoffs)
  }

  /** Floors with a pending pick-up or drop-off. */
  ghost function Pending(c: CarState): set<int> {
    Floors(c.pickups) + Floors(c.dropoffs)
  }

  /** Java floors come from validated input in [1, N], so no pending floor
      is -1, the value getNextFloor uses for "none". */
  ghost predicate NoSentinel(c: CarState) {
    -1 !in Pending(c)
  }

  /** `getNumRequests`: pick-ups plus drop-offs. */
  function NumRequests(c: CarState): nat {
    |c.pickups| + |c.dropoffs|
  }

  lemma NumRequestsCountsFloors(c: CarState)
    requires Valid(c)
    ensures NumRequests(c) == |Floors(c.pickups)| + |Floors(c.dropoffs)|
    ensures NumRequests(c) == 0 <==> Pending(c) == {}
  {
    SizeIsFloorCount(c.pickups);
    SizeIsFloorCount(c.dropoffs);
  }

  /** The fields as the constructor sets them, before its call to update(). */
  function Initial(): CarState {
    CarState(1, 0, [], [], 0)
  }

  /** `addPickup`: inserts with the current timestamp, then advances the
      timestamp by one, whether or not the floor was already pending. */
  function AddPickup(c: CarState, floor: int): (r: CarState)
    requires Valid(c)
    ensures Valid(r)
    ensures r.timestamp == c.timestamp + 1
    ensures r.floor == c.floor && r.direction == c.direction && r.dropoffs == c.dropoffs
    ensures Floors(r.pickups) == Floors(c.pickups) + {floor}
    ensures floor in Floors(c.pickups) ==> r.pickups == c.pickups
    ensures floor !in Floors(c.pickups) ==>
              multiset(r.pickups) == multiset(c.pickups) + multiset{CarriageRequest(floor, c.timestamp)}
  {
    InsertSpec(c.pickups, CarriageRequest(floor, c.timestamp));
    c.(pickups := Insert(c.pickups, CarriageRequest(floor, c.timestamp)), timestamp := c.timestamp + 1)
  }

  /** `addDropoff`: the same on the drop-off set, sharing the timestamp. */
  function AddDropoff(c: CarState, floor: int): (r: CarState)
    requires Valid(c)
    ensures Valid(r)
    ensures r.timestamp == c.timestamp + 1
    ensures r.floor == c.floor && r.direction == c.direction && r.pickups == c.pickups
    ensures Floors(r.dropoffs) == Floors(c.dropoffs) + {floor}
    ensures floor in Floors(c.dropoffs) ==> r.dropoffs == c.dropoffs
    ensures floor !in Floors(c.dropoffs) ==>
              multiset(r.dropoffs) == multiset(c.dropoffs) + multiset{CarriageRequest(floor, c.timestamp)}
  {
    InsertSpec(c.dropoffs, CarriageRequest(floor, c.timestamp));
    c.(dropoffs := Insert(c.dropoffs, CarriageRequest(floor, c.timestamp)), timestamp := c.timestamp + 1)
  }

  /** `addressFloor`: unless the car is already there with nothing to do,
      it services both sets at `floor`, moves there, and heads in the
      direction of the move (0 when it did not move). */
  function AddressFloor(c: CarState, floor: int): (t: Tick)
    requires Valid(c)
    ensures Valid(t.car)
    ensures !t.changed <==> floor == c.floor && NumRequests(c) == 0
    ensures !t.changed ==> t.car == c
    ensures t.changed ==>
              && t.car.floor == floor
              && t.car.direction == Sign(floor - c.floor)
              && floor !in Pending(t.car)
              && Pending(t.car) == Pending(c) - {floor}
              && (forall x :: x in t.car.pickups <==> x in c.pickups && x.floor != floor)
              && (forall x :: x in t.car.dropoffs <==> x in c.dropoffs && x.floor != floor)
              && t.car.timestamp == c.timestamp
  {
    if floor == c.floor && NumRequests(c) == 0 then Tick(false, c)
    else
      var delta := floor - c.floor;
      Tick(true, CarState(floor, Sign(delta), Remove(c.pickups, floor), Remove(c.dropoffs, floor), c.timestamp))
  }

  /** `update`: one step of the sweep. */
  function Update(c: CarState, numFloors: nat): (t: Tick)
    requires Valid(c)
    ensures Valid(t.car)
  {
    var nextPickup := NextFloor(c.pickups, c.floor, c.direction);
    var nextDropoff := NextFloor(c.dropoffs, c.floor, c.direction);
    var distPickup := Abs(c.floor - nextPickup);
    var distDropoff := Abs(c.floor - nextDropoff);
    if nextPickup != -1 && nextDropoff != -1 then
      if distPickup < distDropoff then AddressFloor(c, nextPickup)
      else AddressFloor(c, nextDropoff)
    else if nextPickup != -1 then AddressFloor(c, nextPickup)
    else if nextDropoff != -1 then AddressFloor(c, nextDropoff)
    else if NumRequests(c) == 0 then AddressFloor(c, numFloors / 2)
    else Tick(true, c.(direction := -c.direction))
  }

  /** With a pick-up and a drop-off both ahead, the car goes to the pick-up
      only if it is strictly closer, otherwise (ties included) to the
      drop-off; either way it services that floor and reports a change. */
  lemma UpdatePrefersStrictlyCloserPickup(c: CarState, numFloors: nat)
    requires Valid(c)
    requires NextFloor(c.pickups, c.floor, c.direction) != -1
    requires NextFloor(c.dropoffs, c.floor, c.direction) != -1
    ensures var p, d := NextFloor(c.pickups, c.floor, c.direction), NextFloor(c.dropoffs, c.floor, c.direction);
            var t := Update(c, numFloors);
            && t.changed
            && t.car.floor == (if Abs(c.floor - p) < Abs(c.floor - d) then p else d)
            && t.car.floor !in Pending(t.car)
            && t == AddressFloor(c, t.car.floor)
  {
    NextFloorIsStored(c.pickups, c.floor, c.direction);
    NumRequestsCountsFloors(c);
  }

  /** With requests pending but none ahead, update only reverses the
      direction: floor and both sets stay as they are. */
  lemma UpdateReverses(c: CarState, numFloors: nat)
    requires Valid(c) && NumRequests(c) > 0
    requires NextFloor(c.pickups, c.floor, c.direction) == -1
    requires NextFloor(c.dropoffs, c.floor, c.direction) == -1
    ensures Update(c, numFloors) == Tick(true, CarState(c.floor, -c.direction, c.pickups, c.dropoffs, c.timestamp))
  {
  }

  /** Update takes the car to a pending floor whenever some next floor
      exists, and services it there; when only one of the two next floors
      exists, that is the floor it goes to. The move is addressFloor's, so
      the car then heads in the sign of the move and each set loses only
      that floor (see AddressFloor's contract). */
  lemma UpdateServicesNextFloor(c: CarState, numFloors: nat)
    requires Valid(c)
    requires NextFloor(c.pickups, c.floor, c.direction) != -1 || NextFloor(c.dropoffs, c.floor, c.direction) != -1
    ensures var p, d := NextFloor(c.pickups, c.floor, c.direction), NextFloor(c.dropoffs, c.floor, c.direction);
            var t := Update(c, numFloors);
            && t.changed
            && t.car.floor in Pending(c)
            && Pending(t.car) == Pending(c) - {t.car.floor}
            && (p != -1 && d == -1 ==> t.car.floor == p)
            && (p == -1 && d != -1 ==> t.car.floor == d)
            && t == AddressFloor(c, t.car.floor)
  {
    NextFloorIsStored(c.pickups, c.floor, c.direction);
    NextFloorIsStored(c.dropoffs, c.floor, c.direction);
    NumRequestsCountsFloors(c);
  }

  /** The reversal branch needs a heading: a stationary car with requests
      always finds the earliest one and goes there. */
  lemma StationaryNeverReverses(c: CarState, numFloors: nat)
    requires Valid(c) && NoSentinel(c) && c.direction == 0 && NumRequests(c) > 0
    ensures var t := Update(c, numFloors);
            t.changed && t.car.floor in Pending(c) && t.car.floor !in Pending(t.car)
  {
    NumRequestsCountsFloors(c);
    if c.pickups != [] {
      NonEmptyAnswers(c.pickups, c.floor);
    } else {
      NonEmptyAnswers(c.dropoffs, c.floor);
    }
    UpdateServicesNextFloor(c, numFloors);
  }

  /** A set that has nothing ahead in one direction has something ahead in
      the other, unless it is empty. */
  lemma OtherSideAnswers(s: seq<Request>, floor: int, direction: int)
    requires Sorted(s) && s != [] && direction != 0 && -1 !in Floors(s)
    requires NextFloor(s, floor, direction) == -1
    ensures NextFloor(s, floor, -direction) != -1
  {
    assert s[0] in s;
    if direction > 0 {
      NextFloorUp(s, floor, direction);
      NextFloorDown(s, floor, -direction);
    } else {
      NextFloorDown(s, floor, direction);
      NextFloorUp(s, floor, -direction);
    }
  }

  /** Sweeps never reverse twice in a row: after a reversal the car moves
      to a pending floor and services it. */
  lemma NoDoubleReversal(c: CarState, numFloors: nat)
    requires Valid(c) && NoSentinel(c) && NumRequests(c) > 0
    requires NextFloor(c.pickups, c.floor, c.direction) == -1
    requires NextFloor(c.dropoffs, c.floor, c.direction) == -1
    ensures c.direction != 0
    ensures var c' := Update(c, numFloors).car;
            var t := Update(c', numFloors);
            t.changed && t.car.floor in Pending(c) && t.car.floor !in Pending(t.car)
  {
    NumRequestsCountsFloors(c);
    if c.direction == 0 {
      StationaryNeverReverses(c, numFloors);
      assert false;
    }
    var c' := Update(c, numFloors).car;
    assert c' == c.(direction := -c.direction);
    if c.pickups != [] {
      OtherSideAnswers(c.pickups, c.floor, c.direction);
    } else {
      OtherSideAnswers(c.dropoffs, c.floor, c.direction);
    }
    UpdateServicesNextFloor(c', numFloors);
  }

  /** Update only ever removes requests: the pending floors shrink, the
      count of requests never grows and the timestamp is untouched. */
  lemma UpdateNeverAddsRequests(c: CarState, numFloors: nat)
    requires Valid(c)
    ensures var t := Update(c, numFloors);
            && Floors(t.car.pickups) <= Floors(c.pickups)
            && Floors(t.car.dropoffs) <= Floors(c.dropoffs)
            && NumRequests(t.car) <= NumRequests(c)
            && t.car.timestamp == c.timestamp
  {
    var t := Update(c, numFloors);
    NumRequestsCountsFloors(c);
    NumRequestsCountsFloors(t.car);
    assert Floors(t.car.pickups) <= Floors(c.pickups) && Floors(t.car.dropoffs) <= Floors(c.dropoffs);
    SubsetCardinality(Floors(t.car.pickups), Floors(c.pickups));
    SubsetCardinality(Floors(t.car.dropoffs), Floors(c.dropoffs));
  }

  lemma SubsetCardinality(a: set<int>, b: set<int>)
    requires a <= b
    ensures |a| <= |b|
  {
    assert b == a + (b - a);
  }

  /** Update reports no change exactly when the car has no requests and is
      already at the home floor N/2: the idle signal. */
  lemma UpdateIdleIff(c: CarState, numFloors: nat)
    requires Valid(c)
    ensures !Update(c, numFloors).changed <==> NumRequests(c) == 0 && c.floor == numFloors / 2
    ensures !Update(c, numFloors).changed ==> Update(c, numFloors).car == c
  {
    if NumRequests(c) > 0 {
      var p := NextFloor(c.pickups, c.floor, c.direction);
      var d := NextFloor(c.dropoffs, c.floor, c.direction);
      if p != -1 || d != -1 {
        UpdateServicesNextFloor(c, numFloors);
      }
    } else {
      assert c.pickups == [] && c.dropoffs == [];
    }
  }

  /** A car without requests reaches N/2 in one step and is idle from then
      on; the direction it keeps is that of its last move. */
  lemma IdleConvergence(c: CarState, numFloors: nat)
    requires Valid(c) && NumRequests(c) == 0
    ensures var t := Update(c, numFloors);
            && t.changed == (c.floor != numFloors / 2)
            && t.car.floor == numFloors / 2
            && t.car.direction == (if t.changed then Sign(numFloors / 2 - c.floor) else c.direction)
            && NumRequests(t.car) == 0
            && Update(t.car, numFloors) == Tick(false, t.car)
  {
    assert c.pickups == [] && c.dropoffs == [];
    var t := Update(c, numFloors);
    UpdateIdleIff(c, numFloors);
    UpdateIdleIff(t.car, numFloors);
  }

  /** A new car (floor 1, direction 0, no requests, timestamp 0) runs one
      update: it moves to N/2 unless that is floor 1. */
  lemma NewCarGoesHome(numFloors: nat)
    ensures var t := Update(Initial(), numFloors);
            && t.car.floor == numFloors / 2
            && t.car.direction == Sign(numFloors / 2 - 1)
            && t.car.pickups == [] && t.car.dropoffs == [] && t.car.timestamp == 0
            && t.changed == (numFloors / 2 != 1)
  {
    IdleConvergence(Initial(), numFloors);
  }

  /** Directions stay in {-1, 0, 1}. */
  lemma DirectionStaysUnit(c: CarState, numFloors: nat)
    requires Valid(c) && -1 <= c.direction <= 1
    ensures -1 <= Update(c, numFloors).car.direction <= 1
  {
  }
}
