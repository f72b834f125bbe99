/** The VirtualGuests dispatcher's decisions as functions: which car a hall
    call goes to (the running best-so-far scan of assignPickup), how the
    pending queue is drained, and one simulation step over the fleet. The
    Dispatcher class in module Dispatch is proved to act as these say. */
module Assignment {
  import opened Common
  import opened Requests
  import opened FloorIndex
  import Sweep

  /** What assignPickup reads of a car: getFloor, getDirection and
      getNumRequests. */
  datatype CarView = CarView(floor: int, direction: int, numRequests: int)

  /** assignPickup's running variables: `best` (as a position in the
      fleet), `closestDist`, `bestMatchesDir` and `minRequests`. */
  datatype Choice = Choice(best: nat, closestDist: int, bestMatchesDir: bool, minRequests: int)

  /** The values the variables start with: the first car, and
      Integer.MAX_VALUE for both distance and request count. */
  function Start(): Choice {
    Choice(0, INT_MAX, false, INT_MAX)
  }

  /** `unitVec == e.getDirection()` with `unitVec` the sign of `f - floor`. */
  predicate MatchesDir(car: CarView, f: int) {
    Sign(f - car.floor) == car.direction
  }

  /** One round of the loop, for the car at position `i`. The flag is
      overwritten whenever the car is considered, even if it does not
      become `best`; distance is the signed `f - floor`. */
  function Consider(ch: Choice, i: nat, car: CarView, f: int): Choice {
    var dist := f - car.floor;
    var matchesDir := MatchesDir(car, f);
    if matchesDir || !ch.bestMatchesDir then
      if dist < ch.closestDist then Choice(i, dist, matchesDir, car.numRequests)
      else if dist == ch.closestDist && car.numRequests < ch.minRequests then
        Choice(i, ch.closestDist, matchesDir, car.numRequests)
      else ch.(bestMatchesDir := matchesDir)
    else ch
  }

  /** The variables after the loop has seen the first `k` cars. */
  function Scan(cars: seq<CarView>, f: int, k: nat): (ch: Choice)
    requires k <= |cars|
    ensures ch.best < k || ch.best == 0
  {
    if k == 0 then Start() else Consider(Scan(cars, f, k - 1), k - 1, cars[k - 1], f)
  }

  /** `assignPickup`: the position of the car returned. */
  function Assign(cars: seq<CarView>, f: int): (i: nat)
    requires |cars| > 0
    ensures i < |cars|
  {
    Scan(cars, f, |cars|).best
  }

  // ---------------------------------------------------------------------
  // What the scan selects

  /** A car competes when no earlier car matches direction, or it matches
      itself: once a matching car has been seen, non-matching cars are
      skipped, while those seen before it keep their standing. */
  ghost predicate Eligible(cars: seq<CarView>, f: int, j: int)
    requires 0 <= j < |cars|
  {
    (forall i :: 0 <= i < j ==> !MatchesDir(cars[i], f)) || MatchesDir(cars[j], f)
  }

  /** (signed distance, request count) of `a` is at most that of `b`. */
  predicate NoWorse(a: CarView, b: CarView, f: int) {
    f - a.floor < f - b.floor || (f - a.floor == f - b.floor && a.numRequests <= b.numRequests)
  }

  /** ... and strictly smaller. */
  predicate Better(a: CarView, b: CarView, f: int) {
    f - a.floor < f - b.floor || (f - a.floor == f - b.floor && a.numRequests < b.numRequests)
  }

  ghost predicate ScanInvariant(cars: seq<CarView>, f: int, k: nat)
    requires 1 <= k <= |cars|
  {
    var ch := Scan(cars, f, k);
    && ch.best < k
    && Eligible(cars, f, ch.best)
    && ch.closestDist == f - cars[ch.best].floor
    && ch.minRequests == cars[ch.best].numRequests
    && (ch.bestMatchesDir <==> exists i :: 0 <= i < k && MatchesDir(cars[i], f))
    && (forall j :: 0 <= j < k && Eligible(cars, f, j) ==> NoWorse(cars[ch.best], cars[j], f))
    && (forall j :: 0 <= j < ch.best && Eligible(cars, f, j) ==> Better(cars[ch.best], cars[j], f))
  }

  lemma {:induction false} ScanInvariantHolds(cars: seq<CarView>, f: int, k: nat)
    requires 1 <= k <= |cars|
    requires f - cars[0].floor < INT_MAX
    ensures ScanInvariant(cars, f, k)
  {
    if k > 1 {
      ScanInvariantHolds(cars, f, k - 1);
      var ch := Scan(cars, f, k - 1);
      var car := cars[k - 1];
      if !MatchesDir(car, f) && ch.bestMatchesDir {
        assert !Eligible(cars, f, k - 1);
      } else {
        assert Eligible(cars, f, k - 1);
      }
    }
  }

  /** What assignPickup returns, stated without its loop: among the
      eligible cars, the one with the smallest signed distance `f - floor`,
      then the fewest requests, and the earliest in fleet order on a full
      tie. (Integer.MAX_VALUE, the initial distance, competes only with the
      first car, whose distance is assumed below it.) */
  lemma AssignIsLeastEligible(cars: seq<CarView>, f: int)
    requires |cars| > 0 && f - cars[0].floor < INT_MAX
    ensures var b := Assign(cars, f);
            && Eligible(cars, f, b)
            && (forall j :: 0 <= j < |cars| && Eligible(cars, f, j) ==> NoWorse(cars[b], cars[j], f))
            && (forall j :: 0 <= j < b && Eligible(cars, f, j) ==> Better(cars[b], cars[j], f))
  {
    ScanInvariantHolds(cars, f, |cars|);
  }

  /** The first car always becomes the initial `best`. */
  lemma FirstCarIsInitialBest(cars: seq<CarView>, f: int)
    requires |cars| > 0 && f - cars[0].floor < INT_MAX
    ensures Scan(cars, f, 1) == Choice(0, f - cars[0].floor, MatchesDir(cars[0], f), cars[0].numRequests)
  {
  }

  /** A stationary car matches direction only when it is already on the
      target floor. */
  lemma StationaryMatchesOnlyAtTarget(car: CarView, f: int)
    requires car.direction == 0
    ensures MatchesDir(car, f) <==> car.floor == f
  {
  }

  /** Once the flag is up, every car that later becomes `best` matches
      direction. */
  lemma {:induction false} FlagKeepsNonMatchingOut(cars: seq<CarView>, f: int, k: nat, m: nat)
    requires 1 <= k <= m <= |cars|
    requires Scan(cars, f, k).bestMatchesDir
    ensures Scan(cars, f, m).bestMatchesDir
    ensures var b := Scan(cars, f, m).best;
            b == Scan(cars, f, k).best || (k <= b < m && MatchesDir(cars[b], f))
  {
    if m > k {
      FlagKeepsNonMatchingOut(cars, f, k, m - 1);
    }
  }

  /** Because the distance is signed, an eligible car above the target
      always beats every eligible car below it: the chosen car is above the
      target whenever some eligible car is. */
  lemma AboveBeatsBelow(cars: seq<CarView>, f: int, j: nat)
    requires j < |cars| && f - cars[0].floor < INT_MAX
    requires Eligible(cars, f, j) && cars[j].floor > f
    ensures cars[Assign(cars, f)].floor > f
  {
    AssignIsLeastEligible(cars, f);
  }

  /** A car one floor below the call, heading to it, loses to a car
      fifteen floors above heading down. */
  lemma SignedDistanceExample()
    ensures Assign([CarView(9, 1, 0), CarView(25, -1, 0)], 10) == 1
  {
    var cars := [CarView(9, 1, 0), CarView(25, -1, 0)];
    assert Scan(cars, 10, 1) == Choice(0, 1, true, 0);
  }

  /** The flag can go up without `best` changing: the second car matches
      direction, but the first, which does not, is returned. */
  lemma MatchingCarIgnoredExample()
    ensures var cars := [CarView(20, 0, 0), CarView(10, 1, 0)];
            && MatchesDir(cars[1], 15) && !MatchesDir(cars[0], 15)
            && Assign(cars, 15) == 0
  {
    var cars := [CarView(20, 0, 0), CarView(10, 1, 0)];
    assert Scan(cars, 15, 1) == Choice(0, -5, false, 0);
  }

  /** Same direction and distance: fewer outstanding requests wins. */
  lemma FewerRequestsWinsTie()
    ensures Assign([CarView(10, 1, 3), CarView(10, 1, 1)], 15) == 1
  {
    var cars := [CarView(10, 1, 3), CarView(10, 1, 1)];
    assert Scan(cars, 15, 1) == Choice(0, 5, true, 3);
  }

  // ---------------------------------------------------------------------
  // The pending queue and the fleet step

  function View(c: Sweep.CarState): CarView {
    CarView(c.floor, c.direction, Sweep.NumRequests(c))
  }

  function Views(fleet: seq<Sweep.CarState>): (v: seq<CarView>)
    ensures |v| == |fleet|
    ensures forall i {:trigger v[i]} :: 0 <= i < |fleet| ==> v[i] == View(fleet[i])
  {
    if fleet == [] then [] else [View(fleet[0])] + Views(fleet[1..])
  }

  ghost predicate FleetValid(fleet: seq<Sweep.CarState>) {
    forall i :: 0 <= i < |fleet| ==> Sweep.Valid(fleet[i])
  }

  /** `best.addPickup(cur.floor, ...)` for the car at position `b`. */
  function Admit(fleet: seq<Sweep.CarState>, b: nat, floor: int): (r: seq<Sweep.CarState>)
    requires b < |fleet| && FleetValid(fleet)
    ensures |r| == |fleet| && FleetValid(r)
    ensures r[b] == Sweep.AddPickup(fleet[b], floor)
    ensures forall j :: 0 <= j < |r| && j != b ==> r[j] == fleet[j]
  {
    fleet[b := Sweep.AddPickup(fleet[b], floor)]
  }

  /** One round of the drain loop: `x` goes to the car assignPickup picks
      in `fleet`. */
  function DrainOne(fleet: seq<Sweep.CarState>, x: Request): (r: seq<Sweep.CarState>)
    requires |fleet| > 0 && FleetValid(fleet)
    ensures |r| == |fleet| && FleetValid(r)
  {
    Admit(fleet, Assign(Views(fleet), x.floor), x.floor)
  }

  /** The drain loop: queued requests go, head first, each to the car
      assignPickup picks at that moment, until the queue is empty. */
  function Drain(fleet: seq<Sweep.CarState>, queue: seq<Request>): (r: seq<Sweep.CarState>)
    requires |fleet| > 0 && FleetValid(fleet)
    ensures |r| == |fleet| && FleetValid(r)
    decreases |queue|
  {
    if queue == [] then fleet else Drain(DrainOne(fleet, queue[0]), queue[1..])
  }

  /** The queue is first-in first-out: draining `q1 + q2` is draining `q1`,
      then `q2`. */
  lemma {:induction false} DrainFifo(fleet: seq<Sweep.CarState>, q1: seq<Request>, q2: seq<Request>)
    requires |fleet| > 0 && FleetValid(fleet)
    ensures Drain(fleet, q1 + q2) == Drain(Drain(fleet, q1), q2)
    decreases |q1|
  {
    if q1 != [] {
      var fleet' := DrainOne(fleet, q1[0]);
      assert (q1 + q2)[0] == q1[0];
      assert (q1 + q2)[1..] == q1[1..] + q2;
      assert Drain(fleet, q1 + q2) == Drain(fleet', q1[1..] + q2);
      assert Drain(fleet, q1) == Drain(fleet', q1[1..]);
      DrainFifo(fleet', q1[1..], q2);
    } else {
      assert q1 + q2 == q2;
    }
  }

  /** Each car of `after` has the floor, direction and drop-offs of the
      car at the same position in `before`, and at least its pick-up
      floors. */
  ghost predicate OnlyAddsPickups(before: seq<Sweep.CarState>, after: seq<Sweep.CarState>) {
    && |after| == |before|
    && forall j :: 0 <= j < |after| ==>
         && Floors(before[j].pickups) <= Floors(after[j].pickups)
         && after[j].floor == before[j].floor
         && after[j].direction == before[j].direction
         && after[j].dropoffs == before[j].dropoffs
  }

  lemma DrainOneKeeps(fleet: seq<Sweep.CarState>, x: Request)
    requires |fleet| > 0 && FleetValid(fleet)
    ensures OnlyAddsPickups(fleet, DrainOne(fleet, x))
  {
    var b := Assign(Views(fleet), x.floor);
    var r := DrainOne(fleet, x);
    assert r == fleet[b := Sweep.AddPickup(fleet[b], x.floor)];
    forall j | 0 <= j < |r|
      ensures Floors(fleet[j].pickups) <= Floors(r[j].pickups)
    {
    }
  }

  /** Draining only adds pick-ups: each car keeps its floor, direction,
      drop-offs and pending pick-up floors. */
  lemma {:induction false} DrainKeeps(fleet: seq<Sweep.CarState>, queue: seq<Request>)
    requires |fleet| > 0 && FleetValid(fleet)
    ensures OnlyAddsPickups(fleet, Drain(fleet, queue))
    decreases |queue|
  {
    if queue != [] {
      var fleet' := DrainOne(fleet, queue[0]);
      DrainOneKeeps(fleet, queue[0]);
      DrainKeeps(fleet', queue[1..]);
      assert Drain(fleet, queue) == Drain(fleet', queue[1..]);
    }
  }

  /** Some car of the fleet has `floor` among its pending pick-ups. */
  ghost predicate PickedUpBySome(fleet: seq<Sweep.CarState>, floor: int) {
    exists j :: 0 <= j < |fleet| && floor in Floors(fleet[j].pickups)
  }

  /** Draining loses no hall call: afterwards each queued floor is pending
      as a pick-up of some car. */
  lemma {:induction false} DrainDelivers(fleet: seq<Sweep.CarState>, queue: seq<Request>)
    requires |fleet| > 0 && FleetValid(fleet)
    ensures forall x :: x in queue ==> PickedUpBySome(Drain(fleet, queue), x.floor)
    decreases |queue|
  {
    if queue != [] {
      var b := Assign(Views(fleet), queue[0].floor);
      var fleet' := DrainOne(fleet, queue[0]);
      var r := Drain(fleet', queue[1..]);
      assert Drain(fleet, queue) == r;
      DrainDelivers(fleet', queue[1..]);
      DrainKeeps(fleet', queue[1..]);
      assert queue[0].floor in Floors(fleet'[b].pickups);
      assert queue[0].floor in Floors(r[b].pickups);
      assert PickedUpBySome(r, queue[0].floor);
      forall x | x in queue
        ensures PickedUpBySome(r, x.floor)
      {
        if x != queue[0] {
          assert x in queue[1..];
        }
      }
    }
  }

  /** `requestQueue.add(new Request(f, -1, num))` for each incoming hall call. */
  function Enqueue(queue: seq<Request>, pickups: seq<Request>): (q: seq<Request>)
    ensures |q| == |queue| + |pickups|
    ensures q[..|queue|] == queue
    ensures forall i :: 0 <= i < |pickups| ==>
              q[|queue| + i] == Request(pickups[i].floor, -1, pickups[i].numGuests)
    decreases |pickups|
  {
    if pickups == [] then queue
    else Enqueue(queue + [Request(pickups[0].floor, -1, pickups[0].numGuests)], pickups[1..])
  }

  /** Enqueueing one more hall call of a prefix appends it at the tail. */
  lemma EnqueuePrefix(queue: seq<Request>, pickups: seq<Request>, i: nat)
    requires i < |pickups|
    ensures Enqueue(queue, pickups[..i + 1])
         == Enqueue(queue, pickups[..i]) + [Request(pickups[i].floor, -1, pickups[i].numGuests)]
  {
    var a := Enqueue(queue, pickups[..i + 1]);
    var b := Enqueue(queue, pickups[..i]) + [Request(pickups[i].floor, -1, pickups[i].numGuests)];
    assert |a| == |b|;
    forall j | 0 <= j < |a| ensures a[j] == b[j] {
      if j < |queue| {
        assert a[..|queue|][j] == b[..|queue|][j];
      } else {
        var m := j - |queue|;
        assert a[|queue| + m] == Request(pickups[m].floor, -1, pickups[m].numGuests);
        if m < i {
          assert b[j] == Enqueue(queue, pickups[..i])[|queue| + m];
        }
      }
    }
  }

  /** `e.addDropoff(f, num)` for each drop-off, in order. */
  function AddDropoffs(c: Sweep.CarState, dropoffs: seq<Request>): (r: Sweep.CarState)
    requires Sweep.Valid(c)
    ensures Sweep.Valid(r)
    ensures r.floor == c.floor && r.direction == c.direction && r.pickups == c.pickups
    ensures r.timestamp == c.timestamp + |dropoffs|
    ensures Floors(r.dropoffs) == Floors(c.dropoffs) + Floors(dropoffs)
    decreases |dropoffs|
  {
    if dropoffs == [] then c
    else
      var r := AddDropoffs(Sweep.AddDropoff(c, dropoffs[0].floor), dropoffs[1..]);
      FloorsCons(dropoffs[0], dropoffs[1..]);
      assert dropoffs == [dropoffs[0]] + dropoffs[1..];
      r
  }

  /** Adding drop-offs one at a time, from the front. */
  lemma {:induction false} AddDropoffsSnoc(c: Sweep.CarState, dropoffs: seq<Request>, x: Request)
    requires Sweep.Valid(c)
    ensures AddDropoffs(c, dropoffs + [x]) == Sweep.AddDropoff(AddDropoffs(c, dropoffs), x.floor)
    decreases |dropoffs|
  {
    if dropoffs == [] {
      assert [x][1..] == [];
    } else {
      assert (dropoffs + [x])[0] == dropoffs[0];
      assert (dropoffs + [x])[1..] == dropoffs[1..] + [x];
      AddDropoffsSnoc(Sweep.AddDropoff(c, dropoffs[0].floor), dropoffs[1..], x);
    }
  }

  /** AddDropoffs over one more element of a prefix. */
  lemma AddDropoffsPrefix(c: Sweep.CarState, dropoffs: seq<Request>, i: nat)
    requires Sweep.Valid(c) && i < |dropoffs|
    ensures AddDropoffs(c, dropoffs[..i + 1])
         == Sweep.AddDropoff(AddDropoffs(c, dropoffs[..i]), dropoffs[i].floor)
  {
    assert dropoffs[..i + 1] == dropoffs[..i] + [dropoffs[i]];
    AddDropoffsSnoc(c, dropoffs[..i], dropoffs[i]);
  }

  /** What the prompting collaborators yield for one idle car: drop-offs
      for that car, and new hall calls. */
  datatype Demand = Demand(dropoffs: seq<Request>, pickups: seq<Request>)

  datatype World = World(fleet: seq<Sweep.CarState>, queue: seq<Request>)

  ghost predicate WorldValid(w: World) {
    |w.fleet| > 0 && FleetValid(w.fleet)
  }

  /** `step`'s treatment of the car at position `i`: update it; if it
      reports no change, give it its drop-offs, queue the new hall calls
      and drain the queue. */
  function StepCar(w: World, numFloors: nat, demand: seq<Demand>, i: nat): (r: World)
    requires WorldValid(w) && i < |w.fleet| && |demand| == |w.fleet|
    ensures WorldValid(r) && |r.fleet| == |w.fleet|
  {
    var t := Sweep.Update(w.fleet[i], numFloors);
    var fleet := w.fleet[i := t.car];
    if t.changed then World(fleet, w.queue)
    else
      var fleet' := fleet[i := AddDropoffs(t.car, demand[i].dropoffs)];
      World(Drain(fleet', Enqueue(w.queue, demand[i].pickups)), [])
  }

  /** `step` from the car at position `i` on, in fleet order. */
  function StepFrom(w: World, numFloors: nat, demand: seq<Demand>, i: nat): (r: World)
    requires WorldValid(w) && i <= |w.fleet| && |demand| == |w.fleet|
    ensures WorldValid(r) && |r.fleet| == |w.fleet|
    decreases |w.fleet| - i
  {
    if i == |w.fleet| then w
    else StepFrom(StepCar(w, numFloors, demand, i), numFloors, demand, i + 1)
  }

  function Step(w: World, numFloors: nat, demand: seq<Demand>): World
    requires WorldValid(w) && |demand| == |w.fleet|
  {
    StepFrom(w, numFloors, demand, 0)
  }

  /** Every car from position `i` on reports a change when updated. */
  ghost predicate BusyFrom(fleet: seq<Sweep.CarState>, numFloors: nat, i: nat) {
    forall j :: i <= j < |fleet| ==> Sweep.Valid(fleet[j]) && Sweep.Update(fleet[j], numFloors).changed
  }

  /** `after` is `before` with every car from position `i` on updated once. */
  ghost predicate UpdatedFrom(before: seq<Sweep.CarState>, after: seq<Sweep.CarState>, numFloors: nat, i: nat)
    requires i <= |before| && FleetValid(before)
  {
    && |after| == |before|
    && after[..i] == before[..i]
    && forall j :: i <= j < |before| ==> after[j] == Sweep.Update(before[j], numFloors).car
  }

  /** When no car goes idle, a step updates each car once, in fleet order,
      and leaves the queue alone. */
  lemma {:induction false} BusyStep(w: World, numFloors: nat, demand: seq<Demand>, i: nat)
    requires WorldValid(w) && i <= |w.fleet| && |demand| == |w.fleet|
    requires BusyFrom(w.fleet, numFloors, i)
    ensures StepFrom(w, numFloors, demand, i).queue == w.queue
    ensures UpdatedFrom(w.fleet, StepFrom(w, numFloors, demand, i).fleet, numFloors, i)
    decreases |w.fleet| - i
  {
    if i < |w.fleet| {
      var t := Sweep.Update(w.fleet[i], numFloors);
      var w' := World(w.fleet[i := t.car], w.queue);
      assert StepCar(w, numFloors, demand, i) == w';
      assert BusyFrom(w'.fleet, numFloors, i + 1) by {
        forall j | i + 1 <= j < |w.fleet| ensures w'.fleet[j] == w.fleet[j] { }
      }
      BusyStep(w', numFloors, demand, i + 1);
      assert StepFrom(w, numFloors, demand, i) == StepFrom(w', numFloors, demand, i + 1);
      UpdatedFromStep(w.fleet, w'.fleet, StepFrom(w', numFloors, demand, i + 1).fleet, numFloors, i);
    }
  }

  /** Updating car `i` and then every car after it updates every car from
      `i` on. */
  lemma UpdatedFromStep(before: seq<Sweep.CarState>, mid: seq<Sweep.CarState>, after: seq<Sweep.CarState>,
                        numFloors: nat, i: nat)
    requires i < |before| && FleetValid(before) && FleetValid(mid)
    requires mid == before[i := Sweep.Update(before[i], numFloors).car]
    requires UpdatedFrom(mid, after, numFloors, i + 1)
    ensures UpdatedFrom(before, after, numFloors, i)
  {
    assert after[i] == after[..i + 1][i] == mid[..i + 1][i];
    assert after[..i] == after[..i + 1][..i];
    assert mid[..i] == before[..i];
  }

  /** A step ends with the queue as it was or empty, and empty whenever a
      car went idle: every idle car's prompt drains the whole queue. */
  lemma {:induction false} StepQueue(w: World, numFloors: nat, demand: seq<Demand>, i: nat)
    requires WorldValid(w) && i <= |w.fleet| && |demand| == |w.fleet|
    ensures var r := StepFrom(w, numFloors, demand, i);
            r.queue == w.queue || r.queue == []
    ensures i < |w.fleet| && !Sweep.Update(w.fleet[i], numFloors).changed
            ==> StepFrom(w, numFloors, demand, i).queue == []
    decreases |w.fleet| - i
  {
    if i < |w.fleet| {
      var w' := StepCar(w, numFloors, demand, i);
      assert StepFrom(w, numFloors, demand, i) == StepFrom(w', numFloors, demand, i + 1);
      StepCarQueue(w, numFloors, demand, i);
      StepQueue(w', numFloors, demand, i + 1);
    }
  }

  /** One car's round leaves the queue alone when the car is busy and
      empties it when the car goes idle. */
  lemma StepCarQueue(w: World, numFloors: nat, demand: seq<Demand>, i: nat)
    requires WorldValid(w) && i < |w.fleet| && |demand| == |w.fleet|
    ensures var r := StepCar(w, numFloors, demand, i);
            if Sweep.Update(w.fleet[i], numFloors).changed then r.queue == w.queue else r.queue == []
  {
  }
}
