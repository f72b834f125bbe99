/** VirtualGuests.Dispatcher: a fleet of cars and a first-in first-out
    queue of hall calls not yet handed to a car. Every method is proved to
    act as the functions of module Assignment say. The cars are
    Carriage.Elevator objects; the prompting collaborators are replaced by
    the requests they would yield, given as parameters. */
module Dispatch {
  import opened Requests
  import Sweep
  import Carriage
  import opened Assignment

  class Dispatcher {
    /** Setting.NUM_FLOORS, shared by every car. */
    const numFloors: nat
    const elevators: seq<Carriage.Elevator>
    var requestQueue: seq<Request>

    /** The objects of all the cars. */
    ghost const carsRepr: set<object>

    ghost function Repr(): set<object> {
      {this} + carsRepr
    }

    ghost predicate Valid()
      reads carsRepr
    {
      && |elevators| > 0
      && this !in carsRepr
      && (forall i :: 0 <= i < |elevators| ==>
            && elevators[i].numFloors == numFloors
            && elevators[i].Repr() <= carsRepr
            && elevators[i].Valid())
      && (forall i, j :: 0 <= i < |elevators| && 0 <= j < |elevators| && i != j ==> Apart(i, j))
    }

    /** The cars at positions `i` and `j` share no object. */
    ghost predicate Apart(i: nat, j: nat)
      requires i < |elevators| && j < |elevators|
    {
      elevators[i].Repr() !! elevators[j].Repr()
    }

    /** The cars' states, in fleet order. */
    ghost function Fleet(): (f: seq<Sweep.CarState>)
      reads carsRepr
      requires Valid()
      ensures |f| == |elevators| && FleetValid(f)
      ensures forall i {:trigger f[i]} :: 0 <= i < |elevators| ==> f[i] == elevators[i].State()
    {
      seq(|elevators|, i reads carsRepr requires 0 <= i < |elevators| && Valid() => elevators[i].State())
    }

    /** The whole dispatcher as a value. */
    ghost function Snapshot(): (w: World)
      reads this, carsRepr
      requires Valid()
      ensures WorldValid(w)
    {
      World(Fleet(), requestQueue)
    }

    /** `new Dispatcher()` with a fleet of `fleetSize` cars, numbered from
        0, each at its home floor after its first update; the queue is
        empty. */
    constructor (numFloors: nat, fleetSize: nat)
      requires fleetSize > 0
      ensures Valid() && fresh(carsRepr)
      ensures this.numFloors == numFloors && |elevators| == fleetSize && requestQueue == []
      ensures forall i :: 0 <= i < fleetSize ==> elevators[i].id == i
      ensures forall i :: 0 <= i < fleetSize ==> Fleet()[i] == Sweep.Update(Sweep.Initial(), numFloors).car
    {
      var cars: seq<Carriage.Elevator> := [];
      ghost var repr: set<object> := {};
      for i := 0 to fleetSize
        invariant |cars| == i && fresh(repr)
        invariant forall k :: 0 <= k < i ==>
                    && cars[k].Valid() && cars[k].Repr() <= repr
                    && cars[k].id == k && cars[k].numFloors == numFloors
                    && cars[k].State() == Sweep.Update(Sweep.Initial(), numFloors).car
        invariant forall k, l :: 0 <= k < i && 0 <= l < i && k != l ==> cars[k].Repr() !! cars[l].Repr()
      {
        var e := new Carriage.Elevator(i, numFloors);
        cars := cars + [e];
        repr := repr + e.Repr();
      }
      this.numFloors := numFloors;
      elevators := cars;
      carsRepr := repr;
      requestQueue := [];
    }

    /** `e.getFloor()`, `e.getDirection()` and `e.getNumRequests()`. */
    static function ReadCar(e: Carriage.Elevator): (v: CarView)
      reads e.Repr()
      requires e.Valid()
      ensures v == View(e.State())
    {
      CarView(e.currentFloor, e.direction, e.GetNumRequests())
    }

    /** `assignPickup`: the car the running best-so-far scan ends on (see
        Assignment.AssignIsLeastEligible for which car that is). */
    method AssignPickup(r: Request) returns (best: Carriage.Elevator)
      requires Valid()
      ensures best == elevators[Assign(Views(Fleet()), r.floor)]
    {
      ghost var cars := Views(Fleet());
      best := ScanFleet(elevators, r.floor, cars);
    }

    /** The loop of assignPickup over `fleet`, whose readings `cars` holds. */
    static method ScanFleet(fleet: seq<Carriage.Elevator>, f: int, ghost cars: seq<CarView>)
      returns (best: Carriage.Elevator)
      requires |cars| == |fleet| > 0
      requires forall j :: 0 <= j < |fleet| ==> fleet[j].Valid() && cars[j] == View(fleet[j].State())
      ensures best == fleet[Assign(cars, f)]
    {
      best := fleet[0];
      var closestDist := INT_MAX;
      var bestMatchesDir := false;
      var minRequests := INT_MAX;
      ghost var bestIndex: nat := 0;
      for k := 0 to |fleet|
        invariant Scan(cars, f, k) == Choice(bestIndex, closestDist, bestMatchesDir, minRequests)
        invariant bestIndex < |fleet| && best == fleet[bestIndex]
      {
        var e := fleet[k];
        var car := ReadCar(e);
        var dist := f - car.floor;
        var unitVec := Common.UnitVector(dist);
        var matchesDir := unitVec == car.direction;
        if matchesDir || !bestMatchesDir {
          bestMatchesDir := matchesDir;
          if dist < closestDist {
            best, bestIndex := e, k;
            closestDist := dist;
            minRequests := car.numRequests;
          } else if dist == closestDist {
            if car.numRequests < minRequests {
              best, bestIndex := e, k;
              minRequests := car.numRequests;
            }
          }
        }
      }
    }

    /** `addPickup`: a hall call handed back goes to the tail of the queue;
        no car changes. */
    method AddPickup(floor: int, numGuests: int)
      requires Valid()
      modifies this
      ensures Valid()
      ensures requestQueue == old(requestQueue) + [Request(floor, -1, numGuests)]
      ensures Fleet() == old(Fleet())
    {
      requestQueue := requestQueue + [Request(floor, -1, numGuests)];
    }

    /** `e.addPickup(floor)` for the car `e` at position `b`: only that car
        changes. */
    method AdmitTo(e: Carriage.Elevator, ghost b: nat, floor: int)
      requires Valid() && b < |elevators| && elevators[b] == e
      modifies e, e.pickupReq
      ensures Valid()
      ensures Fleet() == Admit(old(Fleet()), b, floor)
    {
      ghost var before := Fleet();
      e.AddPickup(floor);
      forall j | 0 <= j < |elevators| && j != b
        ensures elevators[j].Valid() && elevators[j].State() == before[j]
      {
        assert Apart(j, b);
      }
    }

    /** One round of the drain loop at the end of `promptPickup`: the head
        of the queue goes to the car assignPickup picks, then leaves the
        queue. */
    method DrainHead()
      requires Valid() && requestQueue != []
      modifies Repr()
      ensures Valid()
      ensures requestQueue == old(requestQueue)[1..]
      ensures Fleet() == DrainOne(old(Fleet()), old(requestQueue)[0])
    {
      ghost var fleet := Fleet();
      var cur := requestQueue[0];
      var best := AssignPickup(cur);
      assert Fleet() == fleet;
      ghost var b := Assign(Views(fleet), cur.floor);
      assert best == elevators[b];
      AdmitTo(best, b, cur.floor);
      Poll();
    }

    /** `requestQueue.poll()`: drops the head of the queue; no car changes. */
    method Poll()
      requires Valid() && requestQueue != []
      modifies this
      ensures Valid()
      ensures requestQueue == old(requestQueue)[1..]
      ensures Fleet() == old(Fleet())
    {
      requestQueue := requestQueue[1..];
    }

    /** The drain loop: rounds until the queue is empty. */
    method DrainQueue()
      requires Valid()
      modifies Repr()
      ensures Valid()
      ensures requestQueue == []
      ensures Fleet() == Drain(old(Fleet()), old(requestQueue))
    {
      while requestQueue != []
        invariant Valid()
        invariant Drain(Fleet(), requestQueue) == Drain(old(Fleet()), old(requestQueue))
        decreases |requestQueue|
      {
        DrainHead();
      }
    }

    /** The last loop of `promptDropoff`: `e.addDropoff` for each drop-off,
        in order, where `e` is the car at position `k`; no other car
        changes. */
    method PromptDropoff(e: Carriage.Elevator, ghost k: nat, dropoffs: seq<Request>)
      requires Valid() && k < |elevators| && elevators[k] == e
      modifies e, e.dropoffReq
      ensures Valid()
      ensures Fleet() == old(Fleet())[k := AddDropoffs(old(Fleet())[k], dropoffs)]
    {
      ghost var start := Fleet();
      for i := 0 to |dropoffs|
        invariant e.Valid() && e.State() == AddDropoffs(start[k], dropoffs[..i])
      {
        AddDropoffsPrefix(start[k], dropoffs, i);
        e.AddDropoff(dropoffs[i].floor);
      }
      assert dropoffs[..|dropoffs|] == dropoffs;
      forall j | 0 <= j < |elevators| && j != k
        ensures elevators[j].Valid() && elevators[j].State() == start[j]
      {
        assert Apart(j, k);
      }
    }

    /** The last part of `promptPickup`: queue each new hall call as
        `Request(f, -1, num)`, then drain the queue. */
    method PromptPickup(pickups: seq<Request>)
      requires Valid()
      modifies Repr()
      ensures Valid()
      ensures requestQueue == []
      ensures Fleet() == Drain(old(Fleet()), Enqueue(old(requestQueue), pickups))
    {
      ghost var start := Fleet();
      for i := 0 to |pickups|
        invariant Valid() && Fleet() == start
        invariant requestQueue == Enqueue(old(requestQueue), pickups[..i])
      {
        EnqueuePrefix(old(requestQueue), pickups, i);
        AddPickup(pickups[i].floor, pickups[i].numGuests);
      }
      assert pickups[..|pickups|] == pickups;
      DrainQueue();
    }

    /** `e.update()` for the car `e` at position `i`: only that car changes. */
    method UpdateCar(e: Carriage.Elevator, ghost i: nat) returns (madeUpdate: bool)
      requires Valid() && i < |elevators| && elevators[i] == e
      modifies e.Repr()
      ensures Valid()
      ensures madeUpdate == Sweep.Update(old(Fleet())[i], numFloors).changed
      ensures Fleet() == old(Fleet())[i := Sweep.Update(old(Fleet())[i], numFloors).car]
    {
      ghost var before := Fleet();
      madeUpdate := e.Update();
      forall j | 0 <= j < |elevators| && j != i
        ensures elevators[j].Valid() && elevators[j].State() == before[j]
      {
        assert Apart(j, i);
      }
    }

    /** One round of `step`'s loop, for the car at position `i`. */
    method StepOne(demand: seq<Demand>, i: nat)
      requires Valid() && i < |elevators| && |demand| == |elevators|
      modifies Repr()
      ensures Valid()
      ensures Snapshot() == StepCar(old(Snapshot()), numFloors, demand, i)
    {
      ghost var w := Snapshot();
      ghost var t := Sweep.Update(w.fleet[i], numFloors);
      var e := elevators[i];
      var madeUpdate := UpdateCar(e, i);
      ghost var updated := w.fleet[i := t.car];
      assert Fleet() == updated && requestQueue == w.queue;
      if !madeUpdate {
        PromptDropoff(e, i, demand[i].dropoffs);
        ghost var dropped := updated[i := AddDropoffs(t.car, demand[i].dropoffs)];
        assert Fleet() == dropped && requestQueue == w.queue;
        PromptPickup(demand[i].pickups);
        assert Fleet() == Drain(dropped, Enqueue(w.queue, demand[i].pickups));
      }
    }

    /** `step`: each car in fleet order is updated; a car that reports no
        change receives the drop-offs `demand` names for it, then the new
        hall calls are queued and the queue is drained. */
    method Step(demand: seq<Demand>)
      requires Valid() && |demand| == |elevators|
      modifies Repr()
      ensures Valid()
      ensures Snapshot() == Assignment.Step(old(Snapshot()), numFloors, demand)
    {
      ghost var start := Snapshot();
      for i := 0 to |elevators|
        invariant Valid()
        invariant StepFrom(Snapshot(), numFloors, demand, i) == Assignment.Step(start, numFloors, demand)
      {
        ghost var w := Snapshot();
        StepOne(demand, i);
        assert StepFrom(w, numFloors, demand, i) == StepFrom(StepCar(w, numFloors, demand, i), numFloors, demand, i + 1);
      }
    }
  }
}
