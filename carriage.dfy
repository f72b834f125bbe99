/** MultipleCarriages.Elevator: a car that moves instantly between floors,
    holding a pick-up set and a drop-off set. Every method is proved to
    change the car's fields exactly as the functions of module Sweep say,
    where the properties of the sweep are proved. */
module Carriage {
  import opened Common
  import opened FloorIndex
  import opened CarriageRequests
  import Sweep

  class Elevator {
    const id: int
    /** Setting.NUM_FLOORS, the building's height N; N/2 is the home floor. */
    const numFloors: nat
    var currentFloor: int
    var direction: int
    const pickupReq: RequestHandler
    const dropoffReq: RequestHandler
    var timestamp: int

    ghost function Repr(): set<object> {
      {this, pickupReq, dropoffReq}
    }

    ghost predicate Valid()
      reads Repr()
    {
      && pickupReq != dropoffReq
      && pickupReq.Valid()
      && dropoffReq.Valid()
    }

    /** The car's fields as a Sweep.CarState value. */
    ghost function State(): (c: Sweep.CarState)
      reads Repr()
      requires Valid()
      ensures Sweep.Valid(c)
    {
      Sweep.CarState(currentFloor, direction, pickupReq.req, dropoffReq.req, timestamp)
    }

    /** `new Elevator(id)`: floor 1, direction 0, no requests, timestamp 0,
        followed by one update (which sends the car to N/2). */
    constructor (id: int, numFloors: nat)
      ensures Valid() && fresh(Repr())
      ensures this.id == id && this.numFloors == numFloors
      ensures State() == Sweep.Update(Sweep.Initial(), numFloors).car
    {
      this.id := id;
      this.numFloors := numFloors;
      currentFloor := 1;
      direction := 0;
      pickupReq := new RequestHandler();
      dropoffReq := new RequestHandler();
      timestamp := 0;
      new;
      var _ := Update();
    }

    /** `addPickup`: insert with the current timestamp, then advance it. */
    method AddPickup(floor: int)
      requires Valid()
      modifies this, pickupReq
      ensures Valid()
      ensures State() == Sweep.AddPickup(old(State()), floor)
    {
      pickupReq.AddRequest(floor, timestamp);
      timestamp := timestamp + 1;
    }

    /** `addDropoff`: the same for the drop-off set. */
    method AddDropoff(floor: int)
      requires Valid()
      modifies this, dropoffReq
      ensures Valid()
      ensures State() == Sweep.AddDropoff(old(State()), floor)
    {
      dropoffReq.AddRequest(floor, timestamp);
      timestamp := timestamp + 1;
    }

    /** `completePickup` (its console message is not modelled). */
    method CompletePickup(floor: int)
      requires Valid()
      modifies pickupReq
      ensures Valid()
      ensures pickupReq.req == Remove(old(pickupReq.req), floor)
    {
      var _ := pickupReq.CompleteRequest(floor);
    }

    /** `completeDropoff` (its console message is not modelled). */
    method CompleteDropoff(floor: int)
      requires Valid()
      modifies dropoffReq
      ensures Valid()
      ensures dropoffReq.req == Remove(old(dropoffReq.req), floor)
    {
      var _ := dropoffReq.CompleteRequest(floor);
    }

    /** `getNumRequests`: the sizes of both sets added. */
    function GetNumRequests(): (n: nat)
      reads Repr()
      requires Valid()
      ensures n == |Floors(pickupReq.req)| + |Floors(dropoffReq.req)|
      ensures n == Sweep.NumRequests(State())
    {
      Sweep.NumRequestsCountsFloors(State());
      pickupReq.GetSize() + dropoffReq.GetSize()
    }

    /** `addressFloor` (the pause between moves is not modelled). */
    method AddressFloor(floor: int) returns (changed: bool)
      requires Valid()
      modifies Repr()
      ensures Valid()
      ensures Sweep.Tick(changed, State()) == Sweep.AddressFloor(old(State()), floor)
    {
      if floor == currentFloor {
        if GetNumRequests() == 0 {
          return false;
        }
      }
      CompletePickup(floor);
      CompleteDropoff(floor);
      var delta := floor - currentFloor;
      currentFloor := floor;
      direction := UnitVector(delta);
      return true;
    }

    /** `update`: one step of the sweep state machine. */
    method Update() returns (changed: bool)
      requires Valid()
      modifies Repr()
      ensures Valid()
      ensures Sweep.Tick(changed, State()) == Sweep.Update(old(State()), numFloors)
    {
      var nextPickup := pickupReq.GetNextFloor(currentFloor, direction);
      var nextDropoff := dropoffReq.GetNextFloor(currentFloor, direction);
      var distPickup := Abs(currentFloor - nextPickup);
      var distDropoff := Abs(currentFloor - nextDropoff);

      if nextPickup != -1 && nextDropoff != -1 {
        if distPickup < distDropoff {
          changed := AddressFloor(nextPickup);
        } else {
          changed := AddressFloor(nextDropoff);
        }
      } else if nextPickup != -1 {
        changed := AddressFloor(nextPickup);
      } else if nextDropoff != -1 {
        changed := AddressFloor(nextDropoff);
      } else {
        if GetNumRequests() == 0 {
          changed := AddressFloor(numFloors / 2);
        } else {
          direction := -direction;
          changed := true;
        }
      }
    }
  }
}
