/** MultipleCarriages.RequestHandler: the same floor-ordered set, whose
    private Request class holds only a floor and a timestamp. Its requests
    are represented by Requests.Request with a guest count of 0, which
    nothing in this package reads. */
module CarriageRequests {
  import opened Common
  import opened Requests
  import opened FloorIndex

  /** `new Request(floor, timestamp)` of the private inner class. */
  function CarriageRequest(floor: int, timestamp: int): Request {
    Request(floor, timestamp, 0)
  }

  class RequestHandler {
    var req: seq<Request>

    ghost predicate Valid()
      reads this
    {
      && Sorted(req)
      && forall x :: x in req ==> x.numGuests == 0
    }

    constructor ()
      ensures Valid() && req == []
    {
      req := [];
    }

    /** `addRequest`: a no-op when `floor` is already pending, since the
        inner Request compares by floor only. */
    method AddRequest(floor: int, timestamp: int)
      requires Valid()
      modifies this
      ensures Valid()
      ensures req == Insert(old(req), CarriageRequest(floor, timestamp))
      ensures Floors(req) == Floors(old(req)) + {floor}
      ensures floor in Floors(old(req)) ==> req == old(req)
      ensures floor !in Floors(old(req)) ==>
                multiset(req) == multiset(old(req)) + multiset{CarriageRequest(floor, timestamp)}
    {
      var r := CarriageRequest(floor, timestamp);
      InsertSpec(req, r);
      req := Insert(req, r);
      forall x | x in req ensures x.numGuests == 0 {
        assert x in multiset(req);
      }
    }

    /** `completeRequest`: removes `floor` only, and says whether it was pending. */
    method CompleteRequest(floor: int) returns (found: bool)
      requires Valid()
      modifies this
      ensures Valid()
      ensures found <==> floor in Floors(old(req))
      ensures req == Remove(old(req), floor)
      ensures Floors(req) == Floors(old(req)) - {floor}
      ensures forall x :: x in req <==> x in old(req) && x.floor != floor
    {
      found := floor in set x | x in req :: x.floor;
      req := Remove(req, floor);
    }

    /** `getNextFloor`, as in the VirtualGuests handler. */
    method GetNextFloor(currentFloor: int, direction: int) returns (next: int)
      requires Valid()
      ensures next == NextFloor(req, currentFloor, direction)
      ensures next != -1 ==> next in Floors(req)
    {
      NextFloorIsStored(req, currentFloor, direction);
      if direction < 0 {
        var e := FloorEntry(req, currentFloor);
        if e == None {
          return -1;
        }
        return e.value.floor;
      } else if direction > 0 {
        var e := CeilingEntry(req, currentFloor);
        if e == None {
          return -1;
        }
        return e.value.floor;
      } else {
        next := ScanEarliest(req);
      }
    }

    /** `isEmpty`. */
    function IsEmpty(): (b: bool)
      reads this
      requires Valid()
      ensures b <==> Floors(req) == {}
    {
      if req == [] then true else assert req[0].floor in Floors(req); false
    }

    /** The size that Elevator.getNumRequests asks for (the method is not
        defined in this package's handler): the set's cardinality. */
    function GetSize(): (n: nat)
      reads this
      requires Valid()
      ensures n == |Floors(req)|
    {
      SizeIsFloorCount(req);
      |req|
    }
  }
}
