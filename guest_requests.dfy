/** VirtualGuests.RequestHandler: the requests of one kind (pick-ups or
    drop-offs) pending for one car, kept in a set ordered by floor. */
module GuestRequests {
  import opened Common
  import opened Requests
  import opened FloorIndex

  class RequestHandler {
    /** The TreeSet, in its iteration order. */
    var req: seq<Request>

    ghost predicate Valid()
      reads this
    {
      Sorted(req)
    }

    /** A handler starts with no requests. */
    constructor ()
      ensures Valid() && req == []
    {
      req := [];
    }

    /** `addRequest`: a request for a floor that is already pending is not
        stored; the pending one keeps its timestamp and guest count. */
    method AddRequest(floor: int, timestamp: int, numGuests: int)
      requires Valid()
      modifies this
      ensures Valid()
      ensures req == Insert(old(req), Request(floor, timestamp, numGuests))
      ensures Floors(req) == Floors(old(req)) + {floor}
      ensures floor in Floors(old(req)) ==> req == old(req)
      ensures floor !in Floors(old(req)) ==>
                multiset(req) == multiset(old(req)) + multiset{Request(floor, timestamp, numGuests)}
    {
      InsertSpec(req, Request(floor, timestamp, numGuests));
      req := Insert(req, Request(floor, timestamp, numGuests));
    }

    /** `getRequest`: the pending request for `floor`, or null. */
    function GetRequest(floor: int): (r: Option<Request>)
      reads this
      requires Valid()
      ensures r.Some? <==> floor in Floors(req)
      ensures r.Some? ==> r.value in req && r.value.floor == floor
    {
      match FloorEntry(req, floor)
      case None => None
      case Some(x) => if x.floor == floor then Some(x) else None
    }

    /** `completeRequest`: removes the request for `floor` and reports
        whether there was one; every other request stays as it was. */
    method CompleteRequest(floor: int) returns (found: bool)
      requires Valid()
      modifies this
      ensures Valid()
      ensures found <==> floor in Floors(old(req))
      ensures req == Remove(old(req), floor)
      ensures Floors(req) == Floors(old(req)) - {floor}
      ensures forall x :: x in req <==> x in old(req) && x.floor != floor
    {
      found := floor in set x | x in req :: x.floor;
      req := Remove(req, floor);
    }

    /** `getNextFloor`: see FloorIndex.NextFloorUp, NextFloorDown and
        NextFloorStationary for what the answer means. */
    method GetNextFloor(currentFloor: int, direction: int) returns (next: int)
      requires Valid()
      ensures next == NextFloor(req, currentFloor, direction)
      ensures next != -1 ==> next in Floors(req)
    {
      NextFloorIsStored(req, currentFloor, direction);
      if direction < 0 {
        var e := FloorEntry(req, currentFloor);
        if e == None {
          return -1;
        }
        return e.value.floor;
      } else if direction > 0 {
        var e := CeilingEntry(req, currentFloor);
        if e == None {
          return -1;
        }
        return e.value.floor;
      } else {
        next := ScanEarliest(req);
      }
    }

    /** `isEmpty`. */
    function IsEmpty(): (b: bool)
      reads this
      requires Valid()
      ensures b <==> Floors(req) == {}
    {
      if req == [] then true else assert req[0].floor in Floors(req); false
    }

    /** `getSize`: the number of floors with a pending request. */
    function GetSize(): (n: nat)
      reads this
      requires Valid()
      ensures n == |Floors(req)|
    {
      SizeIsFloorCount(req);
      |req|
    }
  }
}
