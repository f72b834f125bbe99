/** The floor-ordered request set both RequestHandler classes keep: a
    TreeSet<Request> whose comparator looks at the floor only. It is modelled
    as a sequence of requests with strictly ascending floors, which is the
    TreeSet's iteration order and holds at most one request per floor.
    Integer order on floors stands for compareTo: the two agree for floors
    whose differences fit in 32 bits (Requests.CompareSignIsFloorOrder). */
module FloorIndex {
  import opened Common
  import opened Requests

  /** Strictly ascending floors: sorted, one request per floor. */
  ghost predicate Sorted(s: seq<Request>) {
    forall i, j :: 0 <= i < j < |s| ==> s[i].floor < s[j].floor
  }

  /** The floors that have a request. */
  ghost function Floors(s: seq<Request>): set<int> {
    set x | x in s :: x.floor
  }

  /** `req.add(r)`: a request for a floor already in the set is not added
      (the set already holds an element comparing equal), so the stored
      request keeps its timestamp and guest count. */
  function Insert(s: seq<Request>, r: Request): seq<Request> {
    if s == [] then [r]
    else if r.floor < s[0].floor then [r] + s
    else if r.floor == s[0].floor then s
    else [s[0]] + Insert(s[1..], r)
  }

  /** Insert keeps the set sorted and adds `r` exactly when its floor is new. */
  lemma {:induction false} InsertSpec(s: seq<Request>, r: Request)
    requires Sorted(s)
    ensures Sorted(Insert(s, r))
    ensures Floors(Insert(s, r)) == Floors(s) + {r.floor}
    ensures r.floor in Floors(s) ==> Insert(s, r) == s
    ensures r.floor !in Floors(s) ==> multiset(Insert(s, r)) == multiset(s) + multiset{r}
  {
    if s == [] {
      FloorsCons(r, []);
    } else if r.floor < s[0].floor {
      InsertFront(r, s);
    } else if r.floor == s[0].floor {
      InsertPresentHead(s, r);
    } else {
      InsertSpec(s[1..], r);
      InsertLater(s, r);
    }
  }

  lemma InsertPresentHead(s: seq<Request>, r: Request)
    requires s != [] && r.floor == s[0].floor
    ensures Insert(s, r) == s && r.floor in Floors(s)
  {
    assert s[0] in s;
  }

  lemma InsertLater(s: seq<Request>, r: Request)
    requires Sorted(s) && s != [] && r.floor > s[0].floor
    requires Sorted(Insert(s[1..], r))
    requires Floors(Insert(s[1..], r)) == Floors(s[1..]) + {r.floor}
    requires r.floor in Floors(s[1..]) ==> Insert(s[1..], r) == s[1..]
    requires r.floor !in Floors(s[1..]) ==> multiset(Insert(s[1..], r)) == multiset(s[1..]) + multiset{r}
    ensures Sorted(Insert(s, r))
    ensures Floors(Insert(s, r)) == Floors(s) + {r.floor}
    ensures r.floor in Floors(s) ==> Insert(s, r) == s
    ensures r.floor !in Floors(s) ==> multiset(Insert(s, r)) == multiset(s) + multiset{r}
  {
    assert s == [s[0]] + s[1..];
    InsertBehind(s[0], s[1..], r, Insert(s[1..], r));
  }

  lemma InsertFront(r: Request, s: seq<Request>)
    requires Sorted(s) && s != [] && r.floor < s[0].floor
    ensures Sorted([r] + s)
    ensures Floors([r] + s) == Floors(s) + {r.floor} && r.floor !in Floors(s)
  {
    FloorsCons(r, s);
    forall y | y in s ensures r.floor < y.floor {
      var j :| 0 <= j < |s| && s[j] == y;
      assert j == 0 || s[0].floor < s[j].floor;
    }
    SortedCons(r, s);
  }

  lemma InsertBehind(x: Request, s: seq<Request>, r: Request, t: seq<Request>)
    requires Sorted([x] + s) && x.floor < r.floor
    requires Sorted(t) && Floors(t) == Floors(s) + {r.floor}
    requires r.floor in Floors(s) ==> t == s
    requires r.floor !in Floors(s) ==> multiset(t) == multiset(s) + multiset{r}
    ensures Sorted([x] + t)
    ensures Floors([x] + t) == Floors([x] + s) + {r.floor}
    ensures r.floor in Floors([x] + s) ==> [x] + t == [x] + s
    ensures r.floor !in Floors([x] + s) ==> multiset([x] + t) == multiset([x] + s) + multiset{r}
  {
    SortedCons(x, s);
    FloorsCons(x, s);
    FloorsCons(x, t);
    forall y | y in t ensures x.floor < y.floor {
      assert y.floor in Floors(t);
      if y.floor != r.floor {
        assert y.floor in Floors(s);
        var z :| z in s && z.floor == y.floor;
      }
    }
    SortedCons(x, t);
  }

  lemma FloorsCons(x: Request, s: seq<Request>)
    ensures Floors([x] + s) == {x.floor} + Floors(s)
  {
    var u := [x] + s;
    forall y | y in u ensures y == x || y in s {
    }
  }

  lemma SortedCons(x: Request, s: seq<Request>)
    ensures Sorted([x] + s) <==> Sorted(s) && forall y :: y in s ==> x.floor < y.floor
  {
    var u := [x] + s;
    if Sorted(u) {
      assert forall j :: 0 <= j < |s| ==> u[j + 1] == s[j];
      forall y | y in s ensures x.floor < y.floor {
        var j :| 0 <= j < |s| && s[j] == y;
        assert u[0] == x && u[j + 1] == y;
      }
    }
    if Sorted(s) && forall y :: y in s ==> x.floor < y.floor {
      forall i, j | 0 <= i < j < |u| ensures u[i].floor < u[j].floor {
        assert u[j] == s[j - 1];
        if i > 0 {
          assert u[i] == s[i - 1];
        } else {
          assert s[j - 1] in s;
        }
      }
    }
  }

  /** `req.remove(new Request(f, ...))`: drops the request for floor `f`, if
      any, and nothing else. */
  function Remove(s: seq<Request>, f: int): (t: seq<Request>)
    requires Sorted(s)
    ensures Sorted(t)
    ensures Floors(t) == Floors(s) - {f}
    ensures forall x :: x in t <==> x in s && x.floor != f
    ensures |t| == if f in Floors(s) then |s| - 1 else |s|
  {
    if s == [] then []
    else
      assert s == [s[0]] + s[1..];
      SortedCons(s[0], s[1..]);
      FloorsCons(s[0], s[1..]);
      if s[0].floor == f then
        assert f !in Floors(s[1..]);
        s[1..]
      else
        var t' := Remove(s[1..], f);
        SortedCons(s[0], t');
        FloorsCons(s[0], t');
        [s[0]] + t'
  }

  /** `req.ceiling(new Request(f, ...))`: the request with the least floor
      at or above `f`, or null. */
  function CeilingEntry(s: seq<Request>, f: int): (r: Option<Request>)
    requires Sorted(s)
    ensures r.Some? <==> exists x :: x in s && x.floor >= f
    ensures r.Some? ==> r.value in s && r.value.floor >= f
    ensures r.Some? ==> forall x :: x in s && x.floor >= f ==> r.value.floor <= x.floor
  {
    if s == [] then None
    else if s[0].floor >= f then Some(s[0])
    else
      assert s == [s[0]] + s[1..];
      CeilingEntry(s[1..], f)
  }

  /** `req.floor(new Request(f, ...))`: the request with the greatest floor
      at or below `f`, or null. */
  function FloorEntry(s: seq<Request>, f: int): (r: Option<Request>)
    requires Sorted(s)
    ensures r.Some? <==> exists x :: x in s && x.floor <= f
    ensures r.Some? ==> r.value in s && r.value.floor <= f
    ensures r.Some? ==> forall x :: x in s && x.floor <= f ==> x.floor <= r.value.floor
  {
    if s == [] then None
    else if s[|s| - 1].floor <= f then Some(s[|s| - 1])
    else
      assert s == s[..|s| - 1] + [s[|s| - 1]];
      FloorEntry(s[..|s| - 1], f)
  }

  /** Request `i` has the smallest timestamp, and every request before it
      (on a lower floor) has a strictly larger one. */
  ghost predicate IsEarliest(s: seq<Request>, i: int) {
    && 0 <= i < |s|
    && (forall j :: 0 <= j < |s| ==> s[i].timestamp <= s[j].timestamp)
    && (forall j :: 0 <= j < i ==> s[i].timestamp < s[j].timestamp)
  }

  /** Position of the request the stationary scan settles on: it walks the
      set in floor order and keeps a request only if its timestamp is
      strictly smaller than the best so far. */
  function EarliestAt(s: seq<Request>): (i: nat)
    requires |s| > 0
    ensures IsEarliest(s, i)
  {
    if |s| == 1 then 0
    else
      var k := EarliestAt(s[..|s| - 1]);
      if s[|s| - 1].timestamp < s[k].timestamp then |s| - 1 else k
  }

  /** `getNextFloor(currentFloor, direction)` as a value: the ceiling when
      going up, the floor when going down, the earliest request when
      stationary; -1 when there is none. */
  function NextFloor(s: seq<Request>, currentFloor: int, direction: int): int
    requires Sorted(s)
  {
    if direction < 0 then
      match FloorEntry(s, currentFloor)
      case None => -1
      case Some(x) => x.floor
    else if direction > 0 then
      match CeilingEntry(s, currentFloor)
      case None => -1
      case Some(x) => x.floor
    else if s == [] then -1
    else s[EarliestAt(s)].floor
  }

  /** Going up, the next floor is the least stored floor at or above the
      current one, and -1 when there is none. */
  lemma NextFloorUp(s: seq<Request>, currentFloor: int, direction: int)
    requires Sorted(s) && direction > 0
    ensures var r := NextFloor(s, currentFloor, direction);
      && ((exists x :: x in s && x.floor >= currentFloor) ==>
            r in Floors(s) && r >= currentFloor
            && forall g :: g in Floors(s) && g >= currentFloor ==> r <= g)
      && ((forall x :: x in s ==> x.floor < currentFloor) ==> r == -1)
  {
  }

  /** Going down, the next floor is the greatest stored floor at or below
      the current one, and -1 when there is none. */
  lemma NextFloorDown(s: seq<Request>, currentFloor: int, direction: int)
    requires Sorted(s) && direction < 0
    ensures var r := NextFloor(s, currentFloor, direction);
      && ((exists x :: x in s && x.floor <= currentFloor) ==>
            r in Floors(s) && r <= currentFloor
            && forall g :: g in Floors(s) && g <= currentFloor ==> g <= r)
      && ((forall x :: x in s ==> x.floor > currentFloor) ==> r == -1)
  {
  }

  /** Stationary, the next floor is that of a request with the smallest
      timestamp, the lowest such floor on a tie, and -1 for an empty set. */
  lemma NextFloorStationary(s: seq<Request>, currentFloor: int)
    requires Sorted(s)
    ensures var r := NextFloor(s, currentFloor, 0);
      && (s == [] ==> r == -1)
      && (s != [] ==>
            exists x :: && x in s && x.floor == r
                        && (forall y :: y in s ==> x.timestamp <= y.timestamp)
                        && (forall y :: y in s && y.timestamp == x.timestamp ==> r <= y.floor))
  {
    if s != [] {
      var i := EarliestAt(s);
      forall y | y in s && y.timestamp == s[i].timestamp
        ensures s[i].floor <= y.floor
      {
        var j :| 0 <= j < |s| && s[j] == y;
        assert !(j < i);
      }
    }
  }

  /** Whatever the direction, an answer other than -1 is a stored floor. */
  lemma NextFloorIsStored(s: seq<Request>, currentFloor: int, direction: int)
    requires Sorted(s)
    ensures NextFloor(s, currentFloor, direction) != -1 ==> NextFloor(s, currentFloor, direction) in Floors(s)
  {
    if direction == 0 && s != [] {
      assert s[EarliestAt(s)] in s;
    }
  }

  /** A non-empty set always answers with one of its floors when stationary;
      going up or down, it answers in at least one of the two directions. */
  lemma NonEmptyAnswers(s: seq<Request>, currentFloor: int)
    requires Sorted(s) && s != []
    ensures NextFloor(s, currentFloor, 0) in Floors(s)
    ensures NextFloor(s, currentFloor, 1) in Floors(s) || NextFloor(s, currentFloor, -1) in Floors(s)
  {
    assert s[0] in s;
    assert s[EarliestAt(s)] in s;
  }

  /** Since floors are distinct, the set's size is its number of floors. */
  lemma {:induction false} SizeIsFloorCount(s: seq<Request>)
    requires Sorted(s)
    ensures |Floors(s)| == |s|
  {
    if s != [] {
      SizeIsFloorCount(s[1..]);
      assert s == [s[0]] + s[1..];
      assert Floors(s) == {s[0].floor} + Floors(s[1..]);
      assert s[0].floor !in Floors(s[1..]);
    }
  }

  /** The stationary branch of getNextFloor: one pass in floor order with a
      running `earliest`, which is replaced only by a strictly smaller
      timestamp. Returns that request's floor, or -1 for an empty set. */
  method ScanEarliest(s: seq<Request>) returns (floor: int)
    requires Sorted(s)
    ensures floor == NextFloor(s, 0, 0)
  {
    var earliest: Option<Request> := None;
    for i := 0 to |s|
      invariant i == 0 <==> earliest == None
      invariant i > 0 ==> earliest == Some(s[EarliestAt(s[..i])])
    {
      var r := s[i];
      assert s[..i + 1][..i] == s[..i];
      if earliest == None || r.timestamp < earliest.value.timestamp {
        earliest := Some(r);
      }
    }
    assert s[..|s|] == s;
    if earliest == None {
      return -1;
    }
    return earliest.value.floor;
  }
}
