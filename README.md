# Elevator dispatch core in Dafny

This project models the scheduling core of a Java elevator simulator. It is
made of three parts, and each one is proved against a pure specification.

- **The floor-ordered request set.** Each `RequestHandler` keeps a
  `TreeSet<Request>` whose `compareTo` is `floor - o.floor`. As a result:
  - the set holds at most one request per floor;
  - adding a floor that is already pending is a silent no-op.

  Module `FloorIndex` models the set as a sequence of requests with strictly
  ascending floors, which is the TreeSet's iteration order. It provides:
  - `Insert` and `Remove`;
  - the `ceiling` and `floor` queries;
  - the earliest-timestamp scan used when a car is stationary;
  - `NextFloor`, the value `getNextFloor` returns.

  The classes `GuestRequests.RequestHandler` (package VirtualGuests) and
  `CarriageRequests.RequestHandler` (package MultipleCarriages) keep that
  sequence in a field. Each of their methods is proved to update or query it
  as `FloorIndex` says. `Requests` models the request record:
  - `compareTo`, with 32-bit wrap-around;
  - `toString`.
- **The car's sweep state machine** (`MultipleCarriages/Elevator.java`).
  - `Sweep` states the decision logic as functions on a `CarState` value:
    `AddPickup`, `AddDropoff`, `AddressFloor` and `Update`.
  - The lemmas of `Sweep` carry the promised behaviour:
    - go to a strictly closer pick-up, otherwise to the drop-off;
    - reverse when nothing lies ahead;
    - go home to floor N/2 when there are no requests;
    - report no change only when idle at home;
    - never add requests.
  - The class `Carriage.Elevator` has the Java fields. Its constructor and its
    `AddPickup`, `AddDropoff`, `AddressFloor` and `Update` are proved to change
    them exactly as the `Sweep` function of the same name does; the
    constructor leaves them as `Sweep.Update(Sweep.Initial(), numFloors)`.
    `CompletePickup` and `CompleteDropoff` are specified through
    `FloorIndex.Remove`, and `GetNumRequests` through `Sweep.NumRequests`.
- **The dispatcher** (`VirtualGuests/Dispatcher.java`). `Assignment` states the
  following as functions:
  - the car-selection scan of `assignPickup`, as a fold of its running
    variables;
  - the FIFO drain of the pending queue;
  - one `step` over the fleet.

  `Assignment.AssignIsLeastEligible` characterises the selected car without
  the loop. The class `Dispatch.Dispatcher` holds a fleet of
  `Carriage.Elevator` objects and the `requestQueue`. Its methods are proved
  to act as those functions.

The building height N (`Setting.NUM_FLOORS`) and the fleet size are
parameters. The requests that prompting or the random workload would produce
are also parameters: one `Demand` per car, with drop-offs and new hall calls.

In several places the code behaves differently from what its comments or a
reader would expect. The model follows the code:
- **Distance is signed.** The Javadoc of `assignPickup`
  (VirtualGuests/Dispatcher.java:71-73) speaks of "the closest elevator
  traveling toward the target floor". The code compares `f - floor` rather
  than its absolute value. An eligible car above the call therefore beats
  every car below it, however far away (`Assignment.AboveBeatsBelow`,
  `Assignment.SignedDistanceExample`).
- **A matching car does not always win.** One would expect a car travelling
  toward the call to be preferred over an earlier car that is not. In the
  code, `bestMatchesDir` is overwritten even when `best` does not change, so
  the car returned may not match even though a later car does
  (`Assignment.MatchingCarIgnoredExample`).
- **A stationary car rarely matches.** A car with no heading could be
  expected to suit any call. The code counts it as matching only when it is
  already on the call's floor (`Assignment.StationaryMatchesOnlyAtTarget`).
- **A parked car keeps its last direction.** A car waiting at floor N/2 could
  be expected to have direction 0. The code keeps the sign of its last move
  (for example +1 after travelling from floor 1 to N/2)
  (`Sweep.IdleConvergence`, `Sweep.NewCarGoesHome`).
- **Timestamps advance even on a no-op.** A request for an already-pending
  floor is not stored, but the car's timestamp still advances
  (`Sweep.AddPickup`).

A `Request` is a datatype, so the constructor `new Request(floor, timestamp,
numGuests)` stores its three fields unchanged by construction.

## Model

| member | source | states |
|---|---|---|
| Common.Abs | MultipleCarriages/Elevator.java:118-119 | `Math.abs` on unbounded integers: the result is x or -x and is never negative (Java differs only at Integer.MIN_VALUE, see "## Left out") |
| Common.UnitVector | VirtualGuests/Dispatcher.java:85 | `dist == 0 ? 0 : dist / Math.abs(dist)` is the sign of dist (the same expression is at MultipleCarriages/Elevator.java:92) |
| Requests.Wrap32 | VirtualGuests/Request.java:15 | Java int subtraction: the result is a 32-bit value, equal to the exact difference when that fits |
| Requests.CompareTo | VirtualGuests/Request.java:14-16 | `floor - o.floor` in 32-bit arithmetic: always a 32-bit value, and the exact difference when that fits (its order properties are the Compare lemmas below) |
| Requests.WrapOfDifference | VirtualGuests/Request.java:15 | where a difference of two 32-bit floors lands after wrap-around: shifted by 2^32 on overflow, unchanged otherwise |
| Requests.CompareZeroIffSameFloor | VirtualGuests/Request.java:14-16 | compareTo is 0 exactly when the floors are equal, whatever the timestamps and guest counts |
| Requests.CompareSignIsFloorOrder | VirtualGuests/Request.java:15 | without overflow, compareTo is negative iff this floor is lower and positive iff higher |
| Requests.CompareAntisymmetric | VirtualGuests/Request.java:15 | a.compareTo(b) == -b.compareTo(a) when neither subtraction overflows |
| Requests.CompareTransitive | VirtualGuests/Request.java:15 | the order compareTo induces is transitive, both weakly and strictly, for floors whose differences fit in 32 bits |
| Requests.CompareOverflowExample | VirtualGuests/Request.java:15 | outside that premise antisymmetry fails: the floors MIN_VALUE and 0 each compare below the other |
| Requests.NatToString | VirtualGuests/Request.java:18 | decimal rendering of a number: non-empty and all digits |
| Requests.IntToString | VirtualGuests/Request.java:18 | Java's rendering of an int: non-empty, with a leading minus exactly for negative values (IntToStringRoundTrip says it loses nothing) |
| Requests.ToString | VirtualGuests/Request.java:17-19 | defines the printed form of a request; ToStringRoundTrip and ToStringInjective state what it keeps |
| Requests.NatToStringRoundTrip | VirtualGuests/Request.java:18 | the digits read back give the number |
| Requests.IntToStringRoundTrip | VirtualGuests/Request.java:18 | Java's rendering of an int, with its sign, parses back to that int |
| Requests.ToStringRoundTrip | VirtualGuests/Request.java:17-19 | the printed text "Floor: " + floor + " \| Guests: " + numGuests parses back to the floor and guest count |
| Requests.ToStringInjective | VirtualGuests/Request.java:17-19 | two requests print alike only if their floors and guest counts agree |
| FloorIndex.InsertSpec | VirtualGuests/RequestHandler.java:24-26 | `req.add` keeps the set floor-sorted and adds the floor; if the floor was pending the set is unchanged (original timestamp and guests kept), otherwise exactly the new request is added |
| FloorIndex.Insert | VirtualGuests/RequestHandler.java:25 | defines `req.add` on the floor-sorted sequence; InsertSpec states its meaning |
| FloorIndex.Remove | VirtualGuests/RequestHandler.java:50-52 | `req.remove` drops exactly the request for f: the rest is kept, the set stays sorted, and the size drops by one iff f was pending |
| FloorIndex.CeilingEntry | VirtualGuests/RequestHandler.java:72 | `ceiling`: the stored request with the least floor >= f, present iff one exists |
| FloorIndex.FloorEntry | VirtualGuests/RequestHandler.java:66 | `floor`: the stored request with the greatest floor <= f, present iff one exists |
| FloorIndex.EarliestAt | VirtualGuests/RequestHandler.java:78-83 | the stationary scan's choice has the smallest timestamp, and every earlier entry in floor order has a strictly larger timestamp |
| FloorIndex.NextFloor | VirtualGuests/RequestHandler.java:63-87 | defines the value of `getNextFloor`; NextFloorUp, NextFloorDown, NextFloorStationary and NextFloorIsStored state its meaning |
| FloorIndex.NextFloorUp | VirtualGuests/RequestHandler.java:70-75 | going up, the next floor is the least stored floor >= the current one, or -1 when there is none |
| FloorIndex.NextFloorDown | VirtualGuests/RequestHandler.java:64-69 | going down, the next floor is the greatest stored floor <= the current one, or -1 when there is none |
| FloorIndex.NextFloorStationary | VirtualGuests/RequestHandler.java:76-86 | stationary, the next floor has the smallest timestamp, the lowest such floor on a tie, and is -1 for an empty set |
| FloorIndex.NextFloorIsStored | VirtualGuests/RequestHandler.java:63-87 | any answer other than -1 is a stored floor |
| FloorIndex.NonEmptyAnswers | VirtualGuests/RequestHandler.java:63-87 | a non-empty set answers when stationary, and answers going up or going down |
| FloorIndex.SizeIsFloorCount | VirtualGuests/RequestHandler.java:101-103 | the set's size is its number of distinct floors |
| FloorIndex.ScanEarliest | VirtualGuests/RequestHandler.java:78-85 | the loop with its running `earliest` returns the stationary answer |
| GuestRequests.RequestHandler.constructor | VirtualGuests/RequestHandler.java:14-16 | a new handler has no requests |
| GuestRequests.RequestHandler.AddRequest | VirtualGuests/RequestHandler.java:24-26 | the pending floors gain `floor`; an already-pending floor leaves the set unchanged; otherwise exactly the new request is added |
| GuestRequests.RequestHandler.GetRequest | VirtualGuests/RequestHandler.java:33-40 | returns the stored request for `floor` iff that floor is pending, and null otherwise |
| GuestRequests.RequestHandler.CompleteRequest | VirtualGuests/RequestHandler.java:50-52 | returns true iff the floor was pending; afterwards it is absent and every other request is unchanged |
| GuestRequests.RequestHandler.GetNextFloor | VirtualGuests/RequestHandler.java:63-87 | returns `NextFloor` of the set (see NextFloorUp/Down/Stationary); any answer other than -1 is pending |
| GuestRequests.RequestHandler.IsEmpty | VirtualGuests/RequestHandler.java:93-95 | true exactly when no floor is pending |
| GuestRequests.RequestHandler.GetSize | VirtualGuests/RequestHandler.java:101-103 | the number of pending floors |
| CarriageRequests.RequestHandler.constructor | MultipleCarriages/RequestHandler.java:14-16 | a new handler has no requests |
| CarriageRequests.CarriageRequest | MultipleCarriages/RequestHandler.java:90-93 | defines the inner request as a Request with guest count 0; the handler's Valid keeps every stored guest count at 0 |
| CarriageRequests.RequestHandler.AddRequest | MultipleCarriages/RequestHandler.java:23-25 | as in the VirtualGuests handler; a floor already pending is a no-op because the inner Request compares floors only |
| CarriageRequests.RequestHandler.CompleteRequest | MultipleCarriages/RequestHandler.java:34-36 | returns true iff the floor was pending, and removes only that floor |
| CarriageRequests.RequestHandler.GetNextFloor | MultipleCarriages/RequestHandler.java:46-70 | ceiling going up, floor going down, earliest request when stationary, -1 for none; any other answer is pending |
| CarriageRequests.RequestHandler.IsEmpty | MultipleCarriages/RequestHandler.java:76-78 | true exactly when no floor is pending |
| CarriageRequests.RequestHandler.GetSize | MultipleCarriages/Elevator.java:161 | the size the car asks for: the number of pending floors |
| Sweep.NumRequests | MultipleCarriages/Elevator.java:160-162 | defines `getNumRequests` on a car state; NumRequestsCountsFloors states its meaning |
| Sweep.Initial | MultipleCarriages/Elevator.java:21-27 | defines the fields the constructor sets before its update; NewCarGoesHome states where the car then is |
| Sweep.NumRequestsCountsFloors | MultipleCarriages/Elevator.java:160-162 | the request count is the number of pending pick-up floors plus drop-off floors, and is 0 iff nothing is pending |
| Sweep.AddPickup | MultipleCarriages/Elevator.java:35-38 | inserts with the current timestamp, which then grows by exactly 1; floor, direction and drop-offs are unchanged; a pending floor leaves the pick-ups as they were |
| Sweep.AddDropoff | MultipleCarriages/Elevator.java:44-47 | the same for drop-offs, sharing the timestamp |
| Sweep.AddressFloor | MultipleCarriages/Elevator.java:74-103 | reports no change (and changes nothing) iff the car is already there with no requests; otherwise the car is at the floor, heads in the sign of the move, and only that floor's requests are removed |
| Sweep.Update | MultipleCarriages/Elevator.java:114-146 | one step keeps both sets floor-sorted; its behaviour is in the lemmas below: which floor it moves to (and that the move is exactly addressFloor's, with the new heading and set-by-set removal), when it reverses, and when it is idle |
| Sweep.UpdatePrefersStrictlyCloserPickup | MultipleCarriages/Elevator.java:122-129 | with both next floors present, the car goes to the pick-up only if strictly closer, to the drop-off otherwise (ties included), and services it: the move is exactly AddressFloor to that floor |
| Sweep.UpdateReverses | MultipleCarriages/Elevator.java:136-143 | with requests pending but none ahead, only the direction is negated, and a change is reported |
| Sweep.UpdateServicesNextFloor | MultipleCarriages/Elevator.java:122-135 | when a next floor exists, the car moves to a pending floor and exactly that floor leaves the pending set; when only the pick-up (or only the drop-off) next floor exists, the car goes to that one; the move is exactly AddressFloor to that floor, so the car heads in the sign of the move and each set loses only that floor |
| Sweep.StationaryNeverReverses | MultipleCarriages/Elevator.java:136-142 | at direction 0 a car with requests always moves to one of them: the reversal branch needs a heading |
| Sweep.OtherSideAnswers | MultipleCarriages/RequestHandler.java:46-58 | a non-empty set with nothing ahead in one direction has something ahead in the other |
| Sweep.NoDoubleReversal | MultipleCarriages/Elevator.java:136-143 | a reversal happens only with a nonzero heading and is followed by a move to a pending floor |
| Sweep.UpdateNeverAddsRequests | MultipleCarriages/Elevator.java:114-146 | update only removes: the pending floors shrink, the request count never grows, the timestamp is kept |
| Sweep.UpdateIdleIff | MultipleCarriages/Elevator.java:138-139 | update reports no change iff there are no requests and the car is at N/2, and then nothing changes |
| Sweep.IdleConvergence | MultipleCarriages/Elevator.java:136-139 | a car with no requests reaches N/2 in one step, heading in the sign of that move, and is idle from then on |
| Sweep.NewCarGoesHome | MultipleCarriages/Elevator.java:21-29 | a new car (floor 1, direction 0, no requests, timestamp 0) ends its first update at N/2, with a change reported unless N/2 is 1 |
| Sweep.DirectionStaysUnit | MultipleCarriages/Elevator.java:141 | the direction stays in {-1, 0, 1} |
| Carriage.Elevator.constructor | MultipleCarriages/Elevator.java:21-29 | the fields are those of the initial car after one update |
| Carriage.Elevator.AddPickup | MultipleCarriages/Elevator.java:35-38 | the car's new state is Sweep.AddPickup of the old one |
| Carriage.Elevator.AddDropoff | MultipleCarriages/Elevator.java:44-47 | the car's new state is Sweep.AddDropoff of the old one |
| Carriage.Elevator.CompletePickup | MultipleCarriages/Elevator.java:53-57 | removes only that floor's pick-up |
| Carriage.Elevator.CompleteDropoff | MultipleCarriages/Elevator.java:63-67 | removes only that floor's drop-off |
| Carriage.Elevator.GetNumRequests | MultipleCarriages/Elevator.java:160-162 | the number of pending pick-up floors plus drop-off floors |
| Carriage.Elevator.AddressFloor | MultipleCarriages/Elevator.java:74-103 | result and new state are Sweep.AddressFloor of the old state |
| Carriage.Elevator.Update | MultipleCarriages/Elevator.java:114-146 | result and new state are Sweep.Update of the old state |
| Assignment.Scan | VirtualGuests/Dispatcher.java:79-105 | after k cars, `best` is one of them (or the first car) |
| Assignment.Consider | VirtualGuests/Dispatcher.java:84-104 | defines one round of the loop on the four running variables; ScanInvariantHolds and AssignIsLeastEligible state what the rounds achieve |
| Assignment.Assign | VirtualGuests/Dispatcher.java:75-108 | the selected position is a car of the fleet |
| Assignment.ScanInvariantHolds | VirtualGuests/Dispatcher.java:83-105 | the loop invariant: `best` is eligible and minimal by (signed distance, requests), strictly better than every earlier eligible car, and the flag says whether any car seen matches |
| Assignment.AssignIsLeastEligible | VirtualGuests/Dispatcher.java:75-108 | the chosen car is eligible, has the least (signed distance, request count) among eligible cars, and is the earliest on a full tie |
| Assignment.FirstCarIsInitialBest | VirtualGuests/Dispatcher.java:79-96 | the first car always becomes `best`, because closestDist starts at MAX_VALUE |
| Assignment.StationaryMatchesOnlyAtTarget | VirtualGuests/Dispatcher.java:84-86 | a car with direction 0 matches direction exactly when it is on the call's floor |
| Assignment.FlagKeepsNonMatchingOut | VirtualGuests/Dispatcher.java:89-96 | once `bestMatchesDir` is set it stays set, and any later change of `best` is to a matching car |
| Assignment.AboveBeatsBelow | VirtualGuests/Dispatcher.java:84-96 | since distance is signed, if some eligible car is above the call the chosen car is above it |
| Assignment.SignedDistanceExample | VirtualGuests/Dispatcher.java:84-96 | a car one floor below heading up loses to a car fifteen floors above heading down |
| Assignment.MatchingCarIgnoredExample | VirtualGuests/Dispatcher.java:89-96 | the flag can go up without `best` changing: a non-matching car is returned although a matching one exists |
| Assignment.FewerRequestsWinsTie | VirtualGuests/Dispatcher.java:97-103 | equal direction and distance: the car with fewer requests is chosen |
| Assignment.Views | VirtualGuests/Dispatcher.java:84-87 | the scan reads each car's floor, direction and request count, in fleet order |
| Assignment.Admit | VirtualGuests/Dispatcher.java:153 | `best.addPickup` on the car at position b: that car becomes Sweep.AddPickup of itself, every other car is unchanged, and the fleet keeps its size and validity |
| Assignment.DrainOne | VirtualGuests/Dispatcher.java:151-154 | one round of the drain loop keeps the fleet's size and validity |
| Assignment.Drain | VirtualGuests/Dispatcher.java:150-155 | the drain loop keeps the fleet's size and validity |
| Assignment.DrainFifo | VirtualGuests/Dispatcher.java:150-155 | the queue is FIFO: draining q1 + q2 is draining q1, then q2 |
| Assignment.DrainOneKeeps | VirtualGuests/Dispatcher.java:151-154 | after one round every car has the same floor, direction and drop-offs as before, and at least its earlier pick-up floors |
| Assignment.DrainKeeps | VirtualGuests/Dispatcher.java:150-155 | draining only adds pick-ups, car by car |
| Assignment.DrainDelivers | VirtualGuests/Dispatcher.java:150-155 | after the drain every queued floor is a pending pick-up of some car: no hall call is lost |
| Assignment.Enqueue | VirtualGuests/Dispatcher.java:143-147 | the queue is kept as a prefix and each hall call is appended in order as Request(f, -1, num) |
| Assignment.EnqueuePrefix | VirtualGuests/Dispatcher.java:143-147 | one more hall call goes to the tail of the queue |
| Assignment.AddDropoffs | VirtualGuests/Dispatcher.java:63-67 | the car's drop-off floors gain exactly the given floors; the timestamp grows by their number; floor, direction and pick-ups are unchanged |
| Assignment.AddDropoffsSnoc | VirtualGuests/Dispatcher.java:63-67 | the drop-offs are added one at a time, in order |
| Assignment.AddDropoffsPrefix | VirtualGuests/Dispatcher.java:63-67 | one more drop-off of the list is added after the earlier ones |
| Assignment.StepCar | VirtualGuests/Dispatcher.java:173-185 | handling one car keeps the fleet's size and validity |
| Assignment.StepFrom | VirtualGuests/Dispatcher.java:173-186 | handling the cars from position i on keeps the fleet's size and validity |
| Assignment.Step | VirtualGuests/Dispatcher.java:172-187 | defines `step` on the whole dispatcher; BusyStep and StepQueue state its meaning |
| Assignment.BusyStep | VirtualGuests/Dispatcher.java:172-187 | when no car goes idle, a step updates each car exactly once, in fleet order, and leaves the queue alone |
| Assignment.StepCarQueue | VirtualGuests/Dispatcher.java:173-185 | one car's round leaves the queue alone when the car is busy and empties it when the car goes idle |
| Assignment.StepQueue | VirtualGuests/Dispatcher.java:172-187 | a step ends with the queue unchanged or empty, and empty whenever a car went idle |
| Dispatch.Dispatcher.constructor | VirtualGuests/Dispatcher.java:10-16 | the fleet has cars numbered 0.., each a new car after its first update, and the queue is empty |
| Dispatch.Dispatcher.ReadCar | VirtualGuests/Dispatcher.java:84-87 | reads a car's floor, direction and request count |
| Dispatch.Dispatcher.AssignPickup | VirtualGuests/Dispatcher.java:75-108 | returns the car at the position `Assign` selects for the current fleet |
| Dispatch.Dispatcher.ScanFleet | VirtualGuests/Dispatcher.java:79-107 | the loop with its four running variables returns the car `Assign` selects |
| Dispatch.Dispatcher.AddPickup | VirtualGuests/Dispatcher.java:164-166 | appends Request(floor, -1, numGuests) to the tail of the queue; no car changes |
| Dispatch.Dispatcher.AdmitTo | VirtualGuests/Dispatcher.java:153 | `best.addPickup` changes that car only, as Sweep.AddPickup |
| Dispatch.Dispatcher.DrainHead | VirtualGuests/Dispatcher.java:151-154 | the head of the queue goes to the car assignPickup picks, and then leaves the queue |
| Dispatch.Dispatcher.Poll | VirtualGuests/Dispatcher.java:154 | drops the head of the queue; no car changes |
| Dispatch.Dispatcher.DrainQueue | VirtualGuests/Dispatcher.java:150-155 | the fleet ends as `Drain` of the old fleet and queue, and the queue ends empty |
| Dispatch.Dispatcher.PromptDropoff | VirtualGuests/Dispatcher.java:63-67 | the idle car gets its drop-offs in order; no other car changes |
| Dispatch.Dispatcher.PromptPickup | VirtualGuests/Dispatcher.java:143-155 | new hall calls are queued behind the pending ones, then the whole queue is drained FIFO |
| Dispatch.Dispatcher.UpdateCar | VirtualGuests/Dispatcher.java:174 | `e.update()` changes that car only, as Sweep.Update, and returns its change flag |
| Dispatch.Dispatcher.StepOne | VirtualGuests/Dispatcher.java:173-185 | one round of step's loop acts as `StepCar` |
| Dispatch.Dispatcher.Step | VirtualGuests/Dispatcher.java:172-187 | the dispatcher's new state is `Assignment.Step` of its old state |

## Left out

- Console I/O is not modelled:
  - `System.out.println` messages, including those of completePickup and completeDropoff;
  - the `toString` dumps of the handlers, the car and the queue;
  - `MultipleCarriages/TextPrompt.java`;
  - the manual-input branches of `promptDropoff` and `promptPickup`, with their re-prompt on mismatched lengths.
- VirtualGuests/Simulator.java is not part of this model. Its random workload becomes the `demand` parameter of `Dispatch.Dispatcher.Step`.
- The `Thread.sleep` pause in `addressFloor` has no observable effect on the state, so it is not modelled.
- Fleet sizing through `Math.log` is floating point, so the fleet size is a constructor parameter.
- `VirtualGuests/Setting.java` holds constants only. N is a parameter, and the capacity is not used.
- SimpleElevatorMVP/Elevator.java is not part of this model. Its decision logic duplicates MultipleCarriages/Elevator.java.
- MultipleCarriages/Dispatcher.java is not part of this model. It only prompts and routes everything to the first car.
- VirtualGuests/Elevator.java is not part of this model. The dispatcher's cars are `Carriage.Elevator`, from package MultipleCarriages.
- Capacity, load and partial admission are not modelled, and guest counts are dropped when a car admits a request. The guest counts still travel through the queue's `Request` values.
- Dispatch.Dispatcher.AdmitTo: does not model the capacity check or the requeue of unmet demand inside the car's `addPickup(floor, numGuests)`, because that code is not available.
- Dispatch.Dispatcher.PromptDropoff: models only the loop that adds the drop-offs (lines 63-67). The guest count of each drop-off is dropped.
- FloorIndex.Insert: orders requests by integer floor rather than by the wrapped `compareTo`. The two agree whenever floor differences fit in 32 bits (`Requests.CompareSignIsFloorOrder`), which holds for floors in [1, N].
- Carriage.Elevator.AddPickup: does not model 32-bit wrap-around of `timestamp++`, because a run would need 2^31 requests to reach it. The same holds for `Carriage.Elevator.AddDropoff`.
- Assignment.AssignIsLeastEligible: requires the first car's signed distance to be below Integer.MAX_VALUE. On unbounded integers a first car further than that would leave `closestDist` at its initial value, which Java ints cannot produce. Floors in [1, N] never come close.
- Common.Abs, Common.UnitVector: work on unbounded integers. They differ from Java's `Math.abs` and `dist / Math.abs(dist)` only at Integer.MIN_VALUE, where Java's `Math.abs` returns MIN_VALUE itself. The differences of floors in [1, N] computed in `Sweep.Update`, `Sweep.AddressFloor` and `Assignment.Consider` never reach that value.
- Assignment.Scan: `dist = f - e.getFloor()` is computed on unbounded integers rather than with 32-bit overflow. Floors in [1, N] never overflow.
- Sweep.StationaryNeverReverses, Sweep.NoDoubleReversal and Sweep.OtherSideAnswers: assume no pending floor equals -1, the sentinel `getNextFloor` uses for "none". Java floors come from the range [1, N].
- The getters `getId`, `getFloor` and `getDirection` are read as fields.
- The inner `Request.toString` of MultipleCarriages, which prints the bare floor, is not modelled.
