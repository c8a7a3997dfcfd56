# Lift controller, modelled and verified in Dafny

This project models the `LiftController` of a lift-bank simulator (`src/utils/liftController.ts`) and proves properties of it. The controller owns two collections that it updates in place:
- the **lift registry**: each lift has an id, a current floor, a stop queue `targetFloors`, a status, a direction, a capacity and a load;
- the **request ledger**: requests from floor panels and from the buttons inside a car.

It offers five operations:
- **Initialisation** places each lift on a random floor.
- **`addRequest` / `assignLift`** dispatch a request to the nearest eligible lift: not faulted and below capacity. Of equally near lifts, the first in the registry wins.
- **`updateLiftPositions`** is one tick of the simulation. Each working lift moves one floor toward the head of its sorted queue, or serves that floor: it completes the matching requests and purges old completed ones.
- **`toggleLiftFault`** flips a lift in or out of fault. A lift entering fault drops its stops, and its requests are dispatched afresh.
- **`addInternalRequest`** queues a floor pressed inside a car.

The model has two layers:
- `Engine` describes each operation as a function from one state `System(lifts, requests)` to the next.
- `Controller.LiftController` is a class with the two fields. Its methods follow the source's control flow, with `while` loops for the `forEach` loops and functions for its `filter`, `sort` and `find` calls. Each method is proved to reach exactly the state the matching `Engine` function gives.

The lemmas in `Properties`, `Consistency` and `Scenarios` state what the source promises about those functions.

Modules:
- `LiftTypes`: the lift and request records, their enumerations, the constants 8 (capacity) and 5000 ms (retention), and the per-lift invariant `WellFormed`:
  - the queue is strictly ascending;
  - the direction matches the status;
  - a faulted lift has no stops.
- `StopQueue`: the push-then-sort of a stop queue (`Enqueue`), with the insertion sort that stands for the numeric `sort`.
- `Dispatch`: the choice of lift (`Nearest`). A stable sort by distance followed by taking the first element is characterised as "the first eligible lift at minimal distance" (`IsNearest`).
- `Ledger`: completion of matching requests, the cleanup filter, and the requests of a lift.
- `Engine`: the operations as state functions.
- `Controller`: the class.
- `Properties`: movement, the ledger across a tick, faults and in-car buttons.
- `Consistency`: the agreement between ledger and queues. It holds in every reachable state. With no further calls every stop queue empties and no request stays assigned, but a request left pending is never served.
- `Scenarios`: concrete runs on one- and two-lift banks.

Nondeterministic inputs are parameters:
- the random number that places lift i is `draws[i]` in [0, 1);
- the clock is `now`, one reading per tick or per in-car request;
- a generated request id is `reqId`.

## Model

| member | source | states |
|---|---|---|
| StopQueue.InsertAscending | src/utils/liftController.ts:62-63 | inserting into a queue adds exactly that element: same multiset plus one, same members plus one |
| StopQueue.InsertKeepsOrder | src/utils/liftController.ts:62-63 | inserting into an ascending queue keeps it ascending; a new element keeps a strictly ascending queue strictly ascending |
| StopQueue.SortAscending | src/utils/liftController.ts:63 | the numeric sort returns a permutation of its input in ascending order |
| StopQueue.SortKeepsAscending | src/utils/liftController.ts:63 | sorting an already ascending queue leaves it unchanged |
| StopQueue.InsertLargest | src/utils/liftController.ts:62-63 | a pushed element not below any queued one stays at the end after the sort |
| StopQueue.EnqueueInserts | src/utils/liftController.ts:61-64 | pushing a new floor onto a strictly ascending queue and sorting equals inserting it in place |
| StopQueue.Enqueue | src/utils/liftController.ts:61-64 | after the includes-guarded push and sort the floor is queued; members are the old ones plus the floor; a queued floor leaves the queue unchanged, a new one adds exactly one stop; strict ascent is preserved |
| StopQueue.AscendingUnique | src/utils/liftController.ts:61-64 | two strictly ascending queues with the same members are equal, so a stop queue is determined by its set of floors |
| StopQueue.HeadIsLeast | src/utils/liftController.ts:82 | the head of an ascending queue is its lowest stop, strictly below the rest when strictly ascending |
| Dispatch.Nearest | src/utils/liftController.ts:38-55 | no lift is chosen exactly when every lift is faulted or full; otherwise the chosen lift is eligible, no eligible lift is nearer, and every eligible lift before it is strictly farther |
| Dispatch.NearestUnique | src/utils/liftController.ts:48-55 | any lift meeting that characterisation is the one chosen |
| Ledger.Cleanup | src/utils/liftController.ts:104-106 | the filter keeps exactly the requests that are not completed-and-at-least-5000-ms-old, never lengthens the ledger, and keeps every surviving request with its multiplicity |
| Ledger.CleanupAppend | src/utils/liftController.ts:104-106 | the filter works element by element, so it keeps the relative order of survivors |
| Ledger.CleanupNothingExpired | src/utils/liftController.ts:104-106 | a ledger with nothing expired is left exactly as it is |
| Ledger.CleanupIdempotent | src/utils/liftController.ts:104-106 | running the cleanup twice at the same clock reading purges nothing more |
| Ledger.Affected | src/utils/liftController.ts:125-127 | the indices of exactly the requests assigned to the lift, in ledger order |
| Engine.StartFloor | src/utils/liftController.ts:14 | the drawn start floor lies in [0, numFloors), or is 0 when there are no floors |
| Engine.InitialLifts | src/utils/liftController.ts:11-21 | lifts get ids 1..numLifts in order, idle status and direction, no stops, capacity 8, load 0, a start floor in range, and satisfy the registry invariant |
| Engine.IndexOf | src/utils/liftController.ts:117 | the lookup by id returns the first lift with that id, or none when no lift has it |
| Engine.IndexOfValid | src/utils/liftController.ts:117 | in a valid registry the lift with id n sits at position n - 1, and ids outside 1..#lifts are unknown |
| Engine.Assign | src/utils/liftController.ts:36-67 | dispatch keeps the sizes of registry and ledger and the registry invariant; its effect is stated by `Engine.AssignSpec` |
| Engine.AssignSpec | src/utils/liftController.ts:36-67 | with no eligible lift nothing changes; otherwise the request becomes assigned to the nearest eligible lift, whose queue gains its floor; every other request and lift is unchanged |
| Engine.AddExternal | src/utils/liftController.ts:31-34 | the request is appended, keeps its fields, and is assigned whenever some lift is eligible; with none it is appended unchanged |
| Engine.AddInternal | src/utils/liftController.ts:137-154 | an unknown or faulted lift or a floor already queued changes nothing; otherwise only that lift's queue changes, gaining exactly the floor, and one internal request assigned to it is appended |
| Engine.Step | src/utils/liftController.ts:70-112 | a faulted lift is untouched; a working lift stays working, keeps or changes its floor by one toward the head with status and direction following the move, drops only the head on arrival, becomes idle when its queue is empty, and stays well formed |
| Engine.ServiceAllNext | src/utils/liftController.ts:70-106 | the per-lift loop services the ledger lift by lift in registry order: the first i+1 lifts are the first i followed by lift i |
| Engine.Tick | src/utils/liftController.ts:69-114 | every lift takes its own step and the registry invariant is kept |
| Engine.Reassign | src/utils/liftController.ts:129-131 | resetting and re-dispatching one request keeps the sizes of registry and ledger; its effect is stated by `Properties.ReassignFacts` |
| Engine.ReassignAll | src/utils/liftController.ts:128-132 | re-dispatching the requests in turn keeps the sizes of registry and ledger; its effect is stated by `Properties.ReassignAllFacts` |
| Engine.ToggleFault | src/utils/liftController.ts:116-135 | an unknown id changes nothing; a faulted lift is repaired to idle and nothing else changes; entering fault is stated by `Properties.EnteringFault` |
| Controller.LiftController.constructor | src/utils/liftController.ts:7-21 | the registry is the initial one, the ledger empty, the invariant established |
| Controller.LiftController.AddRequest | src/utils/liftController.ts:31-34 | the new state is the dispatch of the appended request, invariant kept |
| Controller.LiftController.AssignLift | src/utils/liftController.ts:36-67 | the new state is the dispatch of the request at that position, invariant kept |
| Controller.LiftController.CompleteMatching | src/utils/liftController.ts:97-101 | the loop marks completed exactly the requests assigned to that lift for that floor; the registry is untouched |
| Controller.LiftController.MoveLift | src/utils/liftController.ts:70-113 | one iteration of the per-lift loop replaces that lift by its step and services the ledger for it |
| Controller.LiftController.UpdateLiftPositions | src/utils/liftController.ts:69-114 | the loop over all lifts reaches the tick of the whole bank, invariant kept |
| Controller.LiftController.RedispatchEach | src/utils/liftController.ts:128-132 | the loop that resets and re-dispatches the affected requests one by one reaches the re-dispatch of all of them in order, invariant kept |
| Controller.LiftController.ToggleLiftFault | src/utils/liftController.ts:116-135 | the in-place toggle, including the loop that resets and re-dispatches each affected request, reaches the fault-switch state, invariant kept |
| Controller.LiftController.AddInternalRequest | src/utils/liftController.ts:137-154 | the new state is the in-car request's state, invariant kept |
| Properties.StepStaysInRange | src/utils/liftController.ts:82-91 | a lift whose floor and stops lie in a range stays in that range |
| Properties.StepNAdd | src/utils/liftController.ts:69-114 | a+b ticks of a lift are a ticks followed by b ticks |
| Properties.ReachesFirstStop | src/utils/liftController.ts:82-91 | a working lift stands at its first stop, queue untouched, after as many ticks as floors between |
| Properties.ServesWholeQueue | src/utils/liftController.ts:76-111 | with no new requests, a working lift serves its whole queue in floors-travelled-plus-stops ticks and stands idle at its last stop |
| Properties.IdleStaysIdle | src/utils/liftController.ts:76-80 | an idle lift with no stops never changes |
| Properties.MarkCompletedExactly | src/utils/liftController.ts:97-101 | completion changes exactly the matching requests, and only their status |
| Properties.ServiceFacts | src/utils/liftController.ts:92-106 | after one lift's tick every request was in the ledger or is a matching request now completed; a request not completed and not served by that lift survives |
| Properties.ServiceAllFacts | src/utils/liftController.ts:69-114 | the same over a whole tick: nothing appears except completions by serving lifts, and no open request that no lift serves is dropped |
| Properties.CompletedOnlyByArrival | src/utils/liftController.ts:97-101 | a request becomes completed in a tick only when the lift assigned to it stands at its floor and serves it |
| Properties.OpenRequestsSurvive | src/utils/liftController.ts:104-106 | a pending or assigned request that no lift serves in the tick is still in the ledger afterwards |
| Properties.LongWaitPurgedOnCompletion | src/utils/liftController.ts:97-106 | a request created at least 5000 ms before its lift serves it is completed and purged in the same tick, and never appears completed |
| Properties.ReassignFacts | src/utils/liftController.ts:129-131 | re-dispatching one request while a lift is faulted: the faulted lift is untouched, other lifts only gain stops, other requests are unchanged, and the request ends pending with no lift or assigned to another lift |
| Properties.OnlyGainStopsTransitive | src/utils/liftController.ts:128-132 | "only gains stops" composes across successive re-dispatches |
| Properties.ReassignAllLifts | src/utils/liftController.ts:128-132 | re-dispatching requests in turn while a lift is faulted keeps the registry invariant, leaves that lift untouched, and other lifts only gain stops |
| Properties.ReassignAllRequests | src/utils/liftController.ts:128-132 | re-dispatching distinct requests in turn leaves every other request unchanged, and each re-dispatched one ends pending with no lift or assigned to a lift other than the faulted one |
| Properties.ReassignAllFacts | src/utils/liftController.ts:128-132 | re-dispatching the affected requests in turn: the faulted lift is untouched, other lifts only gain stops, requests not affected are unchanged, each affected one is pending with no lift or assigned elsewhere |
| Properties.FaultUnfolds | src/utils/liftController.ts:117-132 | switching a working lift into fault is freezing it (fault status, no stops, idle direction) and then re-dispatching the requests assigned to it |
| Properties.EnteringFault | src/utils/liftController.ts:119-133 | a lift entering fault is frozen with no stops and idle direction; no request stays assigned to it; each request it held is pending with no lift or assigned elsewhere; other requests are unchanged; other lifts only gain stops |
| Properties.Repair | src/utils/liftController.ts:119 | repair sets the status to idle, changes nothing else, and leaves the lift with no stops |
| Properties.AddInternalIdempotent | src/utils/liftController.ts:139-153 | pressing the same in-car button twice in a row has the effect of pressing it once, whatever id and clock reading the second press gets |
| Consistency.QueuedGrows | src/utils/liftController.ts:61-64 | an assigned request stays queued when lifts only gain stops |
| Consistency.AssignMembers | src/utils/liftController.ts:58-59 | dispatch keeps every request of the ledger except the one dispatched |
| Consistency.AssignQueues | src/utils/liftController.ts:58-64 | dispatch only adds stops, and the dispatched request, if given a lift, has its floor among that lift's stops |
| Consistency.AssignStops | src/utils/liftController.ts:58-64 | dispatching an unassigned request leaves a request behind every stop |
| Consistency.AssignKeeps | src/utils/liftController.ts:36-67 | the three dispatch facts above together: requests kept, stops only added, a request behind every stop |
| Consistency.ExternalKeepsConsistent | src/utils/liftController.ts:31-34 | a request arriving unassigned keeps the ledger and queues in agreement |
| Consistency.WithStopQueued | src/utils/liftController.ts:140-152 | adding a stop with a request assigned for it keeps every assigned request queued |
| Consistency.WithStopStops | src/utils/liftController.ts:140-152 | adding a stop with a request assigned for it keeps a request behind every stop |
| Consistency.AcceptedKeepsConsistent | src/utils/liftController.ts:139-153 | an accepted in-car request keeps the agreement |
| Consistency.InternalKeepsConsistent | src/utils/liftController.ts:137-154 | every in-car request keeps the agreement |
| Consistency.StepOneQueued | src/utils/liftController.ts:92-101 | one lift's tick leaves every assigned request queued: the stop it drops is the floor of exactly the requests it completes |
| Consistency.StepOneStops | src/utils/liftController.ts:92-106 | one lift's tick leaves a request behind every stop: the stops it keeps lie above the floor served, so their requests stay open |
| Consistency.PartialConsistent | src/utils/liftController.ts:70-113 | after any prefix of the per-lift loop the agreement holds |
| Consistency.TickKeepsConsistent | src/utils/liftController.ts:69-114 | a whole tick keeps the agreement |
| Consistency.ResetStops | src/utils/liftController.ts:129-130 | resetting a request of the faulted lift leaves a request behind every stop |
| Consistency.ReassignKeeps | src/utils/liftController.ts:129-131 | re-dispatching one request of the faulted lift keeps the agreement for every other lift |
| Consistency.ReassignAllKeeps | src/utils/liftController.ts:128-132 | re-dispatching all its requests in turn keeps that agreement |
| Consistency.RepairKeepsConsistent | src/utils/liftController.ts:119 | repair keeps the registry invariant and the agreement |
| Consistency.FaultKeepsConsistent | src/utils/liftController.ts:119-133 | entering fault keeps the registry invariant and the agreement |
| Consistency.ToggleKeepsConsistent | src/utils/liftController.ts:116-135 | the fault switch keeps both |
| Consistency.ApplyKeeps | src/utils/liftController.ts:31-154 | every operation keeps both, provided an external request arrives unassigned |
| Consistency.RunKeepsInvariants | src/utils/liftController.ts:31-154 | any sequence of operations whose external requests arrive unassigned keeps both |
| Consistency.Reachable | src/utils/liftController.ts:7-154 | in every state reached from creation, queues are strictly ascending, faulted lifts have no stops, and every assigned request names a working lift that has its floor queued |
| Consistency.TicksLifts | src/utils/liftController.ts:70-113 | across ticks each lift evolves on its own |
| Consistency.TicksKeepInvariants | src/utils/liftController.ts:69-114 | repeated ticks keep the registry invariant and the agreement |
| Consistency.EmptyStaysEmpty | src/utils/liftController.ts:76-80 | a lift with no stops gets none by ticking |
| Consistency.EmptyAfterNeeded | src/utils/liftController.ts:76-111 | a well-formed lift has no stops after the ticks its queue needs |
| Consistency.MostNeeded | src/utils/liftController.ts:70 | the largest number of ticks any lift of the bank needs, attained by some lift |
| Consistency.AllServed | src/utils/liftController.ts:69-114 | left alone for that many ticks, every queue is empty and no request is left assigned: each was completed or is pending |
| Scenarios.EnqueueEmpty | src/utils/liftController.ts:61-64 | a stop pushed onto an empty queue is its only stop |
| Scenarios.EnqueueAbove | src/utils/liftController.ts:61-64 | a stop above every queued stop joins at the end |
| Scenarios.CallAssigned | src/utils/liftController.ts:31-64 | one lift at floor 5 takes a call from floor 0 and queues exactly floor 0 |
| Scenarios.CallTravels | src/utils/liftController.ts:82-91 | five ticks bring it to floor 0, still moving down, with the call still assigned |
| Scenarios.CallServed | src/utils/liftController.ts:92-111 | the sixth tick serves floor 0, the lift goes idle, and the call, by then 6000 ms old, is purged in that tick |
| Scenarios.CallServedEarly | src/utils/liftController.ts:92-111 | served less than 5000 ms after it was made, the call stays in the ledger as completed |
| Scenarios.EqualDistanceFirstWins | src/utils/liftController.ts:54-55 | of two lifts equally far from the call, the first in the registry is chosen, whichever side it is on |
| Scenarios.UnequalDistanceNearerWins | src/utils/liftController.ts:48-55 | lifts at floors 0 and 9 are not equally far from floor 4, and the nearer one is chosen wherever it is in the registry |
| Scenarios.FaultedPassedOver | src/utils/liftController.ts:38-45 | a faulted lift is passed over however near, and a bank with no working lift dispatches nothing |
| Scenarios.FaultHandsCallsOver | src/utils/liftController.ts:116-133 | a lift with calls for floors 3 and 7 enters fault; its stops go and both calls move, in order, to the other lift, whose queue becomes [3, 7] |
| Scenarios.HandsOver | src/utils/liftController.ts:116-133 | for any two calls held by lift 1, the lower first, and any idle working lift 2 with no stops: the switch hands both calls to lift 2 in ledger order and its queue becomes the two floors |
| Scenarios.NobodyLeft | src/utils/liftController.ts:116-133 | for any two calls held by lift 1 and a lift 2 that cannot take a call: the switch leaves both calls pending with no lift and lift 2 unchanged |
| Scenarios.FaultLeavesCallsPending | src/utils/liftController.ts:116-133 | with no other working lift, both calls are left pending with no lift |
| Scenarios.RetentionBoundary | src/utils/liftController.ts:104-106 | a completed request 4999 ms old survives the cleanup, one 5000 ms old is purged, and an assigned request is never purged |
| Scenarios.InCarButtonTwice | src/utils/liftController.ts:137-153 | the same in-car button pressed twice adds one stop and one request |

## Behaviours of the code worth knowing

- A lift at floor 5 with a call from floor 0 reaches floor 0 after five ticks, still moving down. One might expect it to be idle with the call completed at that point. The arrival is only recognised on the next tick, because a tick either moves the lift or serves the floor it stands on, never both. So serving the call takes a sixth tick (`Scenarios.CallTravels`, `Scenarios.CallServed`).
- Lifts at floors 0 and 9 with a call at floor 4 are not a tie, although they may look like one: the distances are 4 and 5, and the lift at floor 0 wins wherever it stands in the registry. A real tie, lifts at floors 0 and 8, goes to the first lift in the registry (`Scenarios.EqualDistanceFirstWins`, `Scenarios.UnequalDistanceNearerWins`).
- Retention is measured from a request's creation timestamp, not from its completion. A call served at least 5000 ms after it was made is purged in the same tick that completes it, so the ledger never shows it completed (`Properties.LongWaitPurgedOnCompletion`). With ticks one second apart, a call whose lift needs six or more ticks to serve it is one such call (`Scenarios.CallServed`); one served sooner stays in the ledger as completed (`Scenarios.CallServedEarly`).
- A request that finds no eligible lift stays pending, and nothing ever dispatches it again. No tick retries it, and the re-dispatch after a fault only takes the requests assigned to the lift entering fault (`Properties.EnteringFault`: other requests are unchanged). The same holds for a request released by a fault while no lift could take it. So `Consistency.AllServed` says that each request is completed or pending, not that each is served.
- Repairing a lift does not restore the stops it lost (`Properties.Repair`).
- A lift always heads for the lowest floor in its queue, not the nearest (`Engine.Step`).

## Left out

- `getLifts` and `getRequests` hand out the controller's own arrays, which a caller could mutate. They are modelled as the pure read `State()`, and such outside mutation is not modelled.
- `addRequest` stores the caller's request object, and later updates to status and lift id are visible through the caller's reference. The model stores a value, so that aliasing is not captured.
- `console.log` diagnostics are left out.
- `Math.random()` is the parameter `draws`. The start floor is computed as `Floor(draw * numFloors)` over exact reals, so floating-point rounding of the product is not modelled.
- `Date.now()` is the parameter `now`. The source reads the clock once per request inside the cleanup filter. The model uses one reading for the whole tick, so a clock advancing during one filter pass is not modelled.
- The generated id of an in-car request is the parameter `reqId`.
- JavaScript numbers are modelled as unbounded integers. Floors, ids and timestamps are integral in all uses, and no overflow is modelled.
- The `setInterval` timer that drives ticks, the React components, toasts, the statistics (including the floating-point average wait) and the page reload are outside the controller and not modelled.
- Consistency.Reachable: assumes every external request arrives unassigned, as the floor panels create it. `addRequest` accepts any request object. One that arrives already assigned while no lift is eligible keeps its stale lift id, and the agreement between ledger and queues is then not guaranteed.
- Consistency.ExternalKeepsConsistent: needs the same assumption for the same reason.
- Consistency.RunKeepsInvariants: needs the same assumption for the same reason.
