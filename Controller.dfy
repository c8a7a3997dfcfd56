/** The lift controller as the system has it: one object owning the lift
    registry and the request ledger, whose operations update both in place.
    Each method follows the original statement by statement and is proved to
    produce the state that the matching `Engine` function describes; the
    properties of those functions are proved in `Properties`.

    The clock, the random source and the id generator are parameters:
    `draws` for the random numbers that place the lifts, `now` for the clock
    reading, `reqId` for a generated request id. */
module Controller {
  import opened LiftTypes
  import opened StopQueue
  import opened Dispatch
  import opened Ledger
  import opened Engine

  class LiftController {
    var lifts: seq<Lift>
    var requests: seq<Request>

    /** The registry and the ledger as one value. Both fields hold values,
        so what a caller reads is a copy that cannot alias the controller. */
    function State(): System
      reads this
    {
      System(lifts, requests)
    }

    ghost predicate Valid()
      reads this
    {
      ValidSystem(State())
    }

    /** Creates `numLifts` lifts, the i-th placed at the floor that
        `draws[i]` selects among `numFloors`, and an empty ledger. */
    constructor (numLifts: nat, numFloors: nat, draws: seq<real>)
      requires |draws| == numLifts
      requires forall i :: 0 <= i < |draws| ==> 0.0 <= draws[i] < 1.0
      ensures Valid()
      ensures lifts == InitialLifts(numLifts, numFloors, draws) && requests == []
    {
      lifts := InitialLifts(numLifts, numFloors, draws);
      requests := [];
    }

    /** Records an external request and dispatches it. */
    method AddRequest(request: Request)
      requires Valid()
      modifies this
      ensures State() == AddExternal(old(State()), request)
      ensures Valid()
    {
      requests := requests + [request];
      AssignLift(|requests| - 1);
    }

    /** Dispatches the request at position k of the ledger. */
    method AssignLift(k: nat)
      requires Valid()
      requires k < |requests|
      modifies this
      ensures State() == Assign(old(State()), k)
      ensures Valid()
    {
      var request := requests[k];
      var nearest := Nearest(lifts, request.floor);
      if nearest.None? {
        return;
      }
      var c := nearest.value;
      var lift := lifts[c];
      requests := requests[k := request.(liftId := Some(lift.id), status := Assigned)];
      if request.floor !in lift.targetFloors {
        lifts := lifts[c := lift.(targetFloors := SortAscending(lift.targetFloors + [request.floor]))];
      }
    }

    /** Marks completed every request assigned to lift `liftId` for `floor`. */
    method CompleteMatching(liftId: int, floor: int)
      modifies this
      ensures lifts == old(lifts)
      ensures requests == MarkCompleted(old(requests), liftId, floor)
    {
      var j := 0;
      while j < |requests|
        invariant 0 <= j <= |requests| == |old(requests)|
        invariant lifts == old(lifts)
        invariant forall m :: 0 <= m < j ==> requests[m] == MarkCompleted(old(requests), liftId, floor)[m]
        invariant forall m :: j <= m < |requests| ==> requests[m] == old(requests)[m]
      {
        var req := requests[j];
        if req.liftId == Some(liftId) && req.floor == floor && req.status == Assigned {
          requests := requests[j := req.(status := Completed)];
        }
        j := j + 1;
      }
    }

    /** The tick of the lift at position i, as the loop of
        `UpdateLiftPositions` runs it for each lift. */
    method MoveLift(i: nat, now: int)
      requires i < |lifts|
      modifies this
      ensures lifts == old(lifts)[i := Step(old(lifts)[i])]
      ensures requests == Service(old(requests), old(lifts)[i], now)
    {
      var lift := lifts[i];
      if lift.status == Fault {
        return;
      }
      if lift.targetFloors == [] {
        lifts := lifts[i := lift.(status := LiftStatus.Idle, direction := Direction.Idle)];
        return;
      }
      var nextTarget := lift.targetFloors[0];
      if lift.currentFloor < nextTarget {
        lifts := lifts[i := lift.(currentFloor := lift.currentFloor + 1, status := MovingUp, direction := Up)];
      } else if lift.currentFloor > nextTarget {
        lifts := lifts[i := lift.(currentFloor := lift.currentFloor - 1, status := MovingDown, direction := Down)];
      } else {
        lift := lift.(targetFloors := lift.targetFloors[1..]);
        CompleteMatching(lift.id, lift.currentFloor);
        requests := Cleanup(requests, now);
        if lift.targetFloors == [] {
          lift := lift.(status := LiftStatus.Idle, direction := Direction.Idle);
        }
        lifts := lifts[i := lift];
      }
    }

    /** One simulation tick at clock reading `now`: every lift, in registry
        order, has its tick. */
    method UpdateLiftPositions(now: int)
      requires Valid()
      modifies this
      ensures State() == Tick(old(State()), now)
      ensures Valid()
    {
      ghost var start := lifts;
      var i := 0;
      while i < |lifts|
        invariant 0 <= i <= |lifts| == |start|
        invariant forall m :: 0 <= m < i ==> lifts[m] == Step(start[m])
        invariant forall m :: i <= m < |lifts| ==> lifts[m] == start[m]
        invariant requests == ServiceAll(start[..i], old(requests), now)
      {
        ServiceAllNext(start, old(requests), now, i);
        MoveLift(i, now);
        i := i + 1;
      }
      assert start[..i] == start;
      assert lifts == Tick(old(State()), now).lifts;
    }

    /** Resets and dispatches afresh, in order, the requests at positions
        `ks`, as the loop over the affected requests of `ToggleLiftFault`
        does. */
    method RedispatchEach(ks: seq<nat>)
      requires Valid()
      requires forall m :: 0 <= m < |ks| ==> ks[m] < |requests|
      modifies this
      ensures State() == ReassignAll(old(State()), ks)
      ensures Valid()
    {
      var j := 0;
      while j < |ks|
        invariant 0 <= j <= |ks|
        invariant |requests| == |old(requests)|
        invariant Valid()
        invariant ReassignAll(State(), ks[j..]) == ReassignAll(old(State()), ks)
      {
        var k := ks[j];
        ghost var before := State();
        requests := requests[k := requests[k].(status := Pending, liftId := None)];
        AssignLift(k);
        assert State() == Reassign(before, k);
        assert ks[j..][0] == k && ks[j..][1..] == ks[j + 1..];
        j := j + 1;
      }
      assert ks[j..] == [];
    }

    /** Flips the fault state of lift `liftId`. */
    method ToggleLiftFault(liftId: int)
      requires Valid()
      modifies this
      ensures State() == ToggleFault(old(State()), liftId)
      ensures Valid()
    {
      var found := IndexOf(lifts, liftId);
      if found.Some? {
        var i := found.value;
        var lift := lifts[i];
        var status := if lift.status == Fault then LiftStatus.Idle else Fault;
        lifts := lifts[i := lift.(status := status)];
        if status == Fault {
          lifts := lifts[i := lifts[i].(targetFloors := [], direction := Direction.Idle)];
          assert lifts == old(lifts)[i := lift.(status := Fault, targetFloors := [], direction := Direction.Idle)];
          var affected := Affected(requests, liftId);
          RedispatchEach(affected);
        }
      }
    }

    /** A button pressed inside lift `liftId` for `targetFloor`; `reqId` and
        `now` stand for the generated id and the clock reading. */
    method AddInternalRequest(liftId: int, targetFloor: int, reqId: string, now: int)
      requires Valid()
      modifies this
      ensures State() == AddInternal(old(State()), liftId, targetFloor, reqId, now)
      ensures Valid()
    {
      var found := IndexOf(lifts, liftId);
      if found.Some? && lifts[found.value].status != Fault && targetFloor !in lifts[found.value].targetFloors {
        var i := found.value;
        var lift := lifts[i];
        lifts := lifts[i := lift.(targetFloors := SortAscending(lift.targetFloors + [targetFloor]))];
        var request := Request(reqId, targetFloor, None, now, true, Some(liftId), Assigned);
        requests := requests + [request];
      }
    }
  }
}
