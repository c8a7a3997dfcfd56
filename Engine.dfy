/** The controller's operations as functions from one state of the lift bank
    and its request ledger to the next. The class `LiftController` performs
    each of them in place, step by step, and its methods are proved to reach
    exactly the state these functions describe. */
module Engine {
  import opened LiftTypes
  import opened StopQueue
  import opened Dispatch
  import opened Ledger

  /** The controller's state: the lift registry and the request ledger. */
  datatype System = System(lifts: seq<Lift>, requests: seq<Request>)

  /** The registry invariant: the lift at position i has id i + 1, and
      every lift is well formed. */
  predicate ValidSystem(s: System)
  {
    forall i :: 0 <= i < |s.lifts| ==> s.lifts[i].id == i + 1 && WellFormed(s.lifts[i])
  }

  // ---------------------------------------------------------------------
  // Initialisation

  /** The start floor drawn for a lift: `draw` plays the part of the random
      number in [0, 1) that scales the number of floors. */
  function StartFloor(draw: real, numFloors: nat): (f: int)
    requires 0.0 <= draw < 1.0
    ensures 0 <= f
    ensures numFloors > 0 ==> f < numFloors
    ensures numFloors == 0 ==> f == 0
  {
    var x := Scaled(draw, numFloors);
    assert x.Floor as real <= x < x.Floor as real + 1.0;
    x.Floor
  }

  /** A draw in [0, 1) times n: in [0, n], and below n when n is positive. */
  function Scaled(draw: real, n: nat): (x: real)
    requires 0.0 <= draw < 1.0
    ensures 0.0 <= x <= n as real
    ensures 0 < n ==> x < n as real
  {
    var gap := (1.0 - draw) * n as real;
    assert draw * n as real == n as real - gap;
    assert 0 < n ==> 0.0 < gap;
    draw * n as real
  }

  /** The registry as created: one lift per draw, ids 1 to numLifts in order,
      each idle with no stops, capacity 8 and no load. */
  function InitialLifts(numLifts: nat, numFloors: nat, draws: seq<real>): (r: seq<Lift>)
    requires |draws| == numLifts
    requires forall i :: 0 <= i < |draws| ==> 0.0 <= draws[i] < 1.0
    ensures |r| == numLifts
    ensures ValidSystem(System(r, []))
    ensures forall i :: 0 <= i < numLifts ==>
      r[i].id == i + 1 && r[i].targetFloors == [] &&
      r[i].status == LiftStatus.Idle && r[i].direction == Direction.Idle &&
      r[i].capacity == LiftCapacity && r[i].currentLoad == 0
    ensures forall i :: 0 <= i < numLifts ==>
      0 <= r[i].currentFloor && (numFloors > 0 ==> r[i].currentFloor < numFloors)
  {
    seq(numLifts, i requires 0 <= i < numLifts =>
      Lift(i + 1, StartFloor(draws[i], numFloors), [], LiftStatus.Idle, Direction.Idle, LiftCapacity, 0))
  }

  // ---------------------------------------------------------------------
  // Lookup

  /** Position of the first lift with the given id, or None. */
  function IndexOf(lifts: seq<Lift>, id: int): (r: Option<nat>)
    ensures r.Some? ==> r.value < |lifts| && lifts[r.value].id == id
    ensures r.Some? ==> forall j :: 0 <= j < r.value ==> lifts[j].id != id
    ensures r.None? ==> forall j :: 0 <= j < |lifts| ==> lifts[j].id != id
  {
    if lifts == [] then None
    else if lifts[0].id == id then Some(0)
    else
      assert forall j :: 1 <= j < |lifts| ==> lifts[j] == lifts[1..][j - 1];
      match IndexOf(lifts[1..], id)
      case None => None
      case Some(j) => Some(j + 1)
  }

  /** In a valid registry the lift with id `id` sits at position `id - 1`. */
  lemma IndexOfValid(s: System, id: int)
    requires ValidSystem(s)
    ensures IndexOf(s.lifts, id) == if 1 <= id <= |s.lifts| then Some(id - 1) else None
  {
    if 1 <= id <= |s.lifts| {
      assert s.lifts[id - 1].id == id;
    }
  }

  // ---------------------------------------------------------------------
  // Dispatch

  /** Dispatching the request at position k: when some lift is eligible, the
      request is assigned to the nearest one (the earliest of equally near
      ones) and its floor joins that lift's stops; otherwise nothing changes. */
  function Assign(s: System, k: nat): (r: System)
    requires k < |s.requests|
    ensures |r.lifts| == |s.lifts| && |r.requests| == |s.requests|
    ensures ValidSystem(s) ==> ValidSystem(r)
  {
    var q := s.requests[k];
    match Nearest(s.lifts, q.floor)
    case None => s
    case Some(c) =>
      var l := s.lifts[c];
      System(s.lifts[c := l.(targetFloors := Enqueue(l.targetFloors, q.floor))],
             s.requests[k := q.(liftId := Some(l.id), status := Assigned)])
  }

  /** What dispatching does: with no eligible lift nothing changes;
      otherwise the request becomes assigned to a nearest eligible lift,
      whose queue gains its floor, and every other request and lift is
      unchanged. */
  lemma AssignSpec(s: System, k: nat)
    requires k < |s.requests|
    ensures var r := Assign(s, k);
      (forall j :: 0 <= j < |s.requests| && j != k ==> r.requests[j] == s.requests[j]) &&
      ((forall i :: 0 <= i < |s.lifts| ==> !Eligible(s.lifts[i])) ==> r == s) &&
      ((exists i :: 0 <= i < |s.lifts| && Eligible(s.lifts[i])) ==>
         r.requests[k] == s.requests[k].(status := Assigned, liftId := r.requests[k].liftId) &&
         exists c :: IsNearest(s.lifts, s.requests[k].floor, c) &&
           r.requests[k].liftId == Some(s.lifts[c].id) &&
           s.requests[k].floor in r.lifts[c].targetFloors) &&
      (forall i :: 0 <= i < |s.lifts| ==>
         r.lifts[i] == s.lifts[i] ||
         (IsNearest(s.lifts, s.requests[k].floor, i) &&
          r.lifts[i] == s.lifts[i].(targetFloors := Enqueue(s.lifts[i].targetFloors, s.requests[k].floor))))
  {
    var q := s.requests[k];
    match Nearest(s.lifts, q.floor)
    case None =>
    case Some(c) =>
      assert s.lifts[c].(targetFloors := Enqueue(s.lifts[c].targetFloors, q.floor)).targetFloors ==
        Enqueue(s.lifts[c].targetFloors, q.floor);
  }

  /** An external request: appended to the ledger, then dispatched. */
  function AddExternal(s: System, q: Request): (r: System)
    ensures |r.lifts| == |s.lifts| && |r.requests| == |s.requests| + 1
    ensures r.requests[..|s.requests|] == s.requests
    ensures r.requests[|s.requests|] == q.(status := r.requests[|s.requests|].status,
                                           liftId := r.requests[|s.requests|].liftId)
    ensures (exists i :: 0 <= i < |s.lifts| && Eligible(s.lifts[i])) ==>
      r.requests[|s.requests|].status == Assigned
    ensures (forall i :: 0 <= i < |s.lifts| ==> !Eligible(s.lifts[i])) ==>
      r == System(s.lifts, s.requests + [q])
    ensures ValidSystem(s) ==> ValidSystem(r)
  {
    var r := Assign(System(s.lifts, s.requests + [q]), |s.requests|);
    assert forall j :: 0 <= j < |s.requests| ==> r.requests[j] == (s.requests + [q])[j];
    r
  }

  // ---------------------------------------------------------------------
  // Internal requests

  /** The in-car button is accepted: the lift exists, is not faulted and
      does not already have the floor among its stops. */
  predicate Accepts(s: System, liftId: int, floor: int)
  {
    IndexOf(s.lifts, liftId).Some? &&
    s.lifts[IndexOf(s.lifts, liftId).value].status != Fault &&
    floor !in s.lifts[IndexOf(s.lifts, liftId).value].targetFloors
  }

  /** A button pressed inside lift `liftId`: when accepted, the floor joins
      that lift's stops and an internal request, already assigned to the
      lift, is appended to the ledger; otherwise nothing changes. `reqId` and
      `now` stand for the generated id and the clock reading. */
  function AddInternal(s: System, liftId: int, floor: int, reqId: string, now: int): (r: System)
    ensures !Accepts(s, liftId, floor) ==> r == s
    ensures Accepts(s, liftId, floor) ==>
      var i := IndexOf(s.lifts, liftId).value;
      |r.lifts| == |s.lifts| &&
      (forall j :: 0 <= j < |s.lifts| && j != i ==> r.lifts[j] == s.lifts[j]) &&
      r.lifts[i] == s.lifts[i].(targetFloors := r.lifts[i].targetFloors) &&
      (forall y :: y in r.lifts[i].targetFloors <==> y in s.lifts[i].targetFloors || y == floor) &&
      |r.lifts[i].targetFloors| == |s.lifts[i].targetFloors| + 1 &&
      r.requests == s.requests + [Request(reqId, floor, None, now, true, Some(liftId), Assigned)]
    ensures ValidSystem(s) ==> ValidSystem(r)
  {
    if !Accepts(s, liftId, floor) then s
    else
      var i := IndexOf(s.lifts, liftId).value;
      var l := s.lifts[i];
      System(s.lifts[i := l.(targetFloors := Enqueue(l.targetFloors, floor))],
             s.requests + [Request(reqId, floor, None, now, true, Some(liftId), Assigned)])
  }

  // ---------------------------------------------------------------------
  // The tick

  /** The lift is serving a floor this tick: it is not faulted and stands at
      the first of its stops. */
  predicate Arrives(l: Lift)
  {
    l.status != Fault && l.targetFloors != [] && l.currentFloor == l.targetFloors[0]
  }

  /** One tick of one lift: a faulted lift is frozen; a lift without stops
      becomes idle; otherwise it moves one floor toward its first stop, or,
      standing there, drops that stop (becoming idle if none are left). */
  function Step(l: Lift): (r: Lift)
    ensures r.id == l.id && r.capacity == l.capacity && r.currentLoad == l.currentLoad
    ensures l.status == Fault ==> r == l
    ensures l.status != Fault ==> r.status != Fault
    ensures r.currentFloor == l.currentFloor ||
      (l.targetFloors != [] && r.targetFloors == l.targetFloors &&
       Distance(r.currentFloor, l.currentFloor) == 1 &&
       Distance(r.currentFloor, l.targetFloors[0]) + 1 == Distance(l.currentFloor, l.targetFloors[0]))
    ensures r.currentFloor == l.currentFloor + 1 ==> r.status == MovingUp && r.direction == Up
    ensures r.currentFloor == l.currentFloor - 1 ==> r.status == MovingDown && r.direction == Down
    ensures Arrives(l) ==> r.currentFloor == l.currentFloor && r.targetFloors == l.targetFloors[1..]
    ensures !Arrives(l) ==> r.targetFloors == l.targetFloors
    ensures l.status != Fault && r.targetFloors == [] ==> r.status == LiftStatus.Idle && r.direction == Direction.Idle
    ensures WellFormed(l) ==> WellFormed(r)
  {
    if l.status == Fault then l
    else if l.targetFloors == [] then l.(status := LiftStatus.Idle, direction := Direction.Idle)
    else
      var next := l.targetFloors[0];
      if l.currentFloor < next then
        l.(currentFloor := l.currentFloor + 1, status := MovingUp, direction := Up)
      else if l.currentFloor > next then
        l.(currentFloor := l.currentFloor - 1, status := MovingDown, direction := Down)
      else
        var rest := l.targetFloors[1..];
        if rest == [] then l.(targetFloors := rest, status := LiftStatus.Idle, direction := Direction.Idle)
        else l.(targetFloors := rest)
  }

  /** The ledger after lift `l` has had its tick: when it serves a floor,
      the requests it completes there are marked and the cleanup pass runs. */
  function Service(rs: seq<Request>, l: Lift, now: int): seq<Request>
  {
    if Arrives(l) then Cleanup(MarkCompleted(rs, l.id, l.currentFloor), now) else rs
  }

  /** The ledger after the lifts `ls` have had their ticks, in order. */
  function ServiceAll(ls: seq<Lift>, rs: seq<Request>, now: int): seq<Request>
  {
    if ls == [] then rs
    else Service(ServiceAll(ls[..|ls| - 1], rs, now), ls[|ls| - 1], now)
  }

  /** The ledger after one more lift's tick. */
  lemma ServiceAllNext(ls: seq<Lift>, rs: seq<Request>, now: int, i: nat)
    requires i < |ls|
    ensures ServiceAll(ls[..i + 1], rs, now) == Service(ServiceAll(ls[..i], rs, now), ls[i], now)
  {
    assert ls[..i + 1][..i] == ls[..i];
  }

  /** One tick of the whole bank at clock reading `now`. */
  function Tick(s: System, now: int): (r: System)
    ensures |r.lifts| == |s.lifts|
    ensures forall i :: 0 <= i < |s.lifts| ==> r.lifts[i] == Step(s.lifts[i])
    ensures ValidSystem(s) ==> ValidSystem(r)
  {
    System(seq(|s.lifts|, i requires 0 <= i < |s.lifts| => Step(s.lifts[i])),
           ServiceAll(s.lifts, s.requests, now))
  }

  // ---------------------------------------------------------------------
  // Faults

  /** The request at position k loses its lift and is dispatched afresh. */
  function Reassign(s: System, k: nat): (r: System)
    requires k < |s.requests|
    ensures |r.lifts| == |s.lifts| && |r.requests| == |s.requests|
  {
    Assign(s.(requests := s.requests[k := s.requests[k].(status := Pending, liftId := None)]), k)
  }

  /** The requests at positions `ks`, in that order, are dispatched afresh. */
  function ReassignAll(s: System, ks: seq<nat>): (r: System)
    requires forall i :: 0 <= i < |ks| ==> ks[i] < |s.requests|
    ensures |r.lifts| == |s.lifts| && |r.requests| == |s.requests|
    decreases |ks|
  {
    if ks == [] then s else ReassignAll(Reassign(s, ks[0]), ks[1..])
  }

  /** The fault switch of lift `liftId`: unknown ids change nothing; a
      faulted lift is repaired to idle; any other lift enters fault, drops
      its stops, and the requests assigned to it are dispatched afresh. */
  function ToggleFault(s: System, liftId: int): (r: System)
    ensures |r.lifts| == |s.lifts| && |r.requests| == |s.requests|
    ensures IndexOf(s.lifts, liftId).None? ==> r == s
    ensures IndexOf(s.lifts, liftId).Some? && s.lifts[IndexOf(s.lifts, liftId).value].status == Fault ==>
      var i := IndexOf(s.lifts, liftId).value;
      r == s.(lifts := s.lifts[i := s.lifts[i].(status := LiftStatus.Idle)])
  {
    match IndexOf(s.lifts, liftId)
    case None => s
    case Some(i) =>
      var l := s.lifts[i];
      if l.status == Fault then s.(lifts := s.lifts[i := l.(status := LiftStatus.Idle)])
      else Faulted(s, i)
  }

  /** The lift at position i enters fault: frozen where it is, with no stops
      and no heading; the ledger is as it was. */
  function Frozen(s: System, i: nat): System
    requires i < |s.lifts|
  {
    System(s.lifts[i := s.lifts[i].(status := Fault, targetFloors := [], direction := Direction.Idle)], s.requests)
  }

  /** The lift at position i enters fault, and the requests assigned to it
      are dispatched afresh, in ledger order. */
  function Faulted(s: System, i: nat): System
    requires i < |s.lifts|
  {
    ReassignAll(Frozen(s, i), Affected(s.requests, s.lifts[i].id))
  }
}
