/** The ledger and the stop queues agree: every assigned request has its
    floor among the stops of the lift it names, and every stop of a lift is
    there for some request assigned to that lift. Every operation keeps this,
    so it holds in every state the controller reaches from its creation,
    provided external requests arrive unassigned, as the floor panels create
    them (src/pages/Index.tsx:68-75). */
module Consistency {
  import opened LiftTypes
  import opened StopQueue
  import opened Dispatch
  import opened Ledger
  import opened Engine
  import opened Properties

  /** An assigned request names a lift that has its floor among its stops. */
  predicate Queued(lifts: seq<Lift>, q: Request)
  {
    q.status == Assigned ==>
      q.liftId.Some? && 1 <= q.liftId.value <= |lifts| &&
      q.floor in lifts[q.liftId.value - 1].targetFloors
  }

  /** Every stop of every lift is there for a request assigned to that lift. */
  predicate StopsRequested(s: System)
  {
    forall i, f :: 0 <= i < |s.lifts| && f in s.lifts[i].targetFloors ==>
      exists q :: q in s.requests && Matches(q, i + 1, f)
  }

  predicate Consistent(s: System)
  {
    (forall q :: q in s.requests ==> Queued(s.lifts, q)) && StopsRequested(s)
  }

  /** An assigned request stays queued when every lift keeps its stops. */
  lemma QueuedGrows(a: seq<Lift>, b: seq<Lift>, q: Request)
    requires StopsGrow(a, b) && Queued(a, q)
    ensures Queued(b, q)
  {
  }

  // ---------------------------------------------------------------------
  // Dispatch

  /** Dispatching keeps every request of the ledger but the one dispatched. */
  lemma AssignMembers(s: System, k: nat)
    requires k < |s.requests|
    ensures forall q :: q in Assign(s, k).requests ==> q in s.requests || q == Assign(s, k).requests[k]
  {
    var r := Assign(s, k);
    forall p | p in r.requests ensures p in s.requests || p == r.requests[k] {
      var m :| 0 <= m < |r.requests| && r.requests[m] == p;
      if m != k {
        assert s.requests[m] == p;
      }
    }
  }

  /** Dispatching only adds stops, and the dispatched request, when it gets
      a lift, has its floor among that lift's stops. */
  lemma AssignQueues(s: System, k: nat)
    requires ValidSystem(s) && k < |s.requests|
    ensures StopsGrow(s.lifts, Assign(s, k).lifts)
    ensures Queued(Assign(s, k).lifts, Assign(s, k).requests[k]) || Assign(s, k).requests[k] == s.requests[k]
  {
    var q := s.requests[k];
    match Nearest(s.lifts, q.floor)
    case None =>
    case Some(c) =>
      assert s.lifts[c].id == c + 1;
  }

  /** Dispatching an unassigned request: every stop keeps a request behind it. */
  lemma AssignStops(s: System, k: nat)
    requires ValidSystem(s) && StopsRequested(s)
    requires k < |s.requests| && s.requests[k].status != Assigned
    ensures StopsRequested(Assign(s, k))
  {
    var q := s.requests[k];
    match Nearest(s.lifts, q.floor)
    case None =>
    case Some(c) =>
      assert s.lifts[c].id == c + 1;
      assert Assign(s, k) ==
        System(s.lifts[c := s.lifts[c].(targetFloors := Enqueue(s.lifts[c].targetFloors, q.floor))],
               s.requests[k := q.(liftId := Some(c + 1), status := Assigned)]);
      GivenStops(s, k, c);
  }

  /** Handing the unassigned request at position k to the lift at position c
      and queueing its floor there keeps a request behind every stop. */
  lemma GivenStops(s: System, k: nat, c: nat)
    requires StopsRequested(s)
    requires k < |s.requests| && s.requests[k].status != Assigned && c < |s.lifts|
    ensures var q := s.requests[k];
      StopsRequested(System(s.lifts[c := s.lifts[c].(targetFloors := Enqueue(s.lifts[c].targetFloors, q.floor))],
                            s.requests[k := q.(liftId := Some(c + 1), status := Assigned)]))
  {
    var q := s.requests[k];
    var r := System(s.lifts[c := s.lifts[c].(targetFloors := Enqueue(s.lifts[c].targetFloors, q.floor))],
                    s.requests[k := q.(liftId := Some(c + 1), status := Assigned)]);
    forall j, f | 0 <= j < |r.lifts| && f in r.lifts[j].targetFloors
      ensures exists p :: p in r.requests && Matches(p, j + 1, f)
    {
      if f in s.lifts[j].targetFloors {
        var p :| p in s.requests && Matches(p, j + 1, f);
        var m :| 0 <= m < |s.requests| && s.requests[m] == p;
        assert m != k;
        assert r.requests[m] == p;
        assert p in r.requests;
      } else {
        assert j == c && f == q.floor;
        assert r.requests[k] in r.requests && Matches(r.requests[k], j + 1, f);
      }
    }
  }

  /** Dispatching an unassigned request adds its floor to the stops of the
      lift it gets, and every stop keeps a request behind it. */
  lemma AssignKeeps(s: System, k: nat)
    requires ValidSystem(s) && StopsRequested(s)
    requires k < |s.requests| && s.requests[k].status != Assigned
    ensures StopsRequested(Assign(s, k))
    ensures StopsGrow(s.lifts, Assign(s, k).lifts)
    ensures Queued(Assign(s, k).lifts, Assign(s, k).requests[k])
    ensures forall q :: q in Assign(s, k).requests ==> q in s.requests || q == Assign(s, k).requests[k]
  {
    AssignMembers(s, k);
    AssignQueues(s, k);
    AssignStops(s, k);
  }

  /** An external request, created unassigned, keeps the state consistent. */
  lemma ExternalKeepsConsistent(s: System, q: Request)
    requires ValidSystem(s) && Consistent(s)
    requires q.status != Assigned
    ensures Consistent(AddExternal(s, q))
  {
    var s1 := System(s.lifts, s.requests + [q]);
    forall i, f | 0 <= i < |s1.lifts| && f in s1.lifts[i].targetFloors
      ensures exists p :: p in s1.requests && Matches(p, i + 1, f)
    {
      var p :| p in s.requests && Matches(p, i + 1, f);
      assert p in s1.requests;
    }
    AssignKeeps(s1, |s.requests|);
    var r := AddExternal(s, q);
    forall p | p in r.requests ensures Queued(r.lifts, p) {
      if p != r.requests[|s.requests|] {
        assert p in s1.requests;
        QueuedGrows(s.lifts, r.lifts, p);
      }
    }
  }

  // ---------------------------------------------------------------------
  // In-car requests

  /** A stop added to the lift at position i together with a request
      assigned to that lift for that floor. */
  function WithStop(s: System, i: nat, added: Request): System
    requires i < |s.lifts|
  {
    System(s.lifts[i := s.lifts[i].(targetFloors := Enqueue(s.lifts[i].targetFloors, added.floor))],
           s.requests + [added])
  }

  lemma WithStopQueued(s: System, i: nat, added: Request)
    requires i < |s.lifts| && Matches(added, i + 1, added.floor)
    requires forall q :: q in s.requests ==> Queued(s.lifts, q)
    ensures forall q :: q in WithStop(s, i, added).requests ==> Queued(WithStop(s, i, added).lifts, q)
  {
    var r := WithStop(s, i, added);
    assert StopsGrow(s.lifts, r.lifts);
    forall p | p in r.requests ensures Queued(r.lifts, p) {
      if p != added {
        assert p in s.requests;
        QueuedGrows(s.lifts, r.lifts, p);
      }
    }
  }

  lemma WithStopStops(s: System, i: nat, added: Request)
    requires i < |s.lifts| && Matches(added, i + 1, added.floor)
    requires StopsRequested(s)
    ensures StopsRequested(WithStop(s, i, added))
  {
    var r := WithStop(s, i, added);
    forall j, f | 0 <= j < |r.lifts| && f in r.lifts[j].targetFloors
      ensures exists p :: p in r.requests && Matches(p, j + 1, f)
    {
      if f in s.lifts[j].targetFloors {
        var p :| p in s.requests && Matches(p, j + 1, f);
        assert p in r.requests;
      } else {
        assert j == i && f == added.floor;
        assert added in r.requests && Matches(added, j + 1, f);
      }
    }
  }

  /** An accepted in-car request adds a stop together with a request
      assigned for it, and keeps the state consistent. */
  lemma AcceptedKeepsConsistent(s: System, liftId: int, floor: int, reqId: string, now: int)
    requires ValidSystem(s) && Consistent(s) && Accepts(s, liftId, floor)
    ensures Consistent(AddInternal(s, liftId, floor, reqId, now))
  {
    IndexOfValid(s, liftId);
    var added := Request(reqId, floor, None, now, true, Some(liftId), Assigned);
    var w := WithStop(s, liftId - 1, added);
    WithStopQueued(s, liftId - 1, added);
    WithStopStops(s, liftId - 1, added);
    assert AddInternal(s, liftId, floor, reqId, now) == w;
  }

  lemma InternalKeepsConsistent(s: System, liftId: int, floor: int, reqId: string, now: int)
    requires ValidSystem(s) && Consistent(s)
    ensures Consistent(AddInternal(s, liftId, floor, reqId, now))
  {
    if Accepts(s, liftId, floor) {
      AcceptedKeepsConsistent(s, liftId, floor, reqId, now);
    }
  }

  // ---------------------------------------------------------------------
  // The tick

  /** The state after the lift at position m has had its tick. */
  function StepOne(t: System, m: nat, now: int): System
    requires m < |t.lifts|
  {
    System(t.lifts[m := Step(t.lifts[m])], Service(t.requests, t.lifts[m], now))
  }

  /** A lift's tick leaves every assigned request queued: the requests for
      the stop it drops are exactly the ones it completes. */
  lemma StepOneQueued(t: System, m: nat, now: int)
    requires ValidSystem(t) && m < |t.lifts|
    requires forall q :: q in t.requests ==> Queued(t.lifts, q)
    ensures forall q :: q in StepOne(t, m, now).requests ==> Queued(StepOne(t, m, now).lifts, q)
  {
    var l := t.lifts[m];
    var r := StepOne(t, m, now);
    ServiceFacts(t.requests, l, now);
    assert l.id == m + 1;
    if !Arrives(l) {
      assert StopsGrow(t.lifts, r.lifts);
      forall p | p in r.requests ensures Queued(r.lifts, p) {
        QueuedGrows(t.lifts, r.lifts, p);
      }
    } else {
      forall p | p in r.requests ensures Queued(r.lifts, p) {
        if p.status == Assigned {
          assert p in t.requests && !Matches(p, l.id, l.currentFloor);
          ArrivalKeepsQueued(t.lifts, m, p);
        }
      }
    }
  }

  /** A request still open after the lift at position m served its floor
      stays queued: the stop that lift drops is not its floor. */
  lemma ArrivalKeepsQueued(lifts: seq<Lift>, m: nat, p: Request)
    requires m < |lifts| && Arrives(lifts[m]) && Queued(lifts, p)
    requires !Matches(p, m + 1, lifts[m].currentFloor)
    ensures Queued(lifts[m := Step(lifts[m])], p)
  {
    var l := lifts[m];
    if p.status == Assigned && p.liftId == Some(m + 1) {
      assert l.targetFloors == [l.currentFloor] + l.targetFloors[1..];
      assert p.floor in l.targetFloors[1..];
    }
  }

  /** A lift's tick leaves a request behind every stop: the stops it keeps
      lie above the floor it serves, so their requests stay open. */
  lemma StepOneStops(t: System, m: nat, now: int)
    requires ValidSystem(t) && m < |t.lifts| && StopsRequested(t)
    ensures StopsRequested(StepOne(t, m, now))
  {
    var l := t.lifts[m];
    var r := StepOne(t, m, now);
    ServiceFacts(t.requests, l, now);
    assert l.id == m + 1;
    if !Arrives(l) {
      assert r.requests == t.requests;
      forall j, g | 0 <= j < |r.lifts| && g in r.lifts[j].targetFloors
        ensures exists p :: p in r.requests && Matches(p, j + 1, g)
      {
        assert g in t.lifts[j].targetFloors;
      }
    } else {
      var f := l.currentFloor;
      assert forall g :: g in l.targetFloors[1..] ==> f < g by {
        HeadIsLeast(l.targetFloors);
      }
      forall j, g | 0 <= j < |r.lifts| && g in r.lifts[j].targetFloors
        ensures exists p :: p in r.requests && Matches(p, j + 1, g)
      {
        assert g in t.lifts[j].targetFloors;
        var p :| p in t.requests && Matches(p, j + 1, g);
        assert !Matches(p, l.id, f);
        assert p in r.requests;
      }
    }
  }

  /** The state after the first m lifts have had their tick. */
  function Partial(s: System, m: nat, now: int): System
    requires m <= |s.lifts|
  {
    System(seq(|s.lifts|, j requires 0 <= j < |s.lifts| => if j < m then Step(s.lifts[j]) else s.lifts[j]),
           ServiceAll(s.lifts[..m], s.requests, now))
  }

  /** One more lift's tick takes the first m - 1 lifts' ticks to the first m. */
  lemma PartialStep(s: System, m: nat, now: int)
    requires 0 < m <= |s.lifts|
    ensures Partial(s, m, now) == StepOne(Partial(s, m - 1, now), m - 1, now)
  {
    var t := Partial(s, m - 1, now);
    assert s.lifts[..m][..m - 1] == s.lifts[..m - 1];
    assert t.lifts[m - 1] == s.lifts[m - 1];
    assert Partial(s, m, now).lifts == t.lifts[m - 1 := Step(t.lifts[m - 1])];
  }

  lemma {:induction false} PartialConsistent(s: System, m: nat, now: int)
    requires ValidSystem(s) && Consistent(s) && m <= |s.lifts|
    ensures ValidSystem(Partial(s, m, now)) && Consistent(Partial(s, m, now))
    decreases m
  {
    if m == 0 {
      assert s.lifts[..0] == [];
      assert Partial(s, 0, now) == s;
    } else {
      PartialConsistent(s, m - 1, now);
      var t := Partial(s, m - 1, now);
      StepOneQueued(t, m - 1, now);
      StepOneStops(t, m - 1, now);
      PartialStep(s, m, now);
    }
  }

  lemma TickKeepsConsistent(s: System, now: int)
    requires ValidSystem(s) && Consistent(s)
    ensures Consistent(Tick(s, now))
  {
    PartialConsistent(s, |s.lifts|, now);
    assert s.lifts[..|s.lifts|] == s.lifts;
    assert Partial(s, |s.lifts|, now) == Tick(s, now);
  }

  // ---------------------------------------------------------------------
  // Faults

  /** Every assigned request is queued, save those assigned to the lift at
      position i. */
  predicate QueuedBut(s: System, i: nat)
  {
    forall q :: q in s.requests && !AssignedTo(q, i + 1) ==> Queued(s.lifts, q)
  }

  /** Resetting a request of the faulted lift at position i keeps a request
      behind every stop: that lift has no stops. */
  lemma ResetStops(s: System, k: nat, i: nat)
    requires ValidSystem(s) && StopsRequested(s)
    requires i < |s.lifts| && s.lifts[i].status == Fault
    requires k < |s.requests| && AssignedTo(s.requests[k], i + 1)
    ensures StopsRequested(s.(requests := s.requests[k := s.requests[k].(status := Pending, liftId := None)]))
  {
    var reset := s.(requests := s.requests[k := s.requests[k].(status := Pending, liftId := None)]);
    forall j, f | 0 <= j < |reset.lifts| && f in reset.lifts[j].targetFloors
      ensures exists p :: p in reset.requests && Matches(p, j + 1, f)
    {
      var p :| p in s.requests && Matches(p, j + 1, f);
      var m :| 0 <= m < |s.requests| && s.requests[m] == p;
      assert j != i;
      assert m != k;
      assert reset.requests[m] == p;
      assert p in reset.requests;
    }
  }

  /** Dispatching afresh one request of the faulted lift at position i. */
  lemma ReassignKeeps(s: System, k: nat, i: nat)
    requires ValidSystem(s) && StopsRequested(s) && QueuedBut(s, i)
    requires i < |s.lifts| && s.lifts[i].status == Fault
    requires k < |s.requests| && AssignedTo(s.requests[k], i + 1)
    ensures StopsRequested(Reassign(s, k)) && QueuedBut(Reassign(s, k), i)
  {
    var reset := s.(requests := s.requests[k := s.requests[k].(status := Pending, liftId := None)]);
    ResetStops(s, k, i);
    AssignKeeps(reset, k);
    var s1 := Reassign(s, k);
    assert s1 == Assign(reset, k);
    ReassignFacts(s, k, i);
    forall q | q in s1.requests && q.status == Assigned && !AssignedTo(q, i + 1)
      ensures Queued(s1.lifts, q)
    {
      if q != s1.requests[k] {
        assert q in reset.requests;
        var m :| 0 <= m < |reset.requests| && reset.requests[m] == q;
        assert m != k;
        assert q in s.requests;
        QueuedGrows(s.lifts, s1.lifts, q);
      }
    }
  }

  /** Dispatching afresh, in ledger order, the requests assigned to the
      faulted lift at position i: the requests of other lifts stay queued
      and every stop keeps a request behind it. */
  lemma {:induction false} ReassignAllKeeps(s: System, ks: seq<nat>, i: nat)
    requires ValidSystem(s) && StopsRequested(s) && QueuedBut(s, i)
    requires i < |s.lifts| && s.lifts[i].status == Fault
    requires forall m :: 0 <= m < |ks| ==> ks[m] < |s.requests| && AssignedTo(s.requests[ks[m]], i + 1)
    requires forall m, n :: 0 <= m < n < |ks| ==> ks[m] < ks[n]
    ensures StopsRequested(ReassignAll(s, ks)) && QueuedBut(ReassignAll(s, ks), i)
    decreases |ks|
  {
    if ks != [] {
      var k := ks[0];
      ReassignKeeps(s, k, i);
      ReassignFacts(s, k, i);
      var s1 := Reassign(s, k);
      forall m | 0 <= m < |ks[1..]|
        ensures ks[1..][m] < |s1.requests| && AssignedTo(s1.requests[ks[1..][m]], i + 1)
      {
        assert ks[1..][m] == ks[m + 1] != k;
      }
      ReassignAllKeeps(s1, ks[1..], i);
    }
  }

  /** Repairing a faulted lift changes only its status. */
  lemma RepairKeepsConsistent(s: System, liftId: int)
    requires ValidSystem(s) && Consistent(s)
    requires 1 <= liftId <= |s.lifts| && s.lifts[liftId - 1].status == Fault
    ensures ValidSystem(ToggleFault(s, liftId)) && Consistent(ToggleFault(s, liftId))
  {
    Repair(s, liftId);
    var r := ToggleFault(s, liftId);
    assert r.requests == s.requests;
    assert forall j :: 0 <= j < |s.lifts| ==> r.lifts[j].targetFloors == s.lifts[j].targetFloors;
    assert StopsGrow(s.lifts, r.lifts);
    forall q | q in r.requests ensures Queued(r.lifts, q) {
      QueuedGrows(s.lifts, r.lifts, q);
    }
  }

  /** A lift entering fault: its stops go, and each request it held is
      dispatched afresh to a lift that queues it, or left pending. */
  lemma FaultKeepsConsistent(s: System, liftId: int)
    requires ValidSystem(s) && Consistent(s)
    requires 1 <= liftId <= |s.lifts| && s.lifts[liftId - 1].status != Fault
    ensures ValidSystem(ToggleFault(s, liftId)) && Consistent(ToggleFault(s, liftId))
  {
    var i := liftId - 1;
    assert liftId == i + 1;
    FaultUnfolds(s, i);
    FrozenKeeps(s, i);
  }

  /** The state after the lift at position i enters fault is consistent. */
  lemma FrozenKeeps(s: System, i: nat)
    requires ValidSystem(s) && Consistent(s)
    requires i < |s.lifts| && s.lifts[i].status != Fault
    ensures var r := Faulted(s, i);
      ValidSystem(r) && Consistent(r)
  {
    var s1 := Frozen(s, i);
    assert s.lifts[i].id == i + 1;
    var ks := Affected(s.requests, s.lifts[i].id);
    FrozenValid(s, i);
    FrozenStart(s, i);
    ReassignAllKeeps(s1, ks, i);
    ReassignAllLifts(s1, ks, i);
    FrozenReleases(s, i);
    var r := Faulted(s, i);
    assert r == ReassignAll(s1, ks);
    forall q | q in r.requests ensures Queued(r.lifts, q) {
      assert !AssignedTo(q, i + 1);
    }
  }

  /** Freezing the lift at position i keeps a request behind every stop, and
      every request but those assigned to it queued. */
  lemma FrozenStart(s: System, i: nat)
    requires ValidSystem(s) && Consistent(s) && i < |s.lifts|
    ensures StopsRequested(Frozen(s, i)) && QueuedBut(Frozen(s, i), i)
  {
    var s1 := Frozen(s, i);
    assert s1.requests == s.requests;
    forall j, f | 0 <= j < |s1.lifts| && f in s1.lifts[j].targetFloors
      ensures exists p :: p in s1.requests && Matches(p, j + 1, f)
    {
      assert f in s.lifts[j].targetFloors;
    }
    forall q | q in s1.requests && !AssignedTo(q, i + 1) ensures Queued(s1.lifts, q) {
      assert Queued(s.lifts, q);
    }
  }

  lemma ToggleKeepsConsistent(s: System, liftId: int)
    requires ValidSystem(s) && Consistent(s)
    ensures ValidSystem(ToggleFault(s, liftId)) && Consistent(ToggleFault(s, liftId))
  {
    IndexOfValid(s, liftId);
    if 1 <= liftId <= |s.lifts| {
      if s.lifts[liftId - 1].status == Fault {
        RepairKeepsConsistent(s, liftId);
      } else {
        FaultKeepsConsistent(s, liftId);
      }
    }
  }

  // ---------------------------------------------------------------------
  // Every reachable state

  /** The calls a client of the controller makes. */
  datatype Op =
    | External(request: Request)
    | Internal(liftId: int, floor: int, reqId: string, now: int)
    | Advance(now: int)
    | Toggle(liftId: int)

  function Apply(s: System, op: Op): System
  {
    match op
    case External(q) => AddExternal(s, q)
    case Internal(liftId, floor, reqId, now) => AddInternal(s, liftId, floor, reqId, now)
    case Advance(now) => Tick(s, now)
    case Toggle(liftId) => ToggleFault(s, liftId)
  }

  /** The state after the calls `ops`, in order. */
  function Run(s: System, ops: seq<Op>): System
    decreases |ops|
  {
    if ops == [] then s else Run(Apply(s, ops[0]), ops[1..])
  }

  /** External requests come in unassigned, as the floor panels create them. */
  predicate FromPanels(ops: seq<Op>)
  {
    forall m :: 0 <= m < |ops| && ops[m].External? ==> ops[m].request.status != Assigned
  }

  lemma ApplyKeeps(s: System, op: Op)
    requires ValidSystem(s) && Consistent(s)
    requires op.External? ==> op.request.status != Assigned
    ensures ValidSystem(Apply(s, op)) && Consistent(Apply(s, op))
  {
    match op
    case External(q) => ExternalKeepsConsistent(s, q);
    case Internal(liftId, floor, reqId, now) => InternalKeepsConsistent(s, liftId, floor, reqId, now);
    case Advance(now) => TickKeepsConsistent(s, now);
    case Toggle(liftId) => ToggleKeepsConsistent(s, liftId);
  }

  lemma {:induction false} RunKeepsInvariants(s: System, ops: seq<Op>)
    requires ValidSystem(s) && Consistent(s) && FromPanels(ops)
    ensures ValidSystem(Run(s, ops)) && Consistent(Run(s, ops))
    decreases |ops|
  {
    if ops != [] {
      ApplyKeeps(s, ops[0]);
      assert FromPanels(ops[1..]) by {
        assert forall m :: 0 <= m < |ops[1..]| ==> ops[1..][m] == ops[m + 1];
      }
      RunKeepsInvariants(Apply(s, ops[0]), ops[1..]);
    }
  }

  /** In every state reached from creation: every stop queue is strictly
      ascending, a faulted lift has no stops and no request assigned to it,
      and every assigned request has its floor among its lift's stops. */
  lemma Reachable(numLifts: nat, numFloors: nat, draws: seq<real>, ops: seq<Op>)
    requires |draws| == numLifts
    requires forall i :: 0 <= i < |draws| ==> 0.0 <= draws[i] < 1.0
    requires FromPanels(ops)
    ensures var s := Run(System(InitialLifts(numLifts, numFloors, draws), []), ops);
      ValidSystem(s) && Consistent(s) &&
      (forall i :: 0 <= i < |s.lifts| ==> StrictlyAscending(s.lifts[i].targetFloors)) &&
      (forall q :: q in s.requests && q.status == Assigned ==>
         exists i :: 0 <= i < |s.lifts| && q.liftId == Some(s.lifts[i].id) &&
           s.lifts[i].status != Fault && q.floor in s.lifts[i].targetFloors)
  {
    var s0 := System(InitialLifts(numLifts, numFloors, draws), []);
    RunKeepsInvariants(s0, ops);
    var s := Run(s0, ops);
    forall q | q in s.requests && q.status == Assigned
      ensures exists i :: (0 <= i < |s.lifts| && q.liftId == Some(s.lifts[i].id) &&
                          s.lifts[i].status != Fault && q.floor in s.lifts[i].targetFloors)
    {
      var i := q.liftId.value - 1;
      assert Queued(s.lifts, q);
      assert WellFormed(s.lifts[i]);
    }
  }

  // ---------------------------------------------------------------------
  // With no further calls, every request is served

  /** The state after one tick per clock reading in `nows`, and no other call. */
  function Ticks(s: System, nows: seq<int>): System
    decreases |nows|
  {
    if nows == [] then s else Ticks(Tick(s, nows[0]), nows[1..])
  }

  /** Across ticks, each lift evolves on its own. */
  lemma {:induction false} TicksLifts(s: System, nows: seq<int>)
    ensures |Ticks(s, nows).lifts| == |s.lifts|
    ensures forall i :: 0 <= i < |s.lifts| ==> Ticks(s, nows).lifts[i] == StepN(s.lifts[i], |nows|)
    decreases |nows|
  {
    if nows != [] {
      var t := Tick(s, nows[0]);
      var n := |nows| - 1;
      assert |nows[1..]| == n;
      TicksLifts(t, nows[1..]);
      assert Ticks(s, nows) == Ticks(t, nows[1..]);
      forall i | 0 <= i < |s.lifts| ensures Ticks(s, nows).lifts[i] == StepN(s.lifts[i], n + 1) {
        assert t.lifts[i] == Step(s.lifts[i]);
      }
    }
  }

  lemma {:induction false} TicksKeepInvariants(s: System, nows: seq<int>)
    requires ValidSystem(s) && Consistent(s)
    ensures ValidSystem(Ticks(s, nows)) && Consistent(Ticks(s, nows))
    decreases |nows|
  {
    if nows != [] {
      TickKeepsConsistent(s, nows[0]);
      TicksKeepInvariants(Tick(s, nows[0]), nows[1..]);
    }
  }

  /** A lift without stops gets none by ticking. */
  lemma {:induction false} EmptyStaysEmpty(l: Lift, n: nat)
    requires l.targetFloors == []
    ensures StepN(l, n).targetFloors == []
    decreases n
  {
    if n > 0 {
      EmptyStaysEmpty(Step(l), n - 1);
    }
  }

  /** The ticks a lift needs to serve its queue; none for a faulted lift,
      which has no stops. */
  function Needed(l: Lift): nat
  {
    Travel(l.currentFloor, l.targetFloors)
  }

  lemma EmptyAfterNeeded(l: Lift, n: nat)
    requires WellFormed(l) && n >= Needed(l)
    ensures StepN(l, n).targetFloors == []
  {
    if l.targetFloors == [] {
      EmptyStaysEmpty(l, n);
    } else {
      var t := Needed(l);
      ServesWholeQueue(l);
      StepNAdd(l, t, n - t);
      EmptyStaysEmpty(StepN(l, t), n - t);
    }
  }

  /** The largest number of ticks any of the lifts needs. */
  function MostNeeded(ls: seq<Lift>): (r: nat)
    ensures forall i :: 0 <= i < |ls| ==> Needed(ls[i]) <= r
    ensures ls == [] ==> r == 0
    ensures ls != [] ==> exists i :: 0 <= i < |ls| && Needed(ls[i]) == r
  {
    if ls == [] then 0
    else
      var rest := MostNeeded(ls[1..]);
      assert forall i :: 1 <= i < |ls| ==> ls[i] == ls[1..][i - 1];
      if Needed(ls[0]) >= rest then Needed(ls[0]) else rest
  }

  /** Left alone for as many ticks as the busiest lift needs, the bank
      empties every stop queue, and with the ledger consistent no request is
      then left assigned: each has been completed or is pending. */
  lemma AllServed(s: System, nows: seq<int>)
    requires ValidSystem(s) && Consistent(s)
    requires |nows| >= MostNeeded(s.lifts)
    ensures forall i :: 0 <= i < |Ticks(s, nows).lifts| ==> Ticks(s, nows).lifts[i].targetFloors == []
    ensures forall q :: q in Ticks(s, nows).requests ==> q.status != Assigned
  {
    var r := Ticks(s, nows);
    TicksLifts(s, nows);
    TicksKeepInvariants(s, nows);
    forall i | 0 <= i < |r.lifts| ensures r.lifts[i].targetFloors == [] {
      EmptyAfterNeeded(s.lifts[i], |nows|);
    }
    forall q | q in r.requests ensures q.status != Assigned {
      assert Queued(r.lifts, q);
    }
  }
}
