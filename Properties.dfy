/** What the controller's operations guarantee, proved about the functions of
    `Engine` that the methods of `LiftController` are tied to. */
module Properties {
  import opened LiftTypes
  import opened StopQueue
  import opened Dispatch
  import opened Ledger
  import opened Engine

  // ---------------------------------------------------------------------
  // Movement

  /** A lift whose floor and stops all lie within [lo, hi] stays there. */
  lemma StepStaysInRange(l: Lift, lo: int, hi: int)
    requires lo <= l.currentFloor <= hi
    requires forall f :: f in l.targetFloors ==> lo <= f <= hi
    ensures lo <= Step(l).currentFloor <= hi
    ensures forall f :: f in Step(l).targetFloors ==> lo <= f <= hi
  {
    if l.targetFloors != [] {
      assert l.targetFloors[0] in l.targetFloors;
      assert forall f :: f in l.targetFloors[1..] ==> f in l.targetFloors;
    }
  }

  /** A lift after n ticks. */
  function StepN(l: Lift, n: nat): Lift
    decreases n
  {
    if n == 0 then l else StepN(Step(l), n - 1)
  }

  lemma {:induction false} StepNAdd(l: Lift, a: nat, b: nat)
    ensures StepN(l, a + b) == StepN(StepN(l, a), b)
    decreases a
  {
    if a > 0 {
      StepNAdd(Step(l), a - 1, b);
    }
  }

  /** A working lift with stops stands at its first stop, queue untouched,
      after exactly as many ticks as floors lie between. */
  lemma {:induction false} ReachesFirstStop(l: Lift)
    requires l.status != Fault && l.targetFloors != []
    ensures var m := StepN(l, Distance(l.currentFloor, l.targetFloors[0]));
      Arrives(m) && m.targetFloors == l.targetFloors && m.status != Fault
    decreases Distance(l.currentFloor, l.targetFloors[0])
  {
    if l.currentFloor != l.targetFloors[0] {
      ReachesFirstStop(Step(l));
    }
  }

  /** Ticks a lift standing at `from` needs to serve the stops `q` in order:
      the floors travelled plus one tick per stop served. */
  function Travel(from: int, q: seq<int>): nat
    decreases |q|
  {
    if q == [] then 0 else Distance(from, q[0]) + 1 + Travel(q[0], q[1..])
  }

  /** With no further requests, a working lift serves its whole queue in
      `Travel` ticks and then stands idle at its last stop. */
  lemma {:induction false} ServesWholeQueue(l: Lift)
    requires l.status != Fault && l.targetFloors != []
    ensures var m := StepN(l, Travel(l.currentFloor, l.targetFloors));
      m.targetFloors == [] && m.status == LiftStatus.Idle && m.direction == Direction.Idle &&
      m.currentFloor == l.targetFloors[|l.targetFloors| - 1]
    decreases |l.targetFloors|
  {
    var q := l.targetFloors;
    var d := Distance(l.currentFloor, q[0]);
    ReachesFirstStop(l);
    var a := StepN(l, d);
    var b := Step(a);
    StepNAdd(l, d, 1 + Travel(q[0], q[1..]));
    StepNAdd(a, 1, Travel(q[0], q[1..]));
    assert StepN(a, 1) == b;
    assert b.targetFloors == q[1..] && b.currentFloor == q[0];
    if q[1..] != [] {
      ServesWholeQueue(b);
    }
  }

  /** An idle lift with no stops stays as it is, tick after tick. */
  lemma {:induction false} IdleStaysIdle(l: Lift, n: nat)
    requires l.status == LiftStatus.Idle && l.direction == Direction.Idle && l.targetFloors == []
    ensures StepN(l, n) == l
  {
    if n > 0 {
      IdleStaysIdle(Step(l), n - 1);
    }
  }

  // ---------------------------------------------------------------------
  // The ledger across a tick

  /** The requests a lift completes at a floor: every other request keeps
      its place and value, and the matching ones only change status. */
  lemma MarkCompletedExactly(rs: seq<Request>, liftId: int, floor: int)
    ensures |MarkCompleted(rs, liftId, floor)| == |rs|
    ensures forall j :: 0 <= j < |rs| ==>
      (Matches(rs[j], liftId, floor) ==> MarkCompleted(rs, liftId, floor)[j] == rs[j].(status := Completed)) &&
      (!Matches(rs[j], liftId, floor) ==> MarkCompleted(rs, liftId, floor)[j] == rs[j])
  {
  }

  /** Where a request in the ledger after one lift's tick comes from, and
      which requests the tick cannot drop. */
  lemma ServiceFacts(rs: seq<Request>, l: Lift, now: int)
    ensures |Service(rs, l, now)| <= |rs|
    ensures forall q :: q in Service(rs, l, now) ==>
      q in rs ||
      (Arrives(l) && exists p :: p in rs && Matches(p, l.id, l.currentFloor) && q == p.(status := Completed))
    ensures forall q :: (q in rs && q.status != Completed &&
                         !(Arrives(l) && Matches(q, l.id, l.currentFloor))) ==>
      q in Service(rs, l, now)
    ensures Arrives(l) ==> forall q :: q in Service(rs, l, now) ==> !Matches(q, l.id, l.currentFloor)
  {
    if Arrives(l) {
      var marked := MarkCompleted(rs, l.id, l.currentFloor);
      forall q | q in marked
        ensures q in rs || exists p :: p in rs && Matches(p, l.id, l.currentFloor) && q == p.(status := Completed)
        ensures !Matches(q, l.id, l.currentFloor)
      {
        var j :| 0 <= j < |marked| && marked[j] == q;
        assert rs[j] in rs;
      }
      forall q | q in rs && q.status != Completed && !Matches(q, l.id, l.currentFloor)
        ensures q in marked
      {
        var j :| 0 <= j < |rs| && rs[j] == q;
        assert marked[j] == q;
      }
    }
  }

  /** The ledger after a whole tick: every request in it either was in the
      ledger before, or is a request that was assigned to a lift serving its
      floor in this tick, now completed; and every request that was not
      completed and whose lift did not serve its floor is still there. */
  lemma {:induction false} ServiceAllFacts(ls: seq<Lift>, rs: seq<Request>, now: int)
    ensures |ServiceAll(ls, rs, now)| <= |rs|
    ensures forall q :: q in ServiceAll(ls, rs, now) ==>
      q in rs ||
      exists l, p :: l in ls && Arrives(l) && p in rs && Matches(p, l.id, l.currentFloor) &&
        q == p.(status := Completed)
    ensures forall q :: (q in rs && q.status != Completed &&
                         (forall l :: l in ls && Arrives(l) ==> !Matches(q, l.id, l.currentFloor))) ==>
      q in ServiceAll(ls, rs, now)
  {
    if ls != [] {
      var init := ls[..|ls| - 1];
      var last := ls[|ls| - 1];
      var before := ServiceAll(init, rs, now);
      ServiceAllFacts(init, rs, now);
      ServiceFacts(before, last, now);
      assert forall l :: l in init ==> l in ls;
      assert last in ls;
      forall q | q in ServiceAll(ls, rs, now)
        ensures q in rs ||
          exists l, p :: l in ls && Arrives(l) && p in rs && Matches(p, l.id, l.currentFloor) &&
            q == p.(status := Completed)
      {
        if q !in before {
          var p :| p in before && Matches(p, last.id, last.currentFloor) && q == p.(status := Completed);
          assert p.status == Assigned;
          assert last in ls && Arrives(last);
        }
      }
    }
  }

  /** The one way a request becomes completed in a tick: the lift it is
      assigned to stands at its floor and serves it. */
  lemma CompletedOnlyByArrival(s: System, now: int, q: Request)
    requires q in Tick(s, now).requests && q.status == Completed && q !in s.requests
    ensures exists l :: l in s.lifts && Arrives(l) && q.liftId == Some(l.id) && q.floor == l.currentFloor
  {
    ServiceAllFacts(s.lifts, s.requests, now);
  }

  /** A request waiting for a lift, or assigned to a lift that does not
      serve its floor in this tick, is still in the ledger afterwards. */
  lemma OpenRequestsSurvive(s: System, now: int, q: Request)
    requires q in s.requests && q.status != Completed
    requires forall l :: l in s.lifts && Arrives(l) ==> !Matches(q, l.id, l.currentFloor)
    ensures q in Tick(s, now).requests
  {
    ServiceAllFacts(s.lifts, s.requests, now);
  }

  /** A request that waited the whole retention window before its lift
      arrives is completed and purged within the same tick, so no snapshot
      ever shows it completed. */
  lemma LongWaitPurgedOnCompletion(rs: seq<Request>, l: Lift, now: int, k: nat)
    requires Arrives(l) && k < |rs|
    requires Matches(rs[k], l.id, l.currentFloor)
    requires now - rs[k].timestamp >= RetentionMs
    ensures rs[k] !in Service(rs, l, now)
    ensures rs[k].(status := Completed) !in Service(rs, l, now)
  {
    var marked := MarkCompleted(rs, l.id, l.currentFloor);
    assert Expired(marked[k], now);
    forall j | 0 <= j < |marked| ensures marked[j] != rs[k] {
      if Matches(rs[j], l.id, l.currentFloor) {
        assert marked[j].status == Completed;
      } else {
        assert rs[j] != rs[k];
      }
    }
  }

  // ---------------------------------------------------------------------
  // Faults

  /** How a request assigned to a lift entering fault ends up: waiting with
      no lift, or assigned to another lift, everything else unchanged. */
  predicate Redispatched(before: Request, after: Request, liftId: int)
  {
    after == before.(status := Pending, liftId := None) ||
    (after == before.(status := Assigned, liftId := after.liftId) &&
     after.liftId.Some? && after.liftId != Some(liftId))
  }

  /** Every stop in `a` is still a stop in `b`. */
  predicate StopsGrow(a: seq<Lift>, b: seq<Lift>)
  {
    |a| == |b| &&
    forall j, f :: 0 <= j < |a| && f in a[j].targetFloors ==> f in b[j].targetFloors
  }

  /** Every lift's stops in `a` are still stops in `b`, and only stops
      changed. */
  predicate OnlyGainStops(a: seq<Lift>, b: seq<Lift>)
  {
    StopsGrow(a, b) &&
    forall j :: 0 <= j < |a| ==> b[j] == a[j].(targetFloors := b[j].targetFloors)
  }

  /** Dispatching afresh one request while the lift at position i is
      faulted: that lift is left alone, the others at most gain a stop, and
      only the request itself changes. */
  lemma ReassignFacts(s: System, k: nat, i: nat)
    requires ValidSystem(s)
    requires i < |s.lifts| && s.lifts[i].status == Fault
    requires k < |s.requests|
    ensures ValidSystem(Reassign(s, k))
    ensures Reassign(s, k).lifts[i] == s.lifts[i]
    ensures OnlyGainStops(s.lifts, Reassign(s, k).lifts)
    ensures forall k' :: 0 <= k' < |s.requests| && k' != k ==> Reassign(s, k).requests[k'] == s.requests[k']
    ensures Redispatched(s.requests[k], Reassign(s, k).requests[k], i + 1)
  {
    var q := s.requests[k].(status := Pending, liftId := None);
    var r := Reassign(s, k);
    match Nearest(s.lifts, q.floor)
    case None =>
      assert r == System(s.lifts, s.requests[k := q]);
    case Some(c) =>
      var l := s.lifts[c];
      assert c != i;
      assert r == System(s.lifts[c := l.(targetFloors := Enqueue(l.targetFloors, q.floor))],
                         s.requests[k := q.(liftId := Some(l.id), status := Assigned)]);
  }

  lemma OnlyGainStopsTransitive(a: seq<Lift>, b: seq<Lift>, c: seq<Lift>)
    requires OnlyGainStops(a, b) && OnlyGainStops(b, c)
    ensures OnlyGainStops(a, c)
  {
  }

  /** Dispatching afresh, in order, the requests at positions `ks` while the
      lift at position i is faulted: what happens to the lifts. */
  lemma {:induction false} ReassignAllLifts(s: System, ks: seq<nat>, i: nat)
    requires ValidSystem(s)
    requires i < |s.lifts| && s.lifts[i].status == Fault
    requires forall m :: 0 <= m < |ks| ==> ks[m] < |s.requests|
    ensures ValidSystem(ReassignAll(s, ks))
    ensures ReassignAll(s, ks).lifts[i] == s.lifts[i]
    ensures OnlyGainStops(s.lifts, ReassignAll(s, ks).lifts)
    decreases |ks|
  {
    if ks != [] {
      var s1 := Reassign(s, ks[0]);
      ReassignFacts(s, ks[0], i);
      assert forall m :: 0 <= m < |ks[1..]| ==> ks[1..][m] == ks[m + 1];
      ReassignAllLifts(s1, ks[1..], i);
      assert ReassignAll(s, ks) == ReassignAll(s1, ks[1..]);
      OnlyGainStopsTransitive(s.lifts, s1.lifts, ReassignAll(s, ks).lifts);
    }
  }

  /** Dispatching afresh, in order, the requests at positions `ks` while the
      lift at position i is faulted: what happens to the requests. */
  lemma {:induction false} ReassignAllRequests(s: System, ks: seq<nat>, i: nat)
    requires ValidSystem(s)
    requires i < |s.lifts| && s.lifts[i].status == Fault
    requires forall m :: 0 <= m < |ks| ==> ks[m] < |s.requests|
    requires forall m, n :: 0 <= m < n < |ks| ==> ks[m] < ks[n]
    ensures forall k :: 0 <= k < |s.requests| && k !in ks ==>
      ReassignAll(s, ks).requests[k] == s.requests[k]
    ensures forall k :: k in ks ==>
      Redispatched(s.requests[k], ReassignAll(s, ks).requests[k], i + 1)
    decreases |ks|
  {
    if ks != [] {
      var k := ks[0];
      var s1 := Reassign(s, k);
      ReassignFacts(s, k, i);
      assert forall m :: 0 <= m < |ks[1..]| ==> ks[1..][m] == ks[m + 1];
      ReassignAllRequests(s1, ks[1..], i);
      var r := ReassignAll(s, ks);
      assert r == ReassignAll(s1, ks[1..]);
      assert k !in ks[1..];
      forall k' | 0 <= k' < |s.requests| && k' !in ks
        ensures r.requests[k'] == s.requests[k']
      {
        assert k' !in ks[1..] && k' != k;
      }
      forall k' | k' in ks
        ensures Redispatched(s.requests[k'], r.requests[k'], i + 1)
      {
        if k' != k {
          assert k' in ks[1..];
          assert s1.requests[k'] == s.requests[k'];
        }
      }
    }
  }

  /** Dispatching afresh, in order, the requests at positions `ks` while the
      lift at position i is faulted: that lift is left alone, the others at
      most gain stops, the requests outside `ks` are untouched and each
      request in `ks` ends up pending or with another lift. */
  lemma ReassignAllFacts(s: System, ks: seq<nat>, i: nat)
    requires ValidSystem(s)
    requires i < |s.lifts| && s.lifts[i].status == Fault
    requires forall m :: 0 <= m < |ks| ==> ks[m] < |s.requests|
    requires forall m, n :: 0 <= m < n < |ks| ==> ks[m] < ks[n]
    ensures ValidSystem(ReassignAll(s, ks))
    ensures ReassignAll(s, ks).lifts[i] == s.lifts[i]
    ensures OnlyGainStops(s.lifts, ReassignAll(s, ks).lifts)
    ensures forall k :: 0 <= k < |s.requests| && k !in ks ==>
      ReassignAll(s, ks).requests[k] == s.requests[k]
    ensures forall k :: k in ks ==>
      Redispatched(s.requests[k], ReassignAll(s, ks).requests[k], i + 1)
  {
    ReassignAllLifts(s, ks, i);
    ReassignAllRequests(s, ks, i);
  }

  /** A working lift entering fault: the switch freezes it, then dispatches
      afresh the requests it held. */
  lemma FaultUnfolds(s: System, i: nat)
    requires ValidSystem(s)
    requires i < |s.lifts| && s.lifts[i].status != Fault
    ensures ToggleFault(s, i + 1) == Faulted(s, i)
  {
    IndexOfValid(s, i + 1);
    assert IndexOf(s.lifts, i + 1) == Some(i);
  }

  /** The lifts after the lift at position i enters fault: it is frozen
      with no stops, and the others at most gain stops. */
  lemma FrozenLifts(s: System, i: nat)
    requires ValidSystem(s)
    requires i < |s.lifts| && s.lifts[i].status != Fault
    ensures var r := Faulted(s, i);
      ValidSystem(r) &&
      r.lifts[i] == s.lifts[i].(status := Fault, targetFloors := [], direction := Direction.Idle) &&
      (forall j :: 0 <= j < |s.lifts| && j != i ==>
         r.lifts[j] == s.lifts[j].(targetFloors := r.lifts[j].targetFloors) &&
         forall f :: f in s.lifts[j].targetFloors ==> f in r.lifts[j].targetFloors)
  {
    var s1 := Frozen(s, i);
    FrozenValid(s, i);
    assert s.lifts[i].id == i + 1;
    var ks := Affected(s.requests, s.lifts[i].id);
    ReassignAllLifts(s1, ks, i);
    var r := Faulted(s, i);
    assert r == ReassignAll(s1, ks);
    forall j | 0 <= j < |s.lifts| && j != i
      ensures r.lifts[j] == s.lifts[j].(targetFloors := r.lifts[j].targetFloors)
      ensures forall f :: f in s.lifts[j].targetFloors ==> f in r.lifts[j].targetFloors
    {
      assert s1.lifts[j] == s.lifts[j];
    }
  }

  lemma FrozenValid(s: System, i: nat)
    requires ValidSystem(s) && i < |s.lifts|
    ensures ValidSystem(Frozen(s, i)) && Frozen(s, i).lifts[i].status == Fault
    ensures Frozen(s, i).requests == s.requests
  {
    var l := s.lifts[i].(status := Fault, targetFloors := [], direction := Direction.Idle);
    assert WellFormed(l);
  }

  /** After the lift at position i enters fault no request is assigned
      to it. */
  lemma FrozenReleases(s: System, i: nat)
    requires ValidSystem(s)
    requires i < |s.lifts| && s.lifts[i].status != Fault
    ensures var r := Faulted(s, i);
      forall q :: q in r.requests ==> !AssignedTo(q, i + 1)
  {
    assert s.lifts[i].id == i + 1;
    var ks := Affected(s.requests, s.lifts[i].id);
    var s1 := Frozen(s, i);
    FrozenValid(s, i);
    ReassignAllRequests(s1, ks, i);
    var r := Faulted(s, i);
    assert r == ReassignAll(s1, ks);
    forall q | q in r.requests ensures !AssignedTo(q, i + 1) {
      var k :| 0 <= k < |r.requests| && r.requests[k] == q;
      if k !in ks {
        assert r.requests[k] == s.requests[k];
      }
    }
  }

  /** The requests after the lift at position i enters fault: none stays
      assigned to it, those it held are dispatched afresh, and the others
      are untouched. */
  lemma FrozenRequests(s: System, i: nat)
    requires ValidSystem(s)
    requires i < |s.lifts| && s.lifts[i].status != Fault
    ensures var r := Faulted(s, i);
      (forall q :: q in r.requests ==> !AssignedTo(q, i + 1)) &&
      (forall k :: 0 <= k < |s.requests| ==>
         if AssignedTo(s.requests[k], i + 1)
         then Redispatched(s.requests[k], r.requests[k], i + 1)
         else r.requests[k] == s.requests[k])
  {
    assert s.lifts[i].id == i + 1;
    var ks := Affected(s.requests, s.lifts[i].id);
    var s1 := Frozen(s, i);
    FrozenValid(s, i);
    FrozenReleases(s, i);
    ReassignAllRequests(s1, ks, i);
    var r := Faulted(s, i);
    assert r == ReassignAll(s1, ks);
    forall k | 0 <= k < |s.requests|
      ensures if AssignedTo(s.requests[k], i + 1)
              then Redispatched(s.requests[k], r.requests[k], i + 1)
              else r.requests[k] == s.requests[k]
    {
      if !AssignedTo(s.requests[k], i + 1) {
        assert forall m :: 0 <= m < |ks| ==> ks[m] != k;
      }
    }
  }

  /** A lift entering fault is frozen with no stops, keeps no request, and
      each request it had is dispatched afresh; the other requests are
      untouched and the other lifts at most gain stops. */
  lemma EnteringFault(s: System, liftId: int)
    requires ValidSystem(s)
    requires 1 <= liftId <= |s.lifts| && s.lifts[liftId - 1].status != Fault
    ensures var r := ToggleFault(s, liftId);
      var i := liftId - 1;
      ValidSystem(r) &&
      r.lifts[i] == s.lifts[i].(status := Fault, targetFloors := [], direction := Direction.Idle) &&
      (forall j :: 0 <= j < |s.lifts| && j != i ==>
         r.lifts[j] == s.lifts[j].(targetFloors := r.lifts[j].targetFloors) &&
         forall f :: f in s.lifts[j].targetFloors ==> f in r.lifts[j].targetFloors) &&
      (forall q :: q in r.requests ==> !AssignedTo(q, liftId)) &&
      (forall k :: 0 <= k < |s.requests| ==>
         if AssignedTo(s.requests[k], liftId)
         then Redispatched(s.requests[k], r.requests[k], liftId)
         else r.requests[k] == s.requests[k])
  {
    var i := liftId - 1;
    assert liftId == i + 1;
    FaultUnfolds(s, i);
    FrozenLifts(s, i);
    FrozenRequests(s, i);
  }

  /** Repairing a faulted lift changes its status to idle and nothing else. */
  lemma Repair(s: System, liftId: int)
    requires ValidSystem(s)
    requires 1 <= liftId <= |s.lifts| && s.lifts[liftId - 1].status == Fault
    ensures ToggleFault(s, liftId) == s.(lifts := s.lifts[liftId - 1 := s.lifts[liftId - 1].(status := LiftStatus.Idle)])
    ensures ToggleFault(s, liftId).lifts[liftId - 1].targetFloors == []
  {
    IndexOfValid(s, liftId);
  }

  // ---------------------------------------------------------------------
  // In-car requests

  /** Pressing the same in-car button twice in a row has the effect of
      pressing it once, whatever id and clock reading the second press
      gets. */
  lemma AddInternalIdempotent(s: System, liftId: int, floor: int, reqId: string, now: int,
                              reqId2: string, now2: int)
    ensures var once := AddInternal(s, liftId, floor, reqId, now);
      AddInternal(once, liftId, floor, reqId2, now2) == once
  {
    var once := AddInternal(s, liftId, floor, reqId, now);
    if Accepts(s, liftId, floor) {
      var i := IndexOf(s.lifts, liftId).value;
      assert forall j :: 0 <= j < |s.lifts| ==> once.lifts[j].id == s.lifts[j].id;
      assert IndexOf(once.lifts, liftId) == Some(i) by {
        var r := IndexOf(once.lifts, liftId);
        assert r.Some?;
        assert r.value == i;
      }
      assert !Accepts(once, liftId, floor);
    }
  }
}
