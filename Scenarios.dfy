/** Concrete runs of the controller, worked out on small banks of lifts. */
module Scenarios {
  import opened LiftTypes
  import opened StopQueue
  import opened Dispatch
  import opened Ledger
  import opened Engine
  import opened Consistency

  function IdleAt(id: int, floor: int): Lift
  {
    Lift(id, floor, [], LiftStatus.Idle, Direction.Idle, LiftCapacity, 0)
  }

  function Call(id: string, floor: int, direction: Direction, timestamp: int): Request
  {
    Request(id, floor, Some(direction), timestamp, false, None, Pending)
  }

  /** The request `q` as dispatched to lift `liftId`. */
  function Given(q: Request, liftId: int): Request
  {
    q.(liftId := Some(liftId), status := Assigned)
  }

  /** A first stop joins an empty queue as its only stop. */
  lemma EnqueueEmpty(f: int)
    ensures Enqueue([], f) == [f]
  {
    var r := Enqueue([], f);
    assert |r| == 1 && f in r;
  }

  /** A stop above every queued stop joins at the end. */
  lemma EnqueueAbove(q: seq<int>, f: int)
    requires Ascending(q) && forall y :: y in q ==> y < f
    ensures Enqueue(q, f) == q + [f]
  {
    assert f !in q;
    forall i, j | 0 <= i < j < |q + [f]| ensures (q + [f])[i] <= (q + [f])[j] {
      assert q[i] in q;
    }
    SortKeepsAscending(q + [f]);
  }

  /** A tick of a bank of one lift. */
  lemma TickSingle(l: Lift, rs: seq<Request>, now: int)
    ensures Tick(System([l], rs), now) == System([Step(l)], Service(rs, l, now))
  {
    var t := Tick(System([l], rs), now);
    assert t.lifts == [Step(l)];
    assert [l][..0] == [];
    assert ServiceAll([l], rs, now) == Service(rs, l, now);
  }

  lemma TicksCons(s: System, now: int, rest: seq<int>)
    ensures Ticks(s, [now] + rest) == Ticks(Tick(s, now), rest)
  {
    assert ([now] + rest)[1..] == rest;
  }

  // ---------------------------------------------------------------------
  // A lift answering a call

  /** One lift at floor 5; a call from floor 0 made at time 0 is assigned to
      it and floor 0 becomes its only stop. */
  lemma CallAssigned()
    ensures AddExternal(System([IdleAt(1, 5)], []), Call("a", 0, Up, 0)) ==
      System([IdleAt(1, 5).(targetFloors := [0])], [Given(Call("a", 0, Up, 0), 1)])
  {
    OnlyLiftTakesIt(IdleAt(1, 5), Call("a", 0, Up, 0));
  }

  /** A call to a bank of one working lift with no stops and an empty
      ledger: the lift takes it, with its floor as only stop. */
  lemma OnlyLiftTakesIt(l: Lift, q: Request)
    requires Eligible(l) && l.targetFloors == []
    ensures AddExternal(System([l], []), q) == System([l.(targetFloors := [q.floor])], [Given(q, l.id)])
  {
    var s := System([l], [q]);
    ExternalUnfolds(System([l], []), q);
    assert [] + [q] == [q];
    NearestUnique(s.lifts, q.floor, 0);
    EnqueueEmpty(q.floor);
    AssignChosen(s, 0, 0);
  }

  /** An external request is appended and then dispatched from the end of
      the ledger. */
  lemma ExternalUnfolds(s: System, q: Request)
    ensures AddExternal(s, q) == Assign(System(s.lifts, s.requests + [q]), |s.requests|)
  {
  }

  /** The lift going down with the call assigned, standing at `floor`. */
  function Descending(floor: int): Lift
  {
    IdleAt(1, floor).(targetFloors := [0], status := MovingDown, direction := Down)
  }

  /** Each of the next five ticks, one second apart, takes it one floor
      down; the call stays assigned. */
  lemma CallTravels()
    ensures Ticks(System([IdleAt(1, 5).(targetFloors := [0])], [Given(Call("a", 0, Up, 0), 1)]),
                  [1000, 2000, 3000, 4000, 5000]) ==
      System([Descending(0)], [Given(Call("a", 0, Up, 0), 1)])
  {
    var rs := [Given(Call("a", 0, Up, 0), 1)];
    TickSingle(IdleAt(1, 5).(targetFloors := [0]), rs, 1000);
    TickSingle(Descending(4), rs, 2000);
    TickSingle(Descending(3), rs, 3000);
    TickSingle(Descending(2), rs, 4000);
    TickSingle(Descending(1), rs, 5000);
    TicksCons(System([IdleAt(1, 5).(targetFloors := [0])], rs), 1000, [2000, 3000, 4000, 5000]);
    TicksCons(System([Descending(4)], rs), 2000, [3000, 4000, 5000]);
    TicksCons(System([Descending(3)], rs), 3000, [4000, 5000]);
    TicksCons(System([Descending(2)], rs), 4000, [5000]);
    TicksCons(System([Descending(1)], rs), 5000, []);
  }

  /** The sixth tick serves floor 0: the lift becomes idle there, and the
      call, completed 6000 ms after it was made, is purged in the same tick. */
  lemma CallServed()
    ensures Tick(System([Descending(0)], [Given(Call("a", 0, Up, 0), 1)]), 6000) ==
      System([IdleAt(1, 0)], [])
  {
    var q := Given(Call("a", 0, Up, 0), 1);
    TickSingle(Descending(0), [q], 6000);
    assert MarkCompleted([q], 1, 0) == [q.(status := Completed)];
    assert Cleanup([q.(status := Completed)], 6000) == [];
  }

  /** The same tick at a clock reading under 5000 ms after the call keeps
      the completed call in the ledger. */
  lemma CallServedEarly()
    ensures Tick(System([Descending(0)], [Given(Call("a", 0, Up, 0), 1)]), 4999) ==
      System([IdleAt(1, 0)], [Given(Call("a", 0, Up, 0), 1).(status := Completed)])
  {
    var q := Given(Call("a", 0, Up, 0), 1);
    TickSingle(Descending(0), [q], 4999);
    assert MarkCompleted([q], 1, 0) == [q.(status := Completed)];
  }

  // ---------------------------------------------------------------------
  // Ties

  /** Two lifts equally far from the call: the first in the registry takes
      it, whichever side it is on. */
  lemma EqualDistanceFirstWins()
    ensures Nearest([IdleAt(1, 0), IdleAt(2, 8)], 4) == Some(0)
    ensures Nearest([IdleAt(1, 8), IdleAt(2, 0)], 4) == Some(0)
  {
    NearestUnique([IdleAt(1, 0), IdleAt(2, 8)], 4, 0);
    NearestUnique([IdleAt(1, 8), IdleAt(2, 0)], 4, 0);
  }

  /** Lifts at floors 0 and 9 are not equally far from floor 4: the nearer
      one takes the call, wherever it stands in the registry. */
  lemma UnequalDistanceNearerWins()
    ensures Nearest([IdleAt(1, 0), IdleAt(2, 9)], 4) == Some(0)
    ensures Nearest([IdleAt(1, 9), IdleAt(2, 0)], 4) == Some(1)
  {
    NearestUnique([IdleAt(1, 0), IdleAt(2, 9)], 4, 0);
    NearestUnique([IdleAt(1, 9), IdleAt(2, 0)], 4, 1);
  }

  /** A faulted lift is passed over however near it is, and a bank with no
      working lift leaves the call undispatched. */
  lemma FaultedPassedOver()
    ensures Nearest([IdleAt(1, 4).(status := Fault), IdleAt(2, 9)], 4) == Some(1)
    ensures Nearest([IdleAt(1, 4).(status := Fault)], 4) == None
  {
    NearestUnique([IdleAt(1, 4).(status := Fault), IdleAt(2, 9)], 4, 1);
  }

  // ---------------------------------------------------------------------
  // A fault

  /** Lift 1 at floor 0 holding calls for floors 3 and 7. */
  function Busy(): Lift
  {
    IdleAt(1, 0).(targetFloors := [3, 7], status := MovingUp, direction := Up)
  }

  function Held(): seq<Request>
  {
    [Given(Call("c", 3, Up, 0), 1), Given(Call("d", 7, Down, 0), 1)]
  }

  /** Lift 1 faulted, its stops gone, its calls not yet dispatched again. */
  function Stopped(): Lift
  {
    IdleAt(1, 0).(status := Fault)
  }

  /** Dispatching to the lift at position c, once `Nearest` has chosen it. */
  lemma AssignChosen(s: System, k: nat, c: nat)
    requires k < |s.requests| && c < |s.lifts|
    requires Nearest(s.lifts, s.requests[k].floor) == Some(c)
    ensures Assign(s, k) ==
      System(s.lifts[c := s.lifts[c].(targetFloors := Enqueue(s.lifts[c].targetFloors, s.requests[k].floor))],
             s.requests[k := Given(s.requests[k], s.lifts[c].id)])
  {
  }

  /** Of two lifts, only the second can take a request: it gets it. */
  lemma SecondTakesIt(first: Lift, second: Lift, rs: seq<Request>, k: nat)
    requires k < |rs| && !Eligible(first) && Eligible(second)
    ensures Assign(System([first, second], rs), k) ==
      System([first, second.(targetFloors := Enqueue(second.targetFloors, rs[k].floor))], rs[k := Given(rs[k], second.id)])
  {
    NearestUnique([first, second], rs[k].floor, 1);
    AssignChosen(System([first, second], rs), k, 1);
    assert [first, second][1 := second.(targetFloors := Enqueue(second.targetFloors, rs[k].floor))] ==
      [first, second.(targetFloors := Enqueue(second.targetFloors, rs[k].floor))];
  }

  /** A strictly increasing sequence of naturals below n has at most n elements. */
  lemma {:induction false} IncreasingBound(ks: seq<nat>, n: nat)
    requires forall i :: 0 <= i < |ks| ==> ks[i] < n
    requires forall i, j :: 0 <= i < j < |ks| ==> ks[i] < ks[j]
    ensures |ks| <= n
  {
    if ks != [] {
      IncreasingBound(ks[..|ks| - 1], ks[|ks| - 1]);
    }
  }

  /** Two requests both assigned to lift `id` are its affected requests. */
  lemma AffectedBoth(p: Request, q: Request, id: int)
    requires AssignedTo(p, id) && AssignedTo(q, id)
    ensures Affected([p, q], id) == [0, 1]
  {
    var ks := Affected([p, q], id);
    assert 0 in ks && 1 in ks;
    IncreasingBound(ks, 2);
    assert ks[0] < ks[1] < 2;
  }

  /** Lift 1 enters fault: its stops and heading go, and the requests
      assigned to it are dispatched afresh. */
  lemma FaultStart(other: Lift, rs: seq<Request>)
    ensures ToggleFault(System([Busy(), other], rs), 1) == ReassignAll(System([Stopped(), other], rs), Affected(rs, 1))
  {
    var lifts := [Busy(), other];
    assert IndexOf(lifts, 1) == Some(0);
    assert lifts[0 := Busy().(status := Fault, targetFloors := [], direction := Direction.Idle)] == [Stopped(), other];
  }

  /** Lift 1 enters fault holding two calls, the lower first, and the other
      lift of the bank is idle with no stops: both calls move to it, in
      ledger order, and it queues both floors. */
  lemma HandsOver(other: Lift, p: Request, q: Request)
    requires Eligible(other) && other.id == 2 && other.targetFloors == []
    requires AssignedTo(p, 1) && AssignedTo(q, 1) && p.floor < q.floor
    ensures ToggleFault(System([Busy(), other], [p, q]), 1) ==
      System([Stopped(), other.(targetFloors := [p.floor, q.floor])], [Given(p, 2), Given(q, 2)])
  {
    FaultStart(other, [p, q]);
    AffectedBoth(p, q, 1);
    FirstMoves(other, p, q);
    SecondMoves(other.(targetFloors := [p.floor]), p, q);
    assert [0, 1][1..] == [1];
  }

  /** The first held call goes to the idle lift, whose queue was empty. */
  lemma FirstMoves(other: Lift, p: Request, q: Request)
    requires Eligible(other) && other.id == 2 && other.targetFloors == []
    ensures Reassign(System([Stopped(), other], [p, q]), 0) ==
      System([Stopped(), other.(targetFloors := [p.floor])], [Given(p, 2), q])
  {
    var pr := p.(status := Pending, liftId := None);
    assert [p, q][0 := pr] == [pr, q];
    assert Reassign(System([Stopped(), other], [p, q]), 0) == Assign(System([Stopped(), other], [pr, q]), 0);
    EmptyTakesFirst(Stopped(), other, pr, q);
    assert Given(pr, 2) == Given(p, 2);
  }

  /** Of two lifts, only the second can take the first of two requests, and
      it has no stops: it gets that request, with its floor as only stop. */
  lemma EmptyTakesFirst(first: Lift, second: Lift, r: Request, q: Request)
    requires !Eligible(first) && Eligible(second) && second.targetFloors == []
    ensures Assign(System([first, second], [r, q]), 0) ==
      System([first, second.(targetFloors := [r.floor])], [Given(r, second.id), q])
  {
    SecondTakesIt(first, second, [r, q], 0);
    EnqueueEmpty(r.floor);
    assert [r, q][0 := Given(r, second.id)] == [Given(r, second.id), q];
  }

  /** The second held call, for a higher floor, joins the queue behind the
      first. */
  lemma SecondMoves(other: Lift, p: Request, q: Request)
    requires Eligible(other) && other.id == 2 && other.targetFloors == [p.floor] && p.floor < q.floor
    ensures Reassign(System([Stopped(), other], [Given(p, 2), q]), 1) ==
      System([Stopped(), other.(targetFloors := [p.floor, q.floor])], [Given(p, 2), Given(q, 2)])
  {
    var qr := q.(status := Pending, liftId := None);
    assert [Given(p, 2), q][1 := qr] == [Given(p, 2), qr];
    assert Reassign(System([Stopped(), other], [Given(p, 2), q]), 1) ==
      Assign(System([Stopped(), other], [Given(p, 2), qr]), 1);
    HigherJoinsBehind(Stopped(), other, Given(p, 2), qr, p.floor);
    assert Given(qr, 2) == Given(q, 2);
  }

  /** Of two lifts, only the second can take the second of two requests,
      and its one stop is below that request's floor: it gets the request,
      whose floor joins behind that stop. */
  lemma HigherJoinsBehind(first: Lift, second: Lift, p: Request, r: Request, stop: int)
    requires !Eligible(first) && Eligible(second) && second.targetFloors == [stop] && stop < r.floor
    ensures Assign(System([first, second], [p, r]), 1) ==
      System([first, second.(targetFloors := [stop, r.floor])], [p, Given(r, second.id)])
  {
    SecondTakesIt(first, second, [p, r], 1);
    EnqueueAbove([stop], r.floor);
    assert [stop] + [r.floor] == [stop, r.floor];
    assert [p, r][1 := Given(r, second.id)] == [p, Given(r, second.id)];
  }

  /** When lift 1 enters fault, its stops go and both calls move, in ledger
      order, to lift 2 idle at floor 5. */
  lemma FaultHandsCallsOver()
    ensures ToggleFault(System([Busy(), IdleAt(2, 5)], Held()), 1) ==
      System([Stopped(), IdleAt(2, 5).(targetFloors := [3, 7])],
             [Given(Call("c", 3, Up, 0), 2), Given(Call("d", 7, Down, 0), 2)])
  {
    assert Held() == [Held()[0], Held()[1]];
    HandsOver(IdleAt(2, 5), Held()[0], Held()[1]);
  }

  /** Lift 1 enters fault holding two calls while no other lift can take
      one: both calls are left pending with no lift. */
  lemma NobodyLeft(other: Lift, p: Request, q: Request)
    requires !Eligible(other) && AssignedTo(p, 1) && AssignedTo(q, 1)
    ensures ToggleFault(System([Busy(), other], [p, q]), 1) ==
      System([Stopped(), other], [p.(status := Pending, liftId := None), q.(status := Pending, liftId := None)])
  {
    var lifts := [Stopped(), other];
    var pr := p.(status := Pending, liftId := None);
    FaultStart(other, [p, q]);
    AffectedBoth(p, q, 1);
    assert !Eligible(lifts[0]) && !Eligible(lifts[1]);
    NobodyTakes(lifts, [p, q], 0);
    assert [p, q][0 := pr] == [pr, q];
    NobodyTakes(lifts, [pr, q], 1);
    assert [pr, q][1 := q.(status := Pending, liftId := None)] ==
      [pr, q.(status := Pending, liftId := None)];
    assert [0, 1][1..] == [1];
  }

  /** With lift 2 faulted as well, both calls are left pending with no lift. */
  lemma FaultLeavesCallsPending()
    ensures ToggleFault(System([Busy(), IdleAt(2, 5).(status := Fault)], Held()), 1) ==
      System([Stopped(), IdleAt(2, 5).(status := Fault)], [Call("c", 3, Up, 0), Call("d", 7, Down, 0)])
  {
    assert Held() == [Held()[0], Held()[1]];
    NobodyLeft(IdleAt(2, 5).(status := Fault), Held()[0], Held()[1]);
  }

  /** With no lift able to take it, a request dispatched afresh is left
      pending with no lift. */
  lemma NobodyTakes(lifts: seq<Lift>, rs: seq<Request>, k: nat)
    requires k < |rs| && forall j :: 0 <= j < |lifts| ==> !Eligible(lifts[j])
    ensures Reassign(System(lifts, rs), k) == System(lifts, rs[k := rs[k].(status := Pending, liftId := None)])
  {
    assert Nearest(lifts, rs[k].floor) == None;
  }

  // ---------------------------------------------------------------------
  // Retention and in-car buttons

  /** The cleanup pass keeps a completed request younger than 5000 ms and
      purges it at 5000 ms; a request still open is never purged. */
  lemma RetentionBoundary()
    ensures var done := Call("e", 2, Up, 1000).(liftId := Some(1), status := Completed);
      var open := Given(Call("f", 3, Up, 0), 1);
      Cleanup([done, open], 5999) == [done, open] &&
      Cleanup([done, open], 6000) == [open] &&
      Cleanup([open], 1000000) == [open]
  {
    var done := Call("e", 2, Up, 1000).(liftId := Some(1), status := Completed);
    var open := Given(Call("f", 3, Up, 0), 1);
    assert [done, open][1..] == [open];
  }

  /** The same in-car button pressed twice adds one stop and one request. */
  lemma InCarButtonTwice()
    ensures AddInternal(AddInternal(System([IdleAt(1, 2)], []), 1, 6, "g", 10), 1, 6, "h", 20) ==
      System([IdleAt(1, 2).(targetFloors := [6])], [Request("g", 6, None, 10, true, Some(1), Assigned)])
  {
    var s := System([IdleAt(1, 2)], []);
    EnqueueEmpty(6);
    assert IndexOf(s.lifts, 1) == Some(0);
    assert AddInternal(s, 1, 6, "g", 10) ==
      System([IdleAt(1, 2).(targetFloors := [6])], [Request("g", 6, None, 10, true, Some(1), Assigned)]);
  }
}
