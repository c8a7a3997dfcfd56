/** The request ledger: which requests a lift completes when it serves a
    floor, which completed requests the cleanup pass purges, and which
    requests a lift entering fault leaves without a lift. */
module Ledger {
  import opened LiftTypes

  /** A request that the cleanup pass purges at time `now`: completed, and
      created at least `RetentionMs` milliseconds before. */
  predicate Expired(q: Request, now: int)
  {
    q.status == Completed && now - q.timestamp >= RetentionMs
  }

  /** The cleanup pass: keeps, in order, every request that has not expired. */
  function Cleanup(rs: seq<Request>, now: int): (r: seq<Request>)
    ensures |r| <= |rs|
    ensures forall q :: q in r <==> q in rs && !Expired(q, now)
    ensures forall q :: !Expired(q, now) ==> multiset(r)[q] == multiset(rs)[q]
  {
    if rs == [] then []
    else
      assert rs == [rs[0]] + rs[1..];
      (if Expired(rs[0], now) then [] else [rs[0]]) + Cleanup(rs[1..], now)
  }

  lemma Regroup(x: seq<Request>, y: seq<Request>, z: seq<Request>)
    ensures x + (y + z) == (x + y) + z
  {
  }

  /** The cleanup pass on a ledger with a first request `x`. */
  lemma CleanupCons(x: Request, rest: seq<Request>, now: int)
    ensures Cleanup([x] + rest, now) == (if Expired(x, now) then [] else [x]) + Cleanup(rest, now)
  {
    assert ([x] + rest)[0] == x && ([x] + rest)[1..] == rest;
  }

  /** Cleanup works element by element, so it keeps the relative order of
      the survivors: purging a concatenation purges each part. */
  lemma {:induction false} CleanupAppend(a: seq<Request>, b: seq<Request>, now: int)
    ensures Cleanup(a + b, now) == Cleanup(a, now) + Cleanup(b, now)
  {
    if a == [] {
      assert a + b == b;
    } else {
      var x, t := a[0], a[1..];
      var head := if Expired(x, now) then [] else [x];
      assert a == [x] + t;
      assert a + b == [x] + (t + b);
      CleanupCons(x, t + b, now);
      CleanupCons(x, t, now);
      CleanupAppend(t, b, now);
      Regroup(head, Cleanup(t, now), Cleanup(b, now));
    }
  }

  /** A ledger with nothing expired is left exactly as it is. */
  lemma {:induction false} CleanupNothingExpired(rs: seq<Request>, now: int)
    requires forall q :: q in rs ==> !Expired(q, now)
    ensures Cleanup(rs, now) == rs
  {
    if rs != [] {
      var x, t := rs[0], rs[1..];
      assert rs == [x] + t;
      assert forall q :: q in t ==> q in rs;
      CleanupNothingExpired(t, now);
      CleanupCons(x, t, now);
    }
  }

  /** Running the cleanup pass twice at the same time purges nothing more. */
  lemma CleanupIdempotent(rs: seq<Request>, now: int)
    ensures Cleanup(Cleanup(rs, now), now) == Cleanup(rs, now)
  {
    CleanupNothingExpired(Cleanup(rs, now), now);
  }

  /** A request assigned to lift `liftId`. */
  predicate AssignedTo(q: Request, liftId: int)
  {
    q.liftId == Some(liftId) && q.status == Assigned
  }

  /** The request a lift completes when it serves `floor`: one assigned to
      it for that floor. */
  predicate Matches(q: Request, liftId: int, floor: int)
  {
    AssignedTo(q, liftId) && q.floor == floor
  }

  /** The ledger after lift `liftId` served `floor`: the matching requests
      are completed, every other request is as it was. */
  function MarkCompleted(rs: seq<Request>, liftId: int, floor: int): seq<Request>
  {
    seq(|rs|, j requires 0 <= j < |rs| =>
      if Matches(rs[j], liftId, floor) then rs[j].(status := Completed) else rs[j])
  }

  /** Indices, in ledger order, of the requests assigned to lift `liftId`. */
  function Affected(rs: seq<Request>, liftId: int): (ks: seq<nat>)
    ensures forall i :: 0 <= i < |ks| ==> ks[i] < |rs| && AssignedTo(rs[ks[i]], liftId)
    ensures forall k :: 0 <= k < |rs| && AssignedTo(rs[k], liftId) ==> k in ks
    ensures forall i, j :: 0 <= i < j < |ks| ==> ks[i] < ks[j]
  {
    if rs == [] then []
    else
      var front := rs[..|rs| - 1];
      assert forall k :: 0 <= k < |front| ==> front[k] == rs[k];
      Affected(front, liftId) + (if AssignedTo(rs[|rs| - 1], liftId) then [|rs| - 1] else [])
  }
}
