/** The choice of a lift for a request: among the lifts that are not faulted
    and below capacity, the one whose current floor is nearest the requested
    floor. The source sorts the eligible lifts by distance with a stable sort
    and takes the first, so of several equally near lifts the earliest in the
    registry wins. */
module Dispatch {
  import opened LiftTypes

  /** Number of floors between two floors. */
  function Distance(a: int, b: int): nat
  {
    if a >= b then a - b else b - a
  }

  /** Lift `c` is the one the dispatcher picks for `floor`: it is eligible,
      no eligible lift is nearer, and every eligible lift before it is
      strictly farther. */
  predicate IsNearest(lifts: seq<Lift>, floor: int, c: int)
  {
    0 <= c < |lifts| && Eligible(lifts[c]) &&
    (forall j :: 0 <= j < |lifts| && Eligible(lifts[j]) ==>
       Distance(lifts[c].currentFloor, floor) <= Distance(lifts[j].currentFloor, floor)) &&
    (forall j :: 0 <= j < c && Eligible(lifts[j]) ==>
       Distance(lifts[c].currentFloor, floor) < Distance(lifts[j].currentFloor, floor))
  }

  /** Index of the nearest eligible lift, or None when every lift is faulted
      or full. */
  function Nearest(lifts: seq<Lift>, floor: int): (r: Option<nat>)
    ensures r.None? <==> forall j :: 0 <= j < |lifts| ==> !Eligible(lifts[j])
    ensures r.Some? ==> IsNearest(lifts, floor, r.value)
  {
    if lifts == [] then None
    else
      var rest := Nearest(lifts[1..], floor);
      assert forall j :: 1 <= j < |lifts| ==> lifts[j] == lifts[1..][j - 1];
      if Eligible(lifts[0]) &&
         (rest.None? ||
          Distance(lifts[0].currentFloor, floor) <= Distance(lifts[rest.value + 1].currentFloor, floor))
      then Some(0)
      else if rest.None? then None
      else Some(rest.value + 1)
  }

  /** The characterisation determines the choice: any lift meeting it is the
      one `Nearest` returns. */
  lemma NearestUnique(lifts: seq<Lift>, floor: int, c: int)
    requires IsNearest(lifts, floor, c)
    ensures Nearest(lifts, floor) == Some(c)
  {
  }
}
