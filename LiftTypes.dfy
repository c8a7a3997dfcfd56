/** The entities the controller works on: lifts and requests, with their
    status enumerations, as the type declarations of the system define them. */
module LiftTypes {

  datatype Option<T> = None | Some(value: T)

  /** Operating state of a lift car. */
  datatype LiftStatus = Idle | MovingUp | MovingDown | Fault

  /** Travel direction; a request from a floor panel also carries one. */
  datatype Direction = Up | Down | Idle

  /** Lifecycle of a request: pending until a lift takes it, completed once served. */
  datatype RequestStatus = Pending | Assigned | Completed

  /** A lift car. `targetFloors` is its stop queue. */
  datatype Lift = Lift(
    id: int,
    currentFloor: int,
    targetFloors: seq<int>,
    status: LiftStatus,
    direction: Direction,
    capacity: int,
    currentLoad: int)

  /** A request to visit a floor, from a floor panel (external, carries a
      direction) or from the buttons inside a car (internal). `liftId` is the
      id of the lift serving it, a lookup key and not a reference. */
  datatype Request = Request(
    id: string,
    floor: int,
    direction: Option<Direction>,
    timestamp: int,
    isInternal: bool,
    liftId: Option<int>,
    status: RequestStatus)

  /** Every lift is created with this capacity. */
  const LiftCapacity := 8

  /** A completed request is purged once it is this many milliseconds old. */
  const RetentionMs := 5000

  /** The direction that goes with a status: moving up means up, moving down
      means down, idle and fault mean idle. */
  function Heading(s: LiftStatus): Direction
  {
    match s
    case MovingUp => Up
    case MovingDown => Down
    case Idle => Direction.Idle
    case Fault => Direction.Idle
  }

  /** A stop queue with no duplicates, in ascending order. */
  predicate StrictlyAscending(q: seq<int>)
  {
    forall i, j :: 0 <= i < j < |q| ==> q[i] < q[j]
  }

  /** The invariant of one lift: its queue is strictly ascending, its
      direction agrees with its status, and a faulted lift has no stops. */
  predicate WellFormed(l: Lift)
  {
    StrictlyAscending(l.targetFloors) &&
    l.direction == Heading(l.status) &&
    (l.status == Fault ==> l.targetFloors == [])
  }

  /** A lift that can take a new request: not faulted and below capacity. */
  predicate Eligible(l: Lift)
  {
    l.status != Fault && l.currentLoad < l.capacity
  }
}
