/** A lift's stop queue (`targetFloors`). A new stop is added by the source
    only when it is not already queued: it pushes the floor and then sorts the
    whole queue numerically. This module models that push-then-sort and proves
    that on a strictly ascending queue it is the ordered insertion of one new
    stop, so the queue stays strictly ascending. */
module StopQueue {
  import opened LiftTypes

  predicate Ascending(q: seq<int>)
  {
    forall i, j :: 0 <= i < j < |q| ==> q[i] <= q[j]
  }

  /** Puts `x` in front of the first element that is not smaller than it. */
  function InsertAscending(q: seq<int>, x: int): (r: seq<int>)
    ensures multiset(r) == multiset(q) + multiset{x}
    ensures forall y :: y in r <==> y in q || y == x
  {
    if q == [] || x <= q[0] then [x] + q
    else
      assert q == [q[0]] + q[1..];
      [q[0]] + InsertAscending(q[1..], x)
  }

  /** Every element after the head of an ascending queue is at least the head. */
  lemma HeadIsLeast(q: seq<int>)
    requires q != []
    ensures Ascending(q) ==> forall y :: y in q[1..] ==> q[0] <= y
    ensures StrictlyAscending(q) ==> forall y :: y in q[1..] ==> q[0] < y
  {
    forall y | y in q[1..] ensures (Ascending(q) ==> q[0] <= y) && (StrictlyAscending(q) ==> q[0] < y) {
      var k :| 0 <= k < |q[1..]| && q[1..][k] == y;
      assert q[k + 1] == y;
    }
  }

  /** A head not above (strictly: below) every later element extends an
      ascending (strictly ascending) queue. */
  lemma ConsKeepsOrder(h: int, rest: seq<int>)
    ensures Ascending(rest) && (forall y :: y in rest ==> h <= y) ==> Ascending([h] + rest)
    ensures StrictlyAscending(rest) && (forall y :: y in rest ==> h < y) ==> StrictlyAscending([h] + rest)
  {
    var r := [h] + rest;
    forall j | 1 <= j < |r| ensures r[j] == rest[j - 1] && rest[j - 1] in rest {
    }
  }

  /** The tail of an ascending (strictly ascending) queue is too. */
  lemma TailKeepsOrder(q: seq<int>)
    requires q != []
    ensures Ascending(q) ==> Ascending(q[1..])
    ensures StrictlyAscending(q) ==> StrictlyAscending(q[1..])
  {
    forall i, j | 0 <= i < j < |q[1..]| ensures q[1..][i] == q[i + 1] && q[1..][j] == q[j + 1] {
    }
  }

  lemma {:induction false} InsertKeepsAscending(q: seq<int>, x: int)
    requires Ascending(q)
    ensures Ascending(InsertAscending(q, x))
  {
    if q == [] || x <= q[0] {
      if q != [] {
        HeadIsLeast(q);
      }
      ConsKeepsOrder(x, q);
    } else {
      TailKeepsOrder(q);
      InsertKeepsAscending(q[1..], x);
      HeadIsLeast(q);
      ConsKeepsOrder(q[0], InsertAscending(q[1..], x));
    }
  }

  lemma {:induction false} InsertKeepsStrict(q: seq<int>, x: int)
    requires StrictlyAscending(q) && x !in q
    ensures StrictlyAscending(InsertAscending(q, x))
  {
    if q == [] || x <= q[0] {
      if q != [] {
        HeadIsLeast(q);
        assert q[0] in q;
      }
      ConsKeepsOrder(x, q);
    } else {
      TailKeepsOrder(q);
      assert forall y :: y in q[1..] ==> y in q;
      InsertKeepsStrict(q[1..], x);
      HeadIsLeast(q);
      ConsKeepsOrder(q[0], InsertAscending(q[1..], x));
    }
  }

  /** Ordered insertion keeps a queue in order, and strictly so for a new element. */
  lemma InsertKeepsOrder(q: seq<int>, x: int)
    ensures Ascending(q) ==> Ascending(InsertAscending(q, x))
    ensures StrictlyAscending(q) && x !in q ==> StrictlyAscending(InsertAscending(q, x))
  {
    if Ascending(q) {
      InsertKeepsAscending(q, x);
    }
    if StrictlyAscending(q) && x !in q {
      InsertKeepsStrict(q, x);
    }
  }

  /** Numeric ascending sort of a sequence, as an insertion sort. */
  function SortAscending(s: seq<int>): (r: seq<int>)
    ensures multiset(r) == multiset(s)
    ensures Ascending(r)
  {
    if s == [] then []
    else
      assert s == s[..|s| - 1] + [s[|s| - 1]];
      InsertKeepsOrder(SortAscending(s[..|s| - 1]), s[|s| - 1]);
      InsertAscending(SortAscending(s[..|s| - 1]), s[|s| - 1])
  }

  /** Adding a stop to a queue: nothing if the floor is already queued,
      otherwise push it and sort the queue. */
  function Enqueue(q: seq<int>, f: int): (r: seq<int>)
    ensures f in r
    ensures forall y :: y in r <==> y in q || y == f
    ensures f in q ==> r == q
    ensures f !in q ==> |r| == |q| + 1
    ensures StrictlyAscending(q) ==> StrictlyAscending(r)
  {
    if f in q then q
    else
      var r := SortAscending(q + [f]);
      assert multiset(r) == multiset(q + [f]);
      assert forall y :: y in r <==> y in multiset(r);
      if StrictlyAscending(q) then
        EnqueueInserts(q, f);
        InsertKeepsOrder(q, f);
        r
      else r
  }

  /** An element not below any element of an ascending queue goes at its end. */
  lemma {:induction false} InsertLargest(q: seq<int>, x: int)
    requires Ascending(q)
    requires forall y :: y in q ==> y <= x
    ensures InsertAscending(q, x) == q + [x]
  {
    if q == [] {
    } else if x <= q[0] {
      AllEqual(q, x);
    } else {
      assert q == [q[0]] + q[1..];
      assert forall y :: y in q[1..] ==> y in q;
      TailKeepsOrder(q);
      InsertLargest(q[1..], x);
      assert [q[0]] + (q[1..] + [x]) == q + [x];
    }
  }

  /** An ascending queue squeezed between `x` and its head is all `x`, so
      `x` may go at either end. */
  lemma AllEqual(q: seq<int>, x: int)
    requires Ascending(q) && q != [] && x <= q[0]
    requires forall y :: y in q ==> y <= x
    ensures [x] + q == q + [x]
  {
    forall k | 0 <= k < |q| ensures q[k] == x {
      assert q[k] in q;
      assert k > 0 ==> q[0] <= q[k];
    }
    forall k | 0 <= k < |q| + 1 ensures ([x] + q)[k] == (q + [x])[k] {
      if 0 < k {
        assert ([x] + q)[k] == q[k - 1];
      }
    }
  }

  /** Sorting a queue that is already in order leaves it as it is. */
  lemma {:induction false} SortKeepsAscending(q: seq<int>)
    requires Ascending(q)
    ensures SortAscending(q) == q
  {
    if q != [] {
      var init := q[..|q| - 1];
      SortKeepsAscending(init);
      InsertLargest(init, q[|q| - 1]);
      assert init + [q[|q| - 1]] == q;
    }
  }

  /** On a strictly ascending queue, push-then-sort of a new floor is the
      ordered insertion of that floor. */
  lemma EnqueueInserts(q: seq<int>, f: int)
    requires StrictlyAscending(q)
    requires f !in q
    ensures SortAscending(q + [f]) == InsertAscending(q, f)
  {
    assert (q + [f])[..|q|] == q;
    SortKeepsAscending(q);
  }

  /** A strictly ascending queue is determined by the floors it holds: so
      `Enqueue` gives the only strictly ascending queue of the old stops and
      the new floor. */
  lemma {:induction false} AscendingUnique(a: seq<int>, b: seq<int>)
    requires StrictlyAscending(a) && StrictlyAscending(b)
    requires forall y :: y in a <==> y in b
    ensures a == b
  {
    if a != [] {
      assert a[0] in a;
    }
    if b != [] {
      assert b[0] in b;
    }
    if a != [] && b != [] {
      assert a[0] in b && b[0] in a;
      assert a[0] == b[0];
      assert forall y :: y in a[1..] <==> y in a && y != a[0];
      assert forall y :: y in b[1..] <==> y in b && y != b[0];
      AscendingUnique(a[1..], b[1..]);
      assert a == [a[0]] + a[1..] && b == [b[0]] + b[1..];
    }
  }
}
