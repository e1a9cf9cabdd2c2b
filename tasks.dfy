/** Draft A's background task `process_waitlist` (backend/src/tasks.py):
    promote waitlisted attendees of one event into free seats, earliest
    waitlist position first, then renumber the rest of the waitlist 1..k. */
module Tasks {
  import opened Common
  import opened Ordering
  import opened Store

  /** Sort key of a row in `ORDER BY waitlist_position`. A waitlisted row
      without a position would sort first; no operation creates one. */
  function PosKey(r: Attendance): int
  {
    match r.waitlistPosition
    case Some(p) => p
    case None => 0
  }

  /** The row's place in the waitlist order of its event. */
  function KeyOf(rows: seq<Attendance>, i: int): Keyed
    requires 0 <= i < |rows|
  {
    (PosKey(rows[i]), i)
  }

  /** Waitlisted rows of event `e`, in table order. */
  function Queue(rows: seq<Attendance>, e: int): (q: seq<Keyed>)
    ensures |q| == Waiting(rows, e)
    ensures forall k :: 0 <= k < |q| ==> 0 <= q[k].1 < |rows|
  {
    if rows == [] then []
    else
      var n := |rows| - 1;
      Queue(rows[..n], e) + (if InSet(rows[n], e, WAITING) then [KeyOf(rows, n)] else [])
  }

  /** Every queued entry is a waitlisted row of `e` with its own key. */
  lemma {:induction false} QueueSound(rows: seq<Attendance>, e: int)
    ensures forall k :: 0 <= k < |Queue(rows, e)| ==>
      var j := Queue(rows, e)[k].1;
      0 <= j < |rows| && InSet(rows[j], e, WAITING) && Queue(rows, e)[k] == KeyOf(rows, j)
  {
    if rows != [] {
      var n := |rows| - 1;
      var init := rows[..n];
      QueueSound(init, e);
      var q0 := Queue(init, e);
      var q := Queue(rows, e);
      var tail := if InSet(rows[n], e, WAITING) then [KeyOf(rows, n)] else [];
      assert q == q0 + tail;
      forall k | 0 <= k < |q|
        ensures 0 <= q[k].1 < |rows| && InSet(rows[q[k].1], e, WAITING) && q[k] == KeyOf(rows, q[k].1)
      {
        if k < |q0| {
          assert q[k] == q0[k];
          var j := q0[k].1;
          assert 0 <= j < |init| && InSet(init[j], e, WAITING) && q0[k] == KeyOf(init, j);
          assert init[j] == rows[j];
        } else {
          assert q[k] == tail[0] == KeyOf(rows, n);
        }
      }
    }
  }

  /** Every waitlisted row of `e` is queued. */
  lemma {:induction false} QueueComplete(rows: seq<Attendance>, e: int)
    ensures forall i :: 0 <= i < |rows| && InSet(rows[i], e, WAITING) ==> KeyOf(rows, i) in Queue(rows, e)
  {
    if rows != [] {
      var n := |rows| - 1;
      var init := rows[..n];
      QueueComplete(init, e);
      var q0 := Queue(init, e);
      var q := Queue(rows, e);
      forall i | 0 <= i < |rows| && InSet(rows[i], e, WAITING) ensures KeyOf(rows, i) in q {
        if i < n {
          assert init[i] == rows[i];
          assert KeyOf(init, i) in q0;
        } else {
          assert q[|q0|] == KeyOf(rows, n);
        }
      }
    }
  }

  /** The queue is in table order, so no row is queued twice. */
  lemma {:induction false} QueueOrdered(rows: seq<Attendance>, e: int)
    ensures forall k, l :: 0 <= k < l < |Queue(rows, e)| ==> Queue(rows, e)[k].1 < Queue(rows, e)[l].1
  {
    if rows != [] {
      var n := |rows| - 1;
      QueueOrdered(rows[..n], e);
      var q0 := Queue(rows[..n], e);
      var q := Queue(rows, e);
      var tail := if InSet(rows[n], e, WAITING) then [KeyOf(rows, n)] else [];
      assert q == q0 + tail;
      forall k, l | 0 <= k < l < |q| ensures q[k].1 < q[l].1 {
        assert q[k] == q0[k];
        if l < |q0| {
          assert q[l] == q0[l];
        } else {
          assert q[l] == KeyOf(rows, n);
          assert q0[k].1 < |rows[..n]|;
        }
      }
    }
  }

  /** Sorting the queue keeps exactly its entries. */
  lemma {:induction false} SortedQueueFacts(rows: seq<Attendance>, e: int)
    ensures Ascending(Sort(Queue(rows, e)))
    ensures forall k :: 0 <= k < |Sort(Queue(rows, e))| ==>
      var j := Sort(Queue(rows, e))[k].1;
      0 <= j < |rows| && InSet(rows[j], e, WAITING) && Sort(Queue(rows, e))[k] == KeyOf(rows, j)
    ensures forall i :: 0 <= i < |rows| && InSet(rows[i], e, WAITING) ==> KeyOf(rows, i) in Sort(Queue(rows, e))
  {
    var q := Queue(rows, e);
    var s := Sort(q);
    QueueSound(rows, e);
    QueueComplete(rows, e);
    QueueOrdered(rows, e);
    SortAscending(q);
    forall k | 0 <= k < |s|
      ensures 0 <= s[k].1 < |rows| && InSet(rows[s[k].1], e, WAITING) && s[k] == KeyOf(rows, s[k].1)
    {
      assert s[k] in multiset(s);
      assert s[k] in multiset(q);
      var m :| 0 <= m < |q| && q[m] == s[k];
    }
    forall i | 0 <= i < |rows| && InSet(rows[i], e, WAITING) ensures KeyOf(rows, i) in s {
      assert KeyOf(rows, i) in multiset(q);
    }
  }

  /** The waitlisted rows of event `e` as `ORDER BY waitlist_position`
      returns them, ties in table order. */
  function WaitlistOrder(rows: seq<Attendance>, e: int): (ord: seq<Keyed>)
    ensures |ord| == Waiting(rows, e)
    ensures Ascending(ord)
    ensures forall k :: 0 <= k < |ord| ==>
      0 <= ord[k].1 < |rows| && InSet(rows[ord[k].1], e, WAITING) && ord[k] == KeyOf(rows, ord[k].1)
    ensures forall i :: 0 <= i < |rows| && InSet(rows[i], e, WAITING) ==> KeyOf(rows, i) in ord
    ensures forall k, l :: 0 <= k < l < |ord| ==> ord[k].1 != ord[l].1
  {
    SortedQueueFacts(rows, e);
    Sort(Queue(rows, e))
  }

  /** Row `i` is among the selected rows. */
  predicate Selects(sel: seq<Keyed>, i: int)
  {
    exists k :: 0 <= k < |sel| && sel[k].1 == i
  }

  predicate InRange(sel: seq<Keyed>, n: int)
  {
    forall k :: 0 <= k < |sel| ==> 0 <= sel[k].1 < n
  }

  predicate DistinctRows(sel: seq<Keyed>)
  {
    forall k, l :: 0 <= k < l < |sel| ==> sel[k].1 != sel[l].1
  }

  /** One promoted row: registered again, no waitlist position, new
      registration time. */
  function Promoted(r: Attendance, now: int): Attendance
  {
    r.(status := Registered, waitlistPosition := None, registeredAt := now)
  }

  /** The first loop of the task: promote every selected row. */
  function PromoteAll(rows: seq<Attendance>, sel: seq<Keyed>, now: int): (r: seq<Attendance>)
    requires InRange(sel, |rows|)
    ensures SameKeys(rows, r)
    ensures forall i :: 0 <= i < |rows| ==>
      r[i] == if Selects(sel, i) then Promoted(rows[i], now) else rows[i]
    decreases |sel|
  {
    if sel == [] then rows
    else
      var init := sel[..|sel| - 1];
      var p := PromoteAll(rows, init, now);
      var i := sel[|sel| - 1].1;
      assert forall j :: Selects(sel, j) <==> Selects(init, j) || j == i by {
        forall j ensures Selects(sel, j) ==> Selects(init, j) || j == i {
          if Selects(sel, j) && j != i {
            var k :| 0 <= k < |sel| && sel[k].1 == j;
            assert init[k].1 == j;
          }
        }
      }
      p[i := Promoted(p[i], now)]
  }

  /** The second loop of the task: `enumerate(remaining, 1)`, the k-th row
      of `rest` gets position k + 1. */
  function Renumber(rows: seq<Attendance>, rest: seq<Keyed>): (r: seq<Attendance>)
    requires InRange(rest, |rows|) && DistinctRows(rest)
    ensures SameKeys(rows, r)
    ensures forall k :: 0 <= k < |rest| ==>
      r[rest[k].1] == rows[rest[k].1].(waitlistPosition := Some(k + 1))
    ensures forall i :: 0 <= i < |rows| && !Selects(rest, i) ==> r[i] == rows[i]
    decreases |rest|
  {
    if rest == [] then rows
    else
      var n := |rest| - 1;
      var p := Renumber(rows, rest[..n]);
      var i := rest[n].1;
      assert forall j :: Selects(rest, j) && j != i ==> Selects(rest[..n], j) by {
        forall j | Selects(rest, j) && j != i ensures Selects(rest[..n], j) {
          var k :| 0 <= k < |rest| && rest[k].1 == j;
          assert rest[..n][k].1 == j;
        }
      }
      assert !Selects(rest[..n], i);
      p[i := p[i].(waitlistPosition := Some(n + 1))]
  }

  /** The number of free seats the task computes, or nothing for a missing
      event. */
  function Available(events: seq<Event>, rows: seq<Attendance>, e: int): Option<int>
  {
    match FindEvent(events, e)
    case None => None
    case Some(k) => Some(events[k].capacity - Confirmed(rows, e))
  }

  /** What the first query returns: the `available` earliest waitlisted rows. */
  function Selected(rows: seq<Attendance>, e: int, available: int): (sel: seq<Keyed>)
    requires available > 0
    ensures |sel| == Min(available, Waiting(rows, e))
    ensures InRange(sel, |rows|) && DistinctRows(sel)
    ensures forall k :: 0 <= k < |sel| ==> sel[k] == WaitlistOrder(rows, e)[k]
  {
    var ord := WaitlistOrder(rows, e);
    ord[..Min(available, |ord|)]
  }

  /** The table between the two loops of the task. */
  function AfterPromotion(rows: seq<Attendance>, e: int, available: int, now: int): (mid: seq<Attendance>)
    requires available > 0
    ensures SameKeys(rows, mid)
  {
    PromoteAll(rows, Selected(rows, e, available), now)
  }

  /** The table after both loops. */
  function PromoteWith(rows: seq<Attendance>, e: int, available: int, now: int): (r: seq<Attendance>)
    requires available > 0
    ensures SameKeys(rows, r)
  {
    var mid := AfterPromotion(rows, e, available, now);
    Renumber(mid, WaitlistOrder(mid, e))
  }

  /** `process_waitlist(event_id)` as a function of the tables: the
      attendees table after the task has run, `now` being the clock reading
      it stamps on promoted rows. */
  function Promote(events: seq<Event>, rows: seq<Attendance>, e: int, now: int): (r: seq<Attendance>)
    ensures SameKeys(rows, r)
  {
    match Available(events, rows, e)
    case None => rows
    case Some(available) =>
      if available > 0 then PromoteWith(rows, e, available, now) else rows
  }

  /** The task when the session does not flush before the second query:
      that query still sees the waitlist as it was before the first loop,
      in its old order, and the loop numbers every row it returns, the
      rows just promoted included. */
  function PromoteNoFlush(events: seq<Event>, rows: seq<Attendance>, e: int, now: int): (r: seq<Attendance>)
    ensures SameKeys(rows, r)
  {
    match Available(events, rows, e)
    case None => rows
    case Some(available) =>
      if available > 0 then
        Renumber(AfterPromotion(rows, e, available, now), WaitlistOrder(rows, e))
      else rows
  }

  /** Promoting distinct waitlisted rows moves each of them from the
      waitlist count to the seat count. */
  lemma {:induction false} PromoteAllTally(rows: seq<Attendance>, sel: seq<Keyed>, now: int, e: int)
    requires InRange(sel, |rows|) && DistinctRows(sel)
    requires forall k :: 0 <= k < |sel| ==> InSet(rows[sel[k].1], e, WAITING)
    ensures Confirmed(PromoteAll(rows, sel, now), e) == Confirmed(rows, e) + |sel|
    ensures Waiting(PromoteAll(rows, sel, now), e) == Waiting(rows, e) - |sel|
  {
    if sel != [] {
      var n := |sel| - 1;
      var init := sel[..n];
      PromoteAllTally(rows, init, now, e);
      var p := PromoteAll(rows, init, now);
      var i := sel[n].1;
      assert !Selects(init, i);
      assert p[i] == rows[i];
      TallyUpdate(p, i, Promoted(p[i], now), e, CONFIRMED);
      TallyUpdate(p, i, Promoted(p[i], now), e, WAITING);
    }
  }

  lemma RenumberTally(rows: seq<Attendance>, rest: seq<Keyed>, e: int)
    requires InRange(rest, |rows|) && DistinctRows(rest)
    ensures Confirmed(Renumber(rows, rest), e) == Confirmed(rows, e)
    ensures Waiting(Renumber(rows, rest), e) == Waiting(rows, e)
  {
    var r := Renumber(rows, rest);
    forall i | 0 <= i < |rows| ensures r[i].eventId == rows[i].eventId && r[i].status == rows[i].status {
      if Selects(rest, i) {
        var k :| 0 <= k < |rest| && rest[k].1 == i;
      }
    }
    TallyCongruent(rows, r, e, CONFIRMED);
    TallyCongruent(rows, r, e, WAITING);
  }

  /** Renumbering touches only the waitlist positions of the listed rows. */
  lemma RenumberRow(rows: seq<Attendance>, rest: seq<Keyed>, i: int)
    requires InRange(rest, |rows|) && DistinctRows(rest)
    requires 0 <= i < |rows|
    ensures Renumber(rows, rest)[i] == rows[i].(waitlistPosition := Renumber(rows, rest)[i].waitlistPosition)
    ensures !Selects(rest, i) ==> Renumber(rows, rest)[i] == rows[i]
  {
    if Selects(rest, i) {
      var m :| 0 <= m < |rest| && rest[m].1 == i;
    }
  }

  /** Only waitlisted rows of `e` are selected for promotion. */
  lemma SelectedWaitlisted(rows: seq<Attendance>, e: int, available: int, i: int)
    requires available > 0 && 0 <= i < |rows|
    requires Selects(Selected(rows, e, available), i)
    ensures InSet(rows[i], e, WAITING)
  {
    var sel := Selected(rows, e, available);
    var m :| 0 <= m < |sel| && sel[m].1 == i;
    assert sel[m] == WaitlistOrder(rows, e)[m];
  }

  /** When the task promotes, exactly min(free seats, waitlist length)
      rows go from the waitlist to the seats, so the seat count ends
      within capacity. */
  lemma PromoteCounts(events: seq<Event>, rows: seq<Attendance>, e: int, now: int)
    requires Available(events, rows, e).Some? && Available(events, rows, e).value > 0
    ensures Confirmed(Promote(events, rows, e, now), e)
      == Confirmed(rows, e) + Min(Available(events, rows, e).value, Waiting(rows, e))
    ensures Waiting(Promote(events, rows, e, now), e)
      == Waiting(rows, e) - Min(Available(events, rows, e).value, Waiting(rows, e))
    ensures Confirmed(Promote(events, rows, e, now), e) <= events[FindEvent(events, e).value].capacity
  {
    var available := Available(events, rows, e).value;
    var sel := Selected(rows, e, available);
    forall k | 0 <= k < |sel| ensures InSet(rows[sel[k].1], e, WAITING) {
      assert sel[k] == WaitlistOrder(rows, e)[k];
    }
    PromoteAllTally(rows, sel, now, e);
    var mid := AfterPromotion(rows, e, available, now);
    RenumberTally(mid, WaitlistOrder(mid, e), e);
  }

  /** With no free seat, or no such event, the task changes nothing. */
  lemma PromoteNoRoom(events: seq<Event>, rows: seq<Attendance>, e: int, now: int)
    requires Available(events, rows, e).None? || Available(events, rows, e).value <= 0
    ensures Promote(events, rows, e, now) == rows
  {
  }

  /** Facts about one row after the task has run: a row that was not
      waitlisted for `e` is untouched; a waitlisted one is either promoted
      or still waitlisted with only its position changed. */
  lemma PromoteRowFate(events: seq<Event>, rows: seq<Attendance>, e: int, now: int, i: int)
    requires 0 <= i < |rows|
    ensures !InSet(rows[i], e, WAITING) ==> Promote(events, rows, e, now)[i] == rows[i]
    ensures InSet(rows[i], e, WAITING) ==>
      Promote(events, rows, e, now)[i] == Promoted(rows[i], now) ||
      (InSet(Promote(events, rows, e, now)[i], e, WAITING) &&
       Promote(events, rows, e, now)[i] == rows[i].(waitlistPosition := Promote(events, rows, e, now)[i].waitlistPosition))
  {
    var av := Available(events, rows, e);
    if av.Some? && av.value > 0 {
      var sel := Selected(rows, e, av.value);
      var mid := AfterPromotion(rows, e, av.value, now);
      RenumberRow(mid, WaitlistOrder(mid, e), i);
      if Selects(sel, i) {
        SelectedWaitlisted(rows, e, av.value, i);
      }
    }
  }

  /** In a prefix selection of a sequence with distinct row indices, a
      selected position lies before an unselected one. */
  lemma SelectedSplit(ord: seq<Keyed>, sel: seq<Keyed>, a: nat, b: nat)
    requires a < |ord| && b < |ord| && |sel| <= |ord|
    requires forall k :: 0 <= k < |sel| ==> sel[k] == ord[k]
    requires forall k, l :: 0 <= k < l < |ord| ==> ord[k].1 != ord[l].1
    requires Selects(sel, ord[a].1) && !Selects(sel, ord[b].1)
    ensures a < |sel| <= b
  {
    var c :| 0 <= c < |sel| && sel[c].1 == ord[a].1;
    assert c == a;
  }

  /** FIFO: every row the task promotes was ahead, in waitlist order, of
      every row it leaves on the waitlist. */
  lemma PromoteIsFifo(events: seq<Event>, rows: seq<Attendance>, e: int, now: int, i: int, j: int)
    requires 0 <= i < |rows| && 0 <= j < |rows|
    requires InSet(rows[i], e, WAITING)
    requires Promote(events, rows, e, now)[i].status == Registered
    requires InSet(Promote(events, rows, e, now)[j], e, WAITING)
    ensures Before(KeyOf(rows, i), KeyOf(rows, j))
  {
    var av := Available(events, rows, e);
    if av.Some? && av.value > 0 {
      var ord := WaitlistOrder(rows, e);
      var sel := Selected(rows, e, av.value);
      var mid := AfterPromotion(rows, e, av.value, now);
      RenumberRow(mid, WaitlistOrder(mid, e), i);
      RenumberRow(mid, WaitlistOrder(mid, e), j);
      assert Selects(sel, i);
      assert !Selects(sel, j);
      var a := IndexOf(ord, KeyOf(rows, i));
      var b := IndexOf(ord, KeyOf(rows, j));
      SelectedSplit(ord, sel, a, b);
    }
  }

  /** The second loop numbers the waitlist of `e` 1..k in waitlist order. */
  lemma RenumberDense(rows: seq<Attendance>, e: int, j1: int, j2: int)
    requires 0 <= j1 < |rows| && 0 <= j2 < |rows|
    requires InSet(rows[j1], e, WAITING) && InSet(rows[j2], e, WAITING)
    ensures Renumber(rows, WaitlistOrder(rows, e))[j1].waitlistPosition.Some?
    ensures 1 <= Renumber(rows, WaitlistOrder(rows, e))[j1].waitlistPosition.value <= Waiting(rows, e)
    ensures Before(KeyOf(rows, j1), KeyOf(rows, j2)) ==>
      Renumber(rows, WaitlistOrder(rows, e))[j2].waitlistPosition.Some? &&
      Renumber(rows, WaitlistOrder(rows, e))[j1].waitlistPosition.value
        < Renumber(rows, WaitlistOrder(rows, e))[j2].waitlistPosition.value
  {
    var rest := WaitlistOrder(rows, e);
    var m1 := IndexOf(rest, KeyOf(rows, j1));
    var m2 := IndexOf(rest, KeyOf(rows, j2));
    assert rest[m1].1 == j1 && rest[m2].1 == j2;
    if Before(KeyOf(rows, j1), KeyOf(rows, j2)) {
      AscendingIndex(rest, m1, m2);
    }
  }

  /** After promoting, the remaining waitlist of `e` is numbered 1..k with
      k its length, in the old waitlist order: no gaps, no repeats. */
  lemma PromoteRenumbersDensely(events: seq<Event>, rows: seq<Attendance>, e: int, now: int, j1: int, j2: int)
    requires Available(events, rows, e).Some? && Available(events, rows, e).value > 0
    requires 0 <= j1 < |rows| && 0 <= j2 < |rows|
    requires InSet(Promote(events, rows, e, now)[j1], e, WAITING)
    requires InSet(Promote(events, rows, e, now)[j2], e, WAITING)
    ensures Promote(events, rows, e, now)[j1].waitlistPosition.Some?
    ensures 1 <= Promote(events, rows, e, now)[j1].waitlistPosition.value <= Waiting(Promote(events, rows, e, now), e)
    ensures Before(KeyOf(rows, j1), KeyOf(rows, j2)) ==>
      Promote(events, rows, e, now)[j2].waitlistPosition.Some? &&
      Promote(events, rows, e, now)[j1].waitlistPosition.value < Promote(events, rows, e, now)[j2].waitlistPosition.value
  {
    var available := Available(events, rows, e).value;
    var sel := Selected(rows, e, available);
    var mid := AfterPromotion(rows, e, available, now);
    var rest := WaitlistOrder(mid, e);
    assert Promote(events, rows, e, now) == Renumber(mid, rest);
    RenumberTally(mid, rest, e);
    RenumberRow(mid, rest, j1);
    RenumberRow(mid, rest, j2);
    assert mid[j1] == rows[j1] && mid[j2] == rows[j2];
    RenumberDense(mid, e, j1, j2);
  }

  /** Renumbering a promoted table along a sequence of which the promoted
      rows are a prefix: the row at place `b` gets position `b + 1`, and is
      promoted exactly when `b` lies in the prefix. */
  lemma RenumberAfterPrefix(rows: seq<Attendance>, ord: seq<Keyed>, sel: seq<Keyed>, now: int, b: nat)
    requires InRange(ord, |rows|) && DistinctRows(ord)
    requires |sel| <= |ord| && forall k :: 0 <= k < |sel| ==> sel[k] == ord[k]
    requires b < |ord|
    ensures InRange(sel, |rows|)
    ensures Renumber(PromoteAll(rows, sel, now), ord)[ord[b].1]
      == (if b < |sel| then Promoted(rows[ord[b].1], now) else rows[ord[b].1]).(waitlistPosition := Some(b + 1))
  {
    if b < |sel| {
      assert sel[b].1 == ord[b].1;
    }
  }

  /** Without a flush between the two queries, the first promoted row is
      left registered with waitlist position 1, where the flushed task
      clears it (`PromoteRowFate`). */
  lemma NoFlushKeepsPosition(events: seq<Event>, rows: seq<Attendance>, e: int, now: int)
    requires Available(events, rows, e).Some? && Available(events, rows, e).value > 0
    requires Waiting(rows, e) > 0
    ensures PromoteNoFlush(events, rows, e, now)[WaitlistOrder(rows, e)[0].1].status == Registered
    ensures PromoteNoFlush(events, rows, e, now)[WaitlistOrder(rows, e)[0].1].waitlistPosition == Some(1)
  {
    var available := Available(events, rows, e).value;
    var ord := WaitlistOrder(rows, e);
    var sel := Selected(rows, e, available);
    RenumberAfterPrefix(rows, ord, sel, now, 0);
  }

  /** Without a flush between the two queries, every row still waiting
      keeps a position of at least 2 when a seat was free, so the remaining
      waitlist does not start at 1, unlike `PromoteRenumbersDensely`. */
  lemma NoFlushLeavesGap(events: seq<Event>, rows: seq<Attendance>, e: int, now: int, j: int)
    requires Available(events, rows, e).Some? && Available(events, rows, e).value > 0
    requires 0 <= j < |rows| && InSet(PromoteNoFlush(events, rows, e, now)[j], e, WAITING)
    ensures PromoteNoFlush(events, rows, e, now)[j].waitlistPosition.Some?
    ensures PromoteNoFlush(events, rows, e, now)[j].waitlistPosition.value >= 2
  {
    var available := Available(events, rows, e).value;
    var ord := WaitlistOrder(rows, e);
    var sel := Selected(rows, e, available);
    var mid := AfterPromotion(rows, e, available, now);
    assert InSet(rows[j], e, WAITING) by {
      if !Selects(ord, j) {
        assert Renumber(mid, ord)[j] == mid[j];
      }
    }
    var b := IndexOf(ord, KeyOf(rows, j));
    assert ord[b].1 == j;
    RenumberAfterPrefix(rows, ord, sel, now, b);
  }

  /** Running the task again, with nothing changed in between, changes
      nothing: either no seat is left or no one is left waiting. */
  lemma PromoteIdempotent(events: seq<Event>, rows: seq<Attendance>, e: int, now: int, later: int)
    ensures Promote(events, Promote(events, rows, e, now), e, later) == Promote(events, rows, e, now)
  {
    var r := Promote(events, rows, e, now);
    var av := Available(events, rows, e);
    if av.Some? && av.value > 0 {
      PromoteCounts(events, rows, e, now);
      var av2 := Available(events, r, e);
      if av2.Some? && av2.value > 0 {
        assert Waiting(r, e) == 0;
        assert Selected(r, e, av2.value) == [];
        var mid := AfterPromotion(r, e, av2.value, later);
        assert mid == r;
        assert WaitlistOrder(mid, e) == [];
      }
    }
  }

  /** The first loop of the task, over the rows of the first query. */
  method PromoteRows(db: Db, waitlisted: seq<Keyed>, now: int)
    requires InRange(waitlisted, |db.attendees|)
    modifies db
    ensures db.attendees == PromoteAll(old(db.attendees), waitlisted, now)
    ensures db.events == old(db.events) && db.users == old(db.users)
    ensures db.nextAttendeeId == old(db.nextAttendeeId)
    ensures db.nextEventId == old(db.nextEventId) && db.nextUserId == old(db.nextUserId)
  {
    var k := 0;
    while k < |waitlisted|
      invariant 0 <= k <= |waitlisted|
      invariant db.attendees == PromoteAll(old(db.attendees), waitlisted[..k], now)
      invariant db.events == old(db.events) && db.users == old(db.users)
      invariant db.nextAttendeeId == old(db.nextAttendeeId)
      invariant db.nextEventId == old(db.nextEventId) && db.nextUserId == old(db.nextUserId)
    {
      var i := waitlisted[k].1;
      db.attendees := db.attendees[i := db.attendees[i].(status := Registered, waitlistPosition := None, registeredAt := now)];
      assert waitlisted[..k + 1][..k] == waitlisted[..k];
      k := k + 1;
    }
    assert waitlisted[..k] == waitlisted;
  }

  /** The second loop of the task, over the rows of the second query. */
  method RenumberRows(db: Db, remaining: seq<Keyed>)
    requires InRange(remaining, |db.attendees|) && DistinctRows(remaining)
    modifies db
    ensures db.attendees == Renumber(old(db.attendees), remaining)
    ensures db.events == old(db.events) && db.users == old(db.users)
    ensures db.nextAttendeeId == old(db.nextAttendeeId)
    ensures db.nextEventId == old(db.nextEventId) && db.nextUserId == old(db.nextUserId)
  {
    var k := 0;
    while k < |remaining|
      invariant 0 <= k <= |remaining|
      invariant db.attendees == Renumber(old(db.attendees), remaining[..k])
      invariant db.events == old(db.events) && db.users == old(db.users)
      invariant db.nextAttendeeId == old(db.nextAttendeeId)
      invariant db.nextEventId == old(db.nextEventId) && db.nextUserId == old(db.nextUserId)
    {
      var i := remaining[k].1;
      db.attendees := db.attendees[i := db.attendees[i].(waitlistPosition := Some(k + 1))];
      assert remaining[..k + 1][..k] == remaining[..k];
      k := k + 1;
    }
    assert remaining[..k] == remaining;
  }

  /** The task, run against the store: look the event up, count the seats
      in use, and when some are free run the two loops over the rows the
      two queries return. */
  method ProcessWaitlist(db: Db, eventId: int, now: int)
    requires db.Valid()
    modifies db
    ensures db.Valid()
    ensures db.events == old(db.events) && db.users == old(db.users)
    ensures db.nextAttendeeId == old(db.nextAttendeeId)
    ensures db.nextEventId == old(db.nextEventId) && db.nextUserId == old(db.nextUserId)
    ensures db.attendees == Promote(old(db.events), old(db.attendees), eventId, now)
  {
    ghost var rows0 := db.attendees;
    var found := FindEvent(db.events, eventId);
    if found.None? {
      return;
    }
    var event := db.events[found.value];
    var currentAttendees := Confirmed(db.attendees, eventId);
    var availableSpots := event.capacity - currentAttendees;
    if availableSpots > 0 {
      assert Available(db.events, rows0, eventId) == Some(availableSpots);
      PromoteThenRenumber(db, eventId, availableSpots, now);
    }
    SameKeysKeepInvariants(rows0, db.attendees, db.nextAttendeeId, db.nextEventId);
  }

  /** The two loops of the task once seats are free: promote the selected
      rows, then renumber what is left of the waitlist. */
  method PromoteThenRenumber(db: Db, eventId: int, availableSpots: int, now: int)
    requires availableSpots > 0
    modifies db
    ensures db.events == old(db.events) && db.users == old(db.users)
    ensures db.nextAttendeeId == old(db.nextAttendeeId)
    ensures db.nextEventId == old(db.nextEventId) && db.nextUserId == old(db.nextUserId)
    ensures db.attendees == PromoteWith(old(db.attendees), eventId, availableSpots, now)
  {
    var waitlisted := Selected(db.attendees, eventId, availableSpots);
    PromoteRows(db, waitlisted, now);
    var remaining := WaitlistOrder(db.attendees, eventId);
    RenumberRows(db, remaining);
  }
}
