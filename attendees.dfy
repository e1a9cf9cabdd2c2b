/** Draft A's attendance router (backend/src/routers/attendees.py):
    registration with a waitlist, check-in, cancellation, and the two
    listing queries. Each operation is a step function over the tables,
    with lemmas about it, and a method that performs it on the store. */
module Attendees {
  import opened Common
  import opened Ordering
  import opened Store
  import opened Tasks

  /* ---------------------------------------------------------------- */
  /* register_for_event                                                */
  /* ---------------------------------------------------------------- */

  /** The response of `register_for_event`. */
  datatype Registration = Registration(message: string, status: Status, waitlistPosition: Option<int>)

  /** `register_for_event` for user `u` and event `e`: the attendees table
      afterwards and the response. `id` is the next autoincrement id, used
      only when a row is added; `now` is the clock. */
  function RegisterStep(events: seq<Event>, rows: seq<Attendance>, e: int, u: int, id: int, now: int)
    : (r: Result<(seq<Attendance>, Registration)>)
    ensures r.Err? ==>
      r.error == NotFound("Event not found") || r.error == BadRequest("Already registered for this event")
    ensures r.Ok? ==> |rows| <= |r.value.0| <= |rows| + 1
  {
    match FindEvent(events, e)
    case None => Err(NotFound("Event not found"))
    case Some(k) =>
      match FindRegistration(rows, e, u)
      case Some(j) =>
        if rows[j].status == Cancelled then
          Ok((rows[j := rows[j].(status := Registered, registeredAt := now)],
              Registration("Re-registered for event successfully", Registered, None)))
        else
          Err(BadRequest("Already registered for this event"))
      case None =>
        if Confirmed(rows, e) >= events[k].capacity then
          var position := Waiting(rows, e) + 1;
          Ok((rows + [Attendance(id, e, u, Waitlisted, Some(position), now, None)],
              Registration("Event is full. Added to waitlist", Waitlisted, Some(position))))
        else
          Ok((rows + [Attendance(id, e, u, Registered, None, now, None)],
              Registration("Registered for event successfully", Registered, None)))
  }

  /** Registering for an event that does not exist fails with 404. */
  lemma RegisterMissingEvent(events: seq<Event>, rows: seq<Attendance>, e: int, u: int, id: int, now: int)
    requires forall k :: 0 <= k < |events| ==> events[k].id != e
    ensures RegisterStep(events, rows, e, u, id, now) == Err(NotFound("Event not found"))
  {
  }

  /** A user who holds a live (not cancelled) row for the event is turned
      away with 400, and the table stays as it was. */
  lemma RegisterRejectsDuplicate(events: seq<Event>, rows: seq<Attendance>, e: int, u: int, id: int, now: int, i: int)
    requires OnePerPair(rows)
    requires FindEvent(events, e).Some?
    requires 0 <= i < |rows| && rows[i].eventId == e && rows[i].userId == u
    requires rows[i].status != Cancelled
    ensures RegisterStep(events, rows, e, u, id, now) == Err(BadRequest("Already registered for this event"))
  {
    var j := FindRegistration(rows, e, u).value;
    assert j == i;
  }

  /** A user whose row was cancelled gets the same row back as registered,
      with a new registration time and no look at the capacity: the seat
      count of the event goes up by one however full it was. */
  lemma RegisterReopensCancelled(events: seq<Event>, rows: seq<Attendance>, e: int, u: int, id: int, now: int, i: int)
    requires OnePerPair(rows)
    requires FindEvent(events, e).Some?
    requires 0 <= i < |rows| && rows[i].eventId == e && rows[i].userId == u
    requires rows[i].status == Cancelled
    ensures RegisterStep(events, rows, e, u, id, now).Ok?
    ensures RegisterStep(events, rows, e, u, id, now).value.0 == rows[i := rows[i].(status := Registered, registeredAt := now)]
    ensures RegisterStep(events, rows, e, u, id, now).value.1.status == Registered
    ensures Confirmed(RegisterStep(events, rows, e, u, id, now).value.0, e) == Confirmed(rows, e) + 1
  {
    var j := FindRegistration(rows, e, u).value;
    assert j == i;
    TallyUpdate(rows, i, rows[i].(status := Registered, registeredAt := now), e, CONFIRMED);
  }

  /** The re-registration path can overbook: with one seat, taken by a
      second user, a user whose row was cancelled registers again and the
      event holds two confirmed attendees. */
  lemma ReRegisterOverbooks()
    ensures var events := [Event(1, "Meetup", None, 0, "Hall", 1, "social", 9, None)];
      var rows := [Attendance(1, 1, 1, Cancelled, None, 0, None), Attendance(2, 1, 2, Registered, None, 0, None)];
      && RegisterStep(events, rows, 1, 1, 3, 5).Ok?
      && Confirmed(RegisterStep(events, rows, 1, 1, 3, 5).value.0, 1) == 2
      && Confirmed(RegisterStep(events, rows, 1, 1, 3, 5).value.0, 1) > events[0].capacity
  {
    var events := [Event(1, "Meetup", None, 0, "Hall", 1, "social", 9, None)];
    var rows := [Attendance(1, 1, 1, Cancelled, None, 0, None), Attendance(2, 1, 2, Registered, None, 0, None)];
    assert FindEvent(events, 1) == Some(0);
    assert Confirmed(rows, 1) == 1 by {
      assert rows[..1][..0] == [];
    }
    RegisterReopensCancelled(events, rows, 1, 1, 3, 5, 0);
  }

  /** A first registration while seats are free adds one registered row at
      the end of the table; the seat count goes up by one and stays within
      capacity. */
  lemma RegisterFreshSeat(events: seq<Event>, rows: seq<Attendance>, e: int, u: int, id: int, now: int)
    requires FindEvent(events, e).Some?
    requires FindRegistration(rows, e, u).None?
    requires Confirmed(rows, e) < events[FindEvent(events, e).value].capacity
    ensures RegisterStep(events, rows, e, u, id, now)
      == Ok((rows + [Attendance(id, e, u, Registered, None, now, None)],
             Registration("Registered for event successfully", Registered, None)))
    ensures Confirmed(RegisterStep(events, rows, e, u, id, now).value.0, e) == Confirmed(rows, e) + 1
    ensures Confirmed(RegisterStep(events, rows, e, u, id, now).value.0, e)
      <= events[FindEvent(events, e).value].capacity
  {
    TallyAppend(rows, Attendance(id, e, u, Registered, None, now, None), e, CONFIRMED);
  }

  /** A first registration when the seat count has reached capacity
      (always so for capacity 0) adds a waitlisted row whose position is the
      number of waitlisted rows plus one; the seat count does not move. */
  lemma RegisterWhenFull(events: seq<Event>, rows: seq<Attendance>, e: int, u: int, id: int, now: int)
    requires FindEvent(events, e).Some?
    requires FindRegistration(rows, e, u).None?
    requires Confirmed(rows, e) >= events[FindEvent(events, e).value].capacity
    ensures RegisterStep(events, rows, e, u, id, now)
      == Ok((rows + [Attendance(id, e, u, Waitlisted, Some(Waiting(rows, e) + 1), now, None)],
             Registration("Event is full. Added to waitlist", Waitlisted, Some(Waiting(rows, e) + 1))))
    ensures Confirmed(RegisterStep(events, rows, e, u, id, now).value.0, e) == Confirmed(rows, e)
    ensures Waiting(RegisterStep(events, rows, e, u, id, now).value.0, e) == Waiting(rows, e) + 1
  {
    var r := Attendance(id, e, u, Waitlisted, Some(Waiting(rows, e) + 1), now, None);
    TallyAppend(rows, r, e, CONFIRMED);
    TallyAppend(rows, r, e, WAITING);
  }

  /** A registration never takes an event over capacity except through a
      cancelled row: if the seat count was within capacity and the user had
      no row, it is within capacity afterwards. */
  lemma RegisterKeepsCapacity(events: seq<Event>, rows: seq<Attendance>, e: int, u: int, id: int, now: int)
    requires FindEvent(events, e).Some?
    requires FindRegistration(rows, e, u).None?
    requires Confirmed(rows, e) <= events[FindEvent(events, e).value].capacity
    ensures RegisterStep(events, rows, e, u, id, now).Ok?
    ensures Confirmed(RegisterStep(events, rows, e, u, id, now).value.0, e)
      <= events[FindEvent(events, e).value].capacity
  {
    if Confirmed(rows, e) < events[FindEvent(events, e).value].capacity {
      RegisterFreshSeat(events, rows, e, u, id, now);
    } else {
      RegisterWhenFull(events, rows, e, u, id, now);
    }
  }

  /** A successful registration touches only the (event, user) pair it is
      for: every other row stays where and what it was, and the pair has
      exactly one row afterwards, so at most one row per pair is kept. */
  lemma RegisterFrame(events: seq<Event>, rows: seq<Attendance>, e: int, u: int, id: int, now: int)
    requires OnePerPair(rows)
    requires RegisterStep(events, rows, e, u, id, now).Ok?
    ensures forall i :: 0 <= i < |rows| && !(rows[i].eventId == e && rows[i].userId == u) ==>
      RegisterStep(events, rows, e, u, id, now).value.0[i] == rows[i]
    ensures OnePerPair(RegisterStep(events, rows, e, u, id, now).value.0)
    ensures exists i :: (0 <= i < |RegisterStep(events, rows, e, u, id, now).value.0| &&
      RegisterStep(events, rows, e, u, id, now).value.0[i].eventId == e &&
      RegisterStep(events, rows, e, u, id, now).value.0[i].userId == u)
    ensures forall e' :: e' != e ==>
      Confirmed(RegisterStep(events, rows, e, u, id, now).value.0, e') == Confirmed(rows, e') &&
      Waiting(RegisterStep(events, rows, e, u, id, now).value.0, e') == Waiting(rows, e')
  {
    var r := RegisterStep(events, rows, e, u, id, now).value.0;
    match FindRegistration(rows, e, u)
    case Some(j) =>
      assert r == rows[j := rows[j].(status := Registered, registeredAt := now)];
      assert r[j].eventId == e && r[j].userId == u;
      forall e' | e' != e
        ensures Confirmed(r, e') == Confirmed(rows, e') && Waiting(r, e') == Waiting(rows, e')
      {
        TallyUpdate(rows, j, r[j], e', CONFIRMED);
        TallyUpdate(rows, j, r[j], e', WAITING);
      }
    case None =>
      var added := r[|rows|];
      assert r == rows + [added];
      forall e' | e' != e
        ensures Confirmed(r, e') == Confirmed(rows, e') && Waiting(r, e') == Waiting(rows, e')
      {
        TallyAppend(rows, added, e', CONFIRMED);
        TallyAppend(rows, added, e', WAITING);
      }
  }

  /** `register_for_event` against the store. */
  method Register(db: Db, eventId: int, userId: int, now: int) returns (res: Result<Registration>)
    requires db.Valid()
    modifies db
    ensures db.Valid()
    ensures db.events == old(db.events) && db.users == old(db.users)
    ensures db.nextEventId == old(db.nextEventId) && db.nextUserId == old(db.nextUserId)
    ensures RegisterStep(old(db.events), old(db.attendees), eventId, userId, old(db.nextAttendeeId), now).Ok? ==>
      && res == Ok(RegisterStep(old(db.events), old(db.attendees), eventId, userId, old(db.nextAttendeeId), now).value.1)
      && db.attendees == RegisterStep(old(db.events), old(db.attendees), eventId, userId, old(db.nextAttendeeId), now).value.0
    ensures RegisterStep(old(db.events), old(db.attendees), eventId, userId, old(db.nextAttendeeId), now).Err? ==>
      && res == Err(RegisterStep(old(db.events), old(db.attendees), eventId, userId, old(db.nextAttendeeId), now).error)
      && db.attendees == old(db.attendees)
    ensures db.nextAttendeeId == old(db.nextAttendeeId) + (|db.attendees| - |old(db.attendees)|)
  {
    var found := FindEvent(db.events, eventId);
    if found.None? {
      return Err(NotFound("Event not found"));
    }
    var event := db.events[found.value];
    var existing := FindRegistration(db.attendees, eventId, userId);
    if existing.Some? {
      var j := existing.value;
      if db.attendees[j].status == Cancelled {
        db.Replace(j, db.attendees[j].(status := Registered, registeredAt := now));
        return Ok(Registration("Re-registered for event successfully", Registered, None));
      } else {
        return Err(BadRequest("Already registered for this event"));
      }
    }
    var currentAttendees := Confirmed(db.attendees, eventId);
    var row;
    if currentAttendees >= event.capacity {
      var waitlistCount := Waiting(db.attendees, eventId);
      row := Attendance(db.nextAttendeeId, eventId, userId, Waitlisted, Some(waitlistCount + 1), now, None);
      res := Ok(Registration("Event is full. Added to waitlist", Waitlisted, Some(waitlistCount + 1)));
    } else {
      row := Attendance(db.nextAttendeeId, eventId, userId, Registered, None, now, None);
      res := Ok(Registration("Registered for event successfully", Registered, None));
    }
    db.Insert(row);
  }

  /* ---------------------------------------------------------------- */
  /* check_in_attendee                                                 */
  /* ---------------------------------------------------------------- */

  /** `check_in_attendee`: the table afterwards, the checked-in row being
      the one with id `id`. */
  function CheckInStep(rows: seq<Attendance>, id: int, now: int): (r: Result<seq<Attendance>>)
    ensures r.Ok? ==> |r.value| == |rows|
  {
    match FindById(rows, id)
    case None => Err(NotFound("Attendee registration not found"))
    case Some(k) =>
      if rows[k].status != Registered then Err(BadRequest("Attendee must be registered to check in"))
      else Ok(rows[k := rows[k].(status := CheckedIn, checkedInAt := Some(now))])
  }

  /** Check-in succeeds exactly for an existing registered row; a missing
      row gives 404 and any other status 400. */
  lemma CheckInOutcome(rows: seq<Attendance>, id: int, now: int)
    ensures CheckInStep(rows, id, now).Ok? <==>
      FindById(rows, id).Some? && rows[FindById(rows, id).value].status == Registered
    ensures FindById(rows, id).None? ==>
      CheckInStep(rows, id, now) == Err(NotFound("Attendee registration not found"))
    ensures FindById(rows, id).Some? && rows[FindById(rows, id).value].status != Registered ==>
      CheckInStep(rows, id, now) == Err(BadRequest("Attendee must be registered to check in"))
  {
  }

  /** A check-in changes one row, from registered to checked in with the
      check-in time, and so moves no count: the seat and waitlist counts of
      every event stay as they were. */
  lemma CheckInEffect(rows: seq<Attendance>, id: int, now: int, e: int)
    requires CheckInStep(rows, id, now).Ok?
    ensures var k := FindById(rows, id).value;
      CheckInStep(rows, id, now).value[k] == rows[k].(status := CheckedIn, checkedInAt := Some(now))
    ensures forall i :: 0 <= i < |rows| && rows[i].id != id ==> CheckInStep(rows, id, now).value[i] == rows[i]
    ensures Confirmed(CheckInStep(rows, id, now).value, e) == Confirmed(rows, e)
    ensures Waiting(CheckInStep(rows, id, now).value, e) == Waiting(rows, e)
  {
    var k := FindById(rows, id).value;
    var r := rows[k].(status := CheckedIn, checkedInAt := Some(now));
    TallyUpdate(rows, k, r, e, CONFIRMED);
    TallyUpdate(rows, k, r, e, WAITING);
  }

  /** `check_in_attendee` against the store; returns the refreshed row. */
  method CheckIn(db: Db, attendeeId: int, now: int) returns (res: Result<Attendance>)
    requires db.Valid()
    modifies db
    ensures db.Valid()
    ensures db.events == old(db.events) && db.users == old(db.users)
    ensures db.nextAttendeeId == old(db.nextAttendeeId)
    ensures db.nextEventId == old(db.nextEventId) && db.nextUserId == old(db.nextUserId)
    ensures CheckInStep(old(db.attendees), attendeeId, now).Ok? ==>
      && db.attendees == CheckInStep(old(db.attendees), attendeeId, now).value
      && res == Ok(db.attendees[FindById(old(db.attendees), attendeeId).value])
    ensures CheckInStep(old(db.attendees), attendeeId, now).Err? ==>
      && res == Err(CheckInStep(old(db.attendees), attendeeId, now).error)
      && db.attendees == old(db.attendees)
  {
    var found := FindById(db.attendees, attendeeId);
    if found.None? {
      return Err(NotFound("Attendee registration not found"));
    }
    var k := found.value;
    if db.attendees[k].status != Registered {
      return Err(BadRequest("Attendee must be registered to check in"));
    }
    ghost var before := db.attendees;
    db.attendees := db.attendees[k := db.attendees[k].(status := CheckedIn, checkedInAt := Some(now))];
    SameKeysKeepInvariants(before, db.attendees, db.nextAttendeeId, db.nextEventId);
    res := Ok(db.attendees[k]);
  }

  /* ---------------------------------------------------------------- */
  /* cancel_registration                                               */
  /* ---------------------------------------------------------------- */

  /** The outcome of a cancellation: the table afterwards, the cancelled
      row as returned, and the event whose waitlist task is queued, if any
      (`process_waitlist.delay(event_id)`). */
  datatype Cancellation = Cancellation(rows: seq<Attendance>, record: Attendance, promote: Option<int>)

  /** A row behind position `position` in the waitlist of event `e`. */
  predicate Behind(r: Attendance, e: int, position: Option<int>)
  {
    InSet(r, e, WAITING) && position.Some? && r.waitlistPosition.Some? &&
    r.waitlistPosition.value > position.value
  }

  /** One row of the compaction loop: a row behind the cancelled one moves
      up by one place. */
  function Shifted(r: Attendance, e: int, position: Option<int>): Attendance
  {
    if Behind(r, e, position) then r.(waitlistPosition := Some(r.waitlistPosition.value - 1)) else r
  }

  /** The compaction loop: every row behind `position` in the waitlist of
      `e` moves up by one place. A missing position selects nothing
      (`waitlist_position > NULL` holds for no row). */
  function Compact(rows: seq<Attendance>, e: int, position: Option<int>): (r: seq<Attendance>)
    ensures |r| == |rows|
    ensures forall i :: 0 <= i < |rows| ==> r[i] == Shifted(rows[i], e, position)
  {
    seq(|rows|, i requires 0 <= i < |rows| => Shifted(rows[i], e, position))
  }

  /** Authorisation of a cancellation: the row's own user, an admin or an
      organizer. */
  predicate MayCancel(r: Attendance, caller: Caller)
  {
    r.userId == caller.id || caller.role in {Admin, Organizer}
  }

  /** `cancel_registration` as written: the status is overwritten with
      CANCELLED before it is tested for WAITLISTED, so the test is always
      false, the compaction branch is never taken and the waitlist task is
      always queued. */
  function CancelStep(rows: seq<Attendance>, id: int, caller: Caller): (r: Result<Cancellation>)
    ensures r.Ok? ==> |r.value.rows| == |rows|
  {
    match FindById(rows, id)
    case None => Err(NotFound("Attendee registration not found"))
    case Some(k) =>
      var attendee := rows[k];
      if !MayCancel(attendee, caller) then Err(Forbidden("Not authorized to cancel this registration"))
      else if attendee.status == Cancelled then Err(BadRequest("Registration already cancelled"))
      else
        var cancelled := attendee.(status := Cancelled);
        var after := rows[k := cancelled];
        if cancelled.status == Waitlisted then
          Ok(Cancellation(Compact(after, cancelled.eventId, cancelled.waitlistPosition), cancelled, None))
        else
          Ok(Cancellation(after, cancelled, Some(cancelled.eventId)))
  }

  /** Cancellation fails with 404 on a missing row, 403 for a caller who is
      neither the row's user nor an admin or organizer, and 400 on a row
      already cancelled; otherwise it succeeds, from any other status. */
  lemma CancelOutcome(rows: seq<Attendance>, id: int, caller: Caller)
    ensures FindById(rows, id).None? ==>
      CancelStep(rows, id, caller) == Err(NotFound("Attendee registration not found"))
    ensures FindById(rows, id).Some? && !MayCancel(rows[FindById(rows, id).value], caller) ==>
      CancelStep(rows, id, caller) == Err(Forbidden("Not authorized to cancel this registration"))
    ensures (FindById(rows, id).Some? && MayCancel(rows[FindById(rows, id).value], caller) &&
             rows[FindById(rows, id).value].status == Cancelled) ==>
      CancelStep(rows, id, caller) == Err(BadRequest("Registration already cancelled"))
    ensures CancelStep(rows, id, caller).Ok? <==>
      FindById(rows, id).Some? && MayCancel(rows[FindById(rows, id).value], caller) &&
      rows[FindById(rows, id).value].status != Cancelled
  {
  }

  /** What the code as written does on success, whatever the old status:
      only the cancelled row changes, no waitlist position moves, and the
      waitlist task is queued for the row's event. */
  lemma CancelNeverCompacts(rows: seq<Attendance>, id: int, caller: Caller)
    requires CancelStep(rows, id, caller).Ok?
    ensures var k := FindById(rows, id).value;
      CancelStep(rows, id, caller).value.rows == rows[k := rows[k].(status := Cancelled)]
    ensures var k := FindById(rows, id).value;
      CancelStep(rows, id, caller).value.promote == Some(rows[k].eventId)
    ensures forall i :: 0 <= i < |rows| ==>
      CancelStep(rows, id, caller).value.rows[i].waitlistPosition == rows[i].waitlistPosition
  {
  }

  /** The waitlist of `e` is numbered densely: the waitlisted rows hold
      pairwise different positions, all in 1..(number of waitlisted rows). */
  predicate Dense(rows: seq<Attendance>, e: int)
  {
    && (forall i :: 0 <= i < |rows| && InSet(rows[i], e, WAITING) ==>
          rows[i].waitlistPosition.Some? && 1 <= rows[i].waitlistPosition.value <= Waiting(rows, e))
    && (forall i, j :: 0 <= i < j < |rows| && InSet(rows[i], e, WAITING) && InSet(rows[j], e, WAITING) ==>
          rows[i].waitlistPosition != rows[j].waitlistPosition)
  }

  /** The cancellation gap: two users wait for a full event of capacity 0
      at positions 1 and 2; the first cancels. As written, position 2 is
      not moved up, and the queued task frees no seat, so it changes
      nothing: the waitlist is left as [2], not dense. */
  lemma CancelLeavesGap()
    ensures var events := [Event(1, "Meetup", None, 0, "Hall", 0, "social", 9, None)];
      var rows := [Attendance(1, 1, 1, Waitlisted, Some(1), 0, None), Attendance(2, 1, 2, Waitlisted, Some(2), 0, None)];
      && Dense(rows, 1)
      && CancelStep(rows, 1, Caller(1, Attendee)).Ok?
      && CancelStep(rows, 1, Caller(1, Attendee)).value.promote == Some(1)
      && Promote(events, CancelStep(rows, 1, Caller(1, Attendee)).value.rows, 1, 7)
           == CancelStep(rows, 1, Caller(1, Attendee)).value.rows
      && !Dense(CancelStep(rows, 1, Caller(1, Attendee)).value.rows, 1)
  {
    var events := [Event(1, "Meetup", None, 0, "Hall", 0, "social", 9, None)];
    var rows := [Attendance(1, 1, 1, Waitlisted, Some(1), 0, None), Attendance(2, 1, 2, Waitlisted, Some(2), 0, None)];
    assert rows[..1][..0] == [];
    assert Waiting(rows, 1) == 2;
    assert FindById(rows, 1) == Some(0);
    var after := CancelStep(rows, 1, Caller(1, Attendee)).value.rows;
    assert after == [Attendance(1, 1, 1, Cancelled, Some(1), 0, None), Attendance(2, 1, 2, Waitlisted, Some(2), 0, None)];
    assert after[..1][..0] == [];
    assert Waiting(after, 1) == 1;
    assert Confirmed(after, 1) == 0;
    assert FindEvent(events, 1) == Some(0);
    assert Available(events, after, 1) == Some(0);
    PromoteNoRoom(events, after, 1, 7);
  }

  /** `cancel_registration` as evidently intended: the compaction test looks
      at the status the row had before it was cancelled. A waitlisted row
      leaving closes its gap and frees no seat; any other row leaving frees
      a seat and queues the waitlist task. */
  function CancelFixed(rows: seq<Attendance>, id: int, caller: Caller): (r: Result<Cancellation>)
    ensures r.Ok? ==> |r.value.rows| == |rows|
  {
    match FindById(rows, id)
    case None => Err(NotFound("Attendee registration not found"))
    case Some(k) =>
      var attendee := rows[k];
      if !MayCancel(attendee, caller) then Err(Forbidden("Not authorized to cancel this registration"))
      else if attendee.status == Cancelled then Err(BadRequest("Registration already cancelled"))
      else
        var cancelled := attendee.(status := Cancelled);
        var after := rows[k := cancelled];
        if attendee.status == Waitlisted then
          Ok(Cancellation(Compact(after, attendee.eventId, attendee.waitlistPosition), cancelled, None))
        else
          Ok(Cancellation(after, cancelled, Some(attendee.eventId)))
  }

  /** The corrected cancellation queues the waitlist task exactly when a
      seat is freed, that is when the row was not waitlisted. */
  lemma CancelFixedPromotes(rows: seq<Attendance>, id: int, caller: Caller)
    requires CancelFixed(rows, id, caller).Ok?
    ensures CancelFixed(rows, id, caller).value.promote.Some? <==>
      rows[FindById(rows, id).value].status != Waitlisted
    ensures CancelFixed(rows, id, caller).value.record.status == Cancelled
  {
  }

  /** The corrected cancellation keeps every event's waitlist dense. */
  lemma CancelFixedKeepsDense(rows: seq<Attendance>, id: int, caller: Caller, e: int)
    requires Dense(rows, e)
    requires CancelFixed(rows, id, caller).Ok?
    ensures Dense(CancelFixed(rows, id, caller).value.rows, e)
  {
    var k := FindById(rows, id).value;
    var a := rows[k];
    var after := rows[k := a.(status := Cancelled)];
    var r := CancelFixed(rows, id, caller).value.rows;
    TallyUpdate(rows, k, a.(status := Cancelled), e, WAITING);
    if a.status == Waitlisted && a.eventId == e {
      CompactDense(rows, k, e);
    } else if a.status == Waitlisted {
      CompactWaitingCount(after, a.eventId, a.waitlistPosition, e);
      assert r == Compact(after, a.eventId, a.waitlistPosition);
      DenseTransfer(rows, r, e);
    } else {
      assert r == after;
      DenseTransfer(rows, r, e);
    }
  }

  /** A table whose waitlist of `e` is a subset of a dense one, with the
      same positions and the same count, is dense. */
  lemma DenseTransfer(a: seq<Attendance>, b: seq<Attendance>, e: int)
    requires Dense(a, e)
    requires |a| == |b| && Waiting(b, e) == Waiting(a, e)
    requires forall i :: 0 <= i < |b| && InSet(b[i], e, WAITING) ==>
      InSet(a[i], e, WAITING) && b[i].waitlistPosition == a[i].waitlistPosition
    ensures Dense(b, e)
  {
  }

  /** Compaction changes no status, so no count. */
  lemma CompactWaitingCount(rows: seq<Attendance>, e: int, position: Option<int>, e': int)
    ensures Waiting(Compact(rows, e, position), e') == Waiting(rows, e')
  {
    TallyCongruent(rows, Compact(rows, e, position), e', WAITING);
  }

  /** Two different waitlisted rows of a dense waitlist hold different
      positions. */
  lemma DenseApart(rows: seq<Attendance>, e: int, i: int, j: int)
    requires Dense(rows, e)
    requires 0 <= i < |rows| && 0 <= j < |rows| && i != j
    requires InSet(rows[i], e, WAITING) && InSet(rows[j], e, WAITING)
    ensures rows[i].waitlistPosition != rows[j].waitlistPosition
  {
    if i > j {
      assert rows[j].waitlistPosition != rows[i].waitlistPosition;
    }
  }

  /** A row still waitlisted after row `k` is cancelled and the waitlist
      compacted was waitlisted before, at a position other than `k`'s. */
  lemma CompactedRow(rows: seq<Attendance>, k: int, e: int, i: int)
    requires 0 <= k < |rows| && InSet(rows[k], e, WAITING)
    requires Dense(rows, e)
    requires 0 <= i < |rows|
    requires InSet(Compact(rows[k := rows[k].(status := Cancelled)], e, rows[k].waitlistPosition)[i], e, WAITING)
    ensures i != k && InSet(rows[i], e, WAITING)
    ensures Compact(rows[k := rows[k].(status := Cancelled)], e, rows[k].waitlistPosition)[i]
      == Shifted(rows[i], e, rows[k].waitlistPosition)
    ensures rows[i].waitlistPosition != rows[k].waitlistPosition
  {
    var after := rows[k := rows[k].(status := Cancelled)];
    assert Compact(after, e, rows[k].waitlistPosition)[i] == Shifted(after[i], e, rows[k].waitlistPosition);
    assert i != k;
    DenseApart(rows, e, i, k);
  }

  /** A row still waitlisted after the compaction holds a position in
      1..(one less than the old waitlist count). */
  lemma CompactBound(rows: seq<Attendance>, k: int, e: int, i: int)
    requires 0 <= k < |rows| && InSet(rows[k], e, WAITING)
    requires Dense(rows, e)
    requires 0 <= i < |rows|
    requires InSet(Compact(rows[k := rows[k].(status := Cancelled)], e, rows[k].waitlistPosition)[i], e, WAITING)
    ensures Compact(rows[k := rows[k].(status := Cancelled)], e, rows[k].waitlistPosition)[i].waitlistPosition.Some?
    ensures 1 <= Compact(rows[k := rows[k].(status := Cancelled)], e, rows[k].waitlistPosition)[i].waitlistPosition.value
      <= Waiting(rows, e) - 1
  {
    CompactedRow(rows, k, e, i);
  }

  /** Two rows still waitlisted after the compaction hold different
      positions. */
  lemma CompactApart(rows: seq<Attendance>, k: int, e: int, i: int, j: int)
    requires 0 <= k < |rows| && InSet(rows[k], e, WAITING)
    requires Dense(rows, e)
    requires 0 <= i < j < |rows|
    requires InSet(Compact(rows[k := rows[k].(status := Cancelled)], e, rows[k].waitlistPosition)[i], e, WAITING)
    requires InSet(Compact(rows[k := rows[k].(status := Cancelled)], e, rows[k].waitlistPosition)[j], e, WAITING)
    ensures Compact(rows[k := rows[k].(status := Cancelled)], e, rows[k].waitlistPosition)[i].waitlistPosition
      != Compact(rows[k := rows[k].(status := Cancelled)], e, rows[k].waitlistPosition)[j].waitlistPosition
  {
    CompactedRow(rows, k, e, i);
    CompactedRow(rows, k, e, j);
    DenseApart(rows, e, i, j);
  }

  /** Removing waitlisted row `k` from a dense waitlist and moving up the
      rows behind it leaves the waitlist dense. */
  lemma CompactDense(rows: seq<Attendance>, k: int, e: int)
    requires 0 <= k < |rows| && InSet(rows[k], e, WAITING)
    requires Dense(rows, e)
    ensures Dense(Compact(rows[k := rows[k].(status := Cancelled)], e, rows[k].waitlistPosition), e)
  {
    var after := rows[k := rows[k].(status := Cancelled)];
    var r := Compact(after, e, rows[k].waitlistPosition);
    TallyUpdate(rows, k, rows[k].(status := Cancelled), e, WAITING);
    CompactWaitingCount(after, e, rows[k].waitlistPosition, e);
    assert Waiting(r, e) == Waiting(rows, e) - 1;
    forall i | 0 <= i < |r| && InSet(r[i], e, WAITING)
      ensures r[i].waitlistPosition.Some? && 1 <= r[i].waitlistPosition.value <= Waiting(r, e)
    {
      CompactBound(rows, k, e, i);
    }
    forall i, j | 0 <= i < j < |r| && InSet(r[i], e, WAITING) && InSet(r[j], e, WAITING)
      ensures r[i].waitlistPosition != r[j].waitlistPosition
    {
      CompactApart(rows, k, e, i, j);
    }
  }

  /** The compaction loop against the store. */
  method CompactWaitlist(db: Db, e: int, position: Option<int>)
    modifies db
    ensures db.attendees == Compact(old(db.attendees), e, position)
    ensures db.events == old(db.events) && db.users == old(db.users)
    ensures db.nextAttendeeId == old(db.nextAttendeeId)
    ensures db.nextEventId == old(db.nextEventId) && db.nextUserId == old(db.nextUserId)
  {
    var i := 0;
    while i < |db.attendees|
      invariant 0 <= i <= |db.attendees| == |old(db.attendees)|
      invariant forall j :: 0 <= j < i ==> db.attendees[j] == Shifted(old(db.attendees)[j], e, position)
      invariant forall j :: i <= j < |db.attendees| ==> db.attendees[j] == old(db.attendees)[j]
      invariant db.events == old(db.events) && db.users == old(db.users)
      invariant db.nextAttendeeId == old(db.nextAttendeeId)
      invariant db.nextEventId == old(db.nextEventId) && db.nextUserId == old(db.nextUserId)
    {
      var wa := db.attendees[i];
      if Behind(wa, e, position) {
        db.attendees := db.attendees[i := wa.(waitlistPosition := Some(wa.waitlistPosition.value - 1))];
      }
      i := i + 1;
    }
  }

  /** `cancel_registration` against the store, as written; the second
      result is the event whose waitlist task is queued, if any. */
  method Cancel(db: Db, attendeeId: int, caller: Caller) returns (res: Result<Attendance>, promote: Option<int>)
    requires db.Valid()
    modifies db
    ensures db.Valid()
    ensures db.events == old(db.events) && db.users == old(db.users)
    ensures db.nextAttendeeId == old(db.nextAttendeeId)
    ensures db.nextEventId == old(db.nextEventId) && db.nextUserId == old(db.nextUserId)
    ensures CancelStep(old(db.attendees), attendeeId, caller).Ok? ==>
      && db.attendees == CancelStep(old(db.attendees), attendeeId, caller).value.rows
      && res == Ok(CancelStep(old(db.attendees), attendeeId, caller).value.record)
      && promote == CancelStep(old(db.attendees), attendeeId, caller).value.promote
    ensures CancelStep(old(db.attendees), attendeeId, caller).Err? ==>
      && res == Err(CancelStep(old(db.attendees), attendeeId, caller).error)
      && db.attendees == old(db.attendees) && promote.None?
  {
    promote := None;
    var found := FindById(db.attendees, attendeeId);
    if found.None? {
      return Err(NotFound("Attendee registration not found")), None;
    }
    var k := found.value;
    var attendee := db.attendees[k];
    if attendee.userId != caller.id && caller.role !in {Admin, Organizer} {
      return Err(Forbidden("Not authorized to cancel this registration")), None;
    }
    if attendee.status == Cancelled {
      return Err(BadRequest("Registration already cancelled")), None;
    }
    ghost var before := db.attendees;
    attendee := attendee.(status := Cancelled);
    db.attendees := db.attendees[k := attendee];
    if attendee.status == Waitlisted {
      // The status was overwritten just above: the compaction loop of the
      // source cannot run here.
      assert false;
    } else {
      promote := Some(attendee.eventId);
    }
    SameKeysKeepInvariants(before, db.attendees, db.nextAttendeeId, db.nextEventId);
    res := Ok(attendee);
  }

  /** The corrected cancellation against the store: the compaction loop
      runs when the row was waitlisted before it was cancelled. */
  method CancelWithCompaction(db: Db, attendeeId: int, caller: Caller) returns (res: Result<Attendance>, promote: Option<int>)
    requires db.Valid()
    modifies db
    ensures db.Valid()
    ensures db.events == old(db.events) && db.users == old(db.users)
    ensures db.nextAttendeeId == old(db.nextAttendeeId)
    ensures db.nextEventId == old(db.nextEventId) && db.nextUserId == old(db.nextUserId)
    ensures CancelFixed(old(db.attendees), attendeeId, caller).Ok? ==>
      && db.attendees == CancelFixed(old(db.attendees), attendeeId, caller).value.rows
      && res == Ok(CancelFixed(old(db.attendees), attendeeId, caller).value.record)
      && promote == CancelFixed(old(db.attendees), attendeeId, caller).value.promote
    ensures CancelFixed(old(db.attendees), attendeeId, caller).Err? ==>
      && res == Err(CancelFixed(old(db.attendees), attendeeId, caller).error)
      && db.attendees == old(db.attendees) && promote.None?
  {
    promote := None;
    var found := FindById(db.attendees, attendeeId);
    if found.None? {
      return Err(NotFound("Attendee registration not found")), None;
    }
    var k := found.value;
    var attendee := db.attendees[k];
    if attendee.userId != caller.id && caller.role !in {Admin, Organizer} {
      return Err(Forbidden("Not authorized to cancel this registration")), None;
    }
    if attendee.status == Cancelled {
      return Err(BadRequest("Registration already cancelled")), None;
    }
    ghost var before := db.attendees;
    var wasWaitlisted := attendee.status == Waitlisted;
    attendee := attendee.(status := Cancelled);
    db.attendees := db.attendees[k := attendee];
    if wasWaitlisted {
      CompactWaitlist(db, attendee.eventId, attendee.waitlistPosition);
    } else {
      promote := Some(attendee.eventId);
    }
    SameKeysKeepInvariants(before, db.attendees, db.nextAttendeeId, db.nextEventId);
    res := Ok(attendee);
  }

  /* ---------------------------------------------------------------- */
  /* get_my_registrations, get_event_attendees                         */
  /* ---------------------------------------------------------------- */

  /** `get_my_registrations`: the rows of user `u`, in table order. */
  function MyRegistrations(rows: seq<Attendance>, u: int): (r: seq<Attendance>)
    ensures |r| <= |rows|
    ensures forall x :: x in r <==> x in rows && x.userId == u
  {
    if rows == [] then []
    else
      var last := rows[|rows| - 1];
      MyRegistrations(rows[..|rows| - 1], u) + (if last.userId == u then [last] else [])
  }

  /** The rows of event `e`, in table order. */
  function EventRows(rows: seq<Attendance>, e: int): (r: seq<Attendance>)
    ensures |r| <= |rows|
    ensures forall x :: x in r <==> x in rows && x.eventId == e
  {
    if rows == [] then []
    else
      var last := rows[|rows| - 1];
      EventRows(rows[..|rows| - 1], e) + (if last.eventId == e then [last] else [])
  }

  /** Sort keys of `ORDER BY registered_at` over `f`: the registration time
      and, to break ties, the place in `f`. */
  function TimeKeys(f: seq<Attendance>): (ks: seq<Keyed>)
    ensures |ks| == |f|
    ensures forall i :: 0 <= i < |f| ==> ks[i] == (f[i].registeredAt, i)
  {
    seq(|f|, i requires 0 <= i < |f| => (f[i].registeredAt, i))
  }

  /** Sorting the time keys keeps exactly the keys, in ascending order. */
  lemma SortedTimeKeys(f: seq<Attendance>)
    ensures Ascending(Sort(TimeKeys(f)))
    ensures forall k :: 0 <= k < |Sort(TimeKeys(f))| ==>
      0 <= Sort(TimeKeys(f))[k].1 < |f| && Sort(TimeKeys(f))[k].0 == f[Sort(TimeKeys(f))[k].1].registeredAt
    ensures forall j :: 0 <= j < |f| ==> (f[j].registeredAt, j) in Sort(TimeKeys(f))
  {
    var ks := TimeKeys(f);
    var s := Sort(ks);
    SortAscending(ks);
    forall k | 0 <= k < |s| ensures 0 <= s[k].1 < |f| && s[k].0 == f[s[k].1].registeredAt {
      assert s[k] in multiset(ks);
      var m :| 0 <= m < |ks| && ks[m] == s[k];
    }
    forall j | 0 <= j < |f| ensures (f[j].registeredAt, j) in s {
      assert ks[j] in multiset(ks);
    }
  }

  /** The rows of `f` at the indices the keys carry, in key order. */
  function Pick(f: seq<Attendance>, ks: seq<Keyed>): (r: seq<Attendance>)
    requires forall k :: 0 <= k < |ks| ==> 0 <= ks[k].1 < |f|
    ensures |r| == |ks|
    ensures forall k :: 0 <= k < |ks| ==> r[k] == f[ks[k].1]
  {
    if ks == [] then [] else [f[ks[0].1]] + Pick(f, ks[1..])
  }

  lemma {:induction false} PickAppend(f: seq<Attendance>, a: seq<Keyed>, b: seq<Keyed>)
    requires forall k :: 0 <= k < |a| ==> 0 <= a[k].1 < |f|
    requires forall k :: 0 <= k < |b| ==> 0 <= b[k].1 < |f|
    ensures forall k :: 0 <= k < |a + b| ==> 0 <= (a + b)[k].1 < |f|
    ensures Pick(f, a + b) == Pick(f, a) + Pick(f, b)
  {
    assert forall k :: 0 <= k < |a + b| ==> (a + b)[k] == if k < |a| then a[k] else b[k - |a|];
  }

  /** Taking one key out of both sides of a multiset equation. */
  lemma RemoveFromBoth(a: seq<Keyed>, lo: seq<Keyed>, hi: seq<Keyed>)
    requires a != [] && multiset(a) == multiset(lo + [a[0]] + hi)
    ensures multiset(a[1..]) == multiset(lo + hi)
  {
    var b := lo + [a[0]] + hi;
    assert multiset(b) == multiset(lo) + multiset{a[0]} + multiset(hi);
    assert a == [a[0]] + a[1..];
    assert multiset(a) == multiset{a[0]} + multiset(a[1..]);
    forall z ensures multiset(lo + hi)[z] == multiset(a[1..])[z] {
      assert multiset(a)[z] == multiset(b)[z];
    }
  }

  /** Picking along `lo + [x] + hi` picks the row of `x` and those picked
      along `lo + hi`. */
  lemma PickSplit(f: seq<Attendance>, lo: seq<Keyed>, x: Keyed, hi: seq<Keyed>)
    requires forall k :: 0 <= k < |lo| ==> 0 <= lo[k].1 < |f|
    requires forall k :: 0 <= k < |hi| ==> 0 <= hi[k].1 < |f|
    requires 0 <= x.1 < |f|
    ensures forall k :: 0 <= k < |lo + [x] + hi| ==> 0 <= (lo + [x] + hi)[k].1 < |f|
    ensures forall k :: 0 <= k < |lo + hi| ==> 0 <= (lo + hi)[k].1 < |f|
    ensures multiset(Pick(f, lo + [x] + hi)) == multiset{f[x.1]} + multiset(Pick(f, lo + hi))
  {
    PickAppend(f, lo, hi);
    PickAppend(f, lo, [x]);
    PickAppend(f, lo + [x], hi);
    assert Pick(f, [x]) == [f[x.1]];
    assert Pick(f, lo + [x] + hi) == Pick(f, lo) + [f[x.1]] + Pick(f, hi);
  }

  /** Picking along two arrangements of the same keys picks the same rows,
      each as often. */
  lemma {:induction false} PickPermutation(f: seq<Attendance>, a: seq<Keyed>, b: seq<Keyed>)
    requires forall k :: 0 <= k < |a| ==> 0 <= a[k].1 < |f|
    requires forall k :: 0 <= k < |b| ==> 0 <= b[k].1 < |f|
    requires multiset(a) == multiset(b)
    ensures multiset(Pick(f, a)) == multiset(Pick(f, b))
    decreases |a|
  {
    if a == [] {
      assert |multiset(b)| == 0;
    } else {
      assert a[0] in multiset(b);
      var m := IndexOf(b, a[0]);
      var lo, hi := b[..m], b[m + 1..];
      assert b == lo + [a[0]] + hi;
      RemoveFromBoth(a, lo, hi);
      PickSplit(f, lo, a[0], hi);
      PickPermutation(f, a[1..], lo + hi);
      assert Pick(f, a) == [f[a[0].1]] + Pick(f, a[1..]);
    }
  }

  /** Picking along the sorted time keys picks every row of `f` as often
      as `f` holds it. */
  lemma SortedPickIsPermutation(f: seq<Attendance>)
    ensures forall k :: 0 <= k < |Sort(TimeKeys(f))| ==> 0 <= Sort(TimeKeys(f))[k].1 < |f|
    ensures multiset(Pick(f, Sort(TimeKeys(f)))) == multiset(f)
  {
    SortedTimeKeys(f);
    var ks := TimeKeys(f);
    PickPermutation(f, Sort(ks), ks);
    assert Pick(f, ks) == f;
  }

  /** Picking along the sorted time keys gives non-decreasing times. */
  lemma SortedPickAscends(f: seq<Attendance>)
    ensures forall k :: 0 <= k < |Sort(TimeKeys(f))| ==> 0 <= Sort(TimeKeys(f))[k].1 < |f|
    ensures forall k, l :: 0 <= k < l < |Sort(TimeKeys(f))| ==>
      Pick(f, Sort(TimeKeys(f)))[k].registeredAt <= Pick(f, Sort(TimeKeys(f)))[l].registeredAt
  {
    SortedTimeKeys(f);
  }

  /** `ORDER BY registered_at`, ties in the order of `f`. */
  function OrderByRegistration(f: seq<Attendance>): (r: seq<Attendance>)
    ensures |r| == |f|
    ensures multiset(r) == multiset(f)
    ensures forall k :: 0 <= k < |r| ==> r[k] in f
    ensures forall x :: x in f ==> x in r
    ensures forall k, l :: 0 <= k < l < |r| ==> r[k].registeredAt <= r[l].registeredAt
  {
    SortedPickIsPermutation(f);
    SortedPickAscends(f);
    var r := Pick(f, Sort(TimeKeys(f)));
    assert forall x :: x in f ==> x in r by {
      forall x | x in f ensures x in r {
        assert x in multiset(f);
      }
    }
    assert forall k :: 0 <= k < |r| ==> r[k] in f by {
      forall k | 0 <= k < |r| ensures r[k] in f {
        assert r[k] in multiset(r);
      }
    }
    r
  }

  /** `get_event_attendees`: 404 for a missing event, 403 for an organizer
      who does not own it, otherwise the event's rows by registration time. */
  function EventAttendees(events: seq<Event>, rows: seq<Attendance>, caller: Caller, e: int): (r: Result<seq<Attendance>>)
    requires caller.role in {Admin, Organizer}
    ensures r.Err? ==>
      r.error == NotFound("Event not found") || r.error == Forbidden("Not authorized to view attendees for this event")
    ensures r.Ok? ==> multiset(r.value) == multiset(EventRows(rows, e))
  {
    match FindEvent(events, e)
    case None => Err(NotFound("Event not found"))
    case Some(k) =>
      if caller.role == Organizer && events[k].organizerId != caller.id then
        Err(Forbidden("Not authorized to view attendees for this event"))
      else
        Ok(OrderByRegistration(EventRows(rows, e)))
  }

  /** The listing fails exactly for a missing event (404) or a foreign
      organizer (403); otherwise it holds all rows of the event and no
      other, in non-decreasing registration time. */
  lemma EventAttendeesOutcome(events: seq<Event>, rows: seq<Attendance>, caller: Caller, e: int)
    requires caller.role in {Admin, Organizer}
    ensures FindEvent(events, e).None? ==> EventAttendees(events, rows, caller, e) == Err(NotFound("Event not found"))
    ensures (FindEvent(events, e).Some? && caller.role == Organizer &&
             events[FindEvent(events, e).value].organizerId != caller.id) ==>
      EventAttendees(events, rows, caller, e) == Err(Forbidden("Not authorized to view attendees for this event"))
    ensures EventAttendees(events, rows, caller, e).Ok? <==>
      FindEvent(events, e).Some? &&
      !(caller.role == Organizer && events[FindEvent(events, e).value].organizerId != caller.id)
    ensures EventAttendees(events, rows, caller, e).Ok? ==>
      && |EventAttendees(events, rows, caller, e).value| == |EventRows(rows, e)|
      && multiset(EventAttendees(events, rows, caller, e).value) == multiset(EventRows(rows, e))
      && (forall x :: x in EventAttendees(events, rows, caller, e).value <==> x in rows && x.eventId == e)
      && (forall k, l :: 0 <= k < l < |EventAttendees(events, rows, caller, e).value| ==>
            EventAttendees(events, rows, caller, e).value[k].registeredAt
              <= EventAttendees(events, rows, caller, e).value[l].registeredAt)
  {
  }
}
