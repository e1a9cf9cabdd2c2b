/** Draft B's attendee service (backend/src/services/attendee.py): the
    filtered, paged listing of attendance records and the three operations
    that change one record (a status update, check-in, cancellation). */
module AttendeeServices {
  import opened Common
  import opened ServiceModels

  /* ---------------------------------------------------------------- */
  /* list_attendees                                                    */
  /* ---------------------------------------------------------------- */

  /** The optional filters of `list_attendees`. */
  datatype AttendeeFilter = AttendeeFilter(eventId: Option<int>, userId: Option<int>, status: Option<string>)

  /** A record passes every filter that is given. */
  predicate Keeps(f: AttendeeFilter, a: Attendee)
  {
    && (IdGiven(f.eventId) ==> a.eventId == f.eventId.value)
    && (IdGiven(f.userId) ==> a.userId == f.userId.value)
    && (TextGiven(f.status) ==> AttendeeStatusName(a.status) == f.status.value)
  }

  /** The filtered query, in table order. */
  function Filtered(rows: seq<Attendee>, f: AttendeeFilter): (r: seq<Attendee>)
    ensures |r| <= |rows|
    ensures forall a :: a in r <==> a in rows && Keeps(f, a)
  {
    if rows == [] then []
    else
      var last := rows[|rows| - 1];
      Filtered(rows[..|rows| - 1], f) + (if Keeps(f, last) then [last] else [])
  }

  /** A filter given as 0 or "" is no filter: the query is the one without
      it. */
  lemma {:induction false} FalsyFiltersIgnored(rows: seq<Attendee>, f: AttendeeFilter)
    ensures Filtered(rows, f) == Filtered(rows, AttendeeFilter(
      if IdGiven(f.eventId) then f.eventId else None,
      if IdGiven(f.userId) then f.userId else None,
      if TextGiven(f.status) then f.status else None))
  {
    if rows != [] {
      FalsyFiltersIgnored(rows[..|rows| - 1], f);
    }
  }

  /** With no filter the query is the whole table. */
  lemma {:induction false} UnfilteredIsAll(rows: seq<Attendee>)
    ensures Filtered(rows, AttendeeFilter(None, None, None)) == rows
  {
    if rows != [] {
      UnfilteredIsAll(rows[..|rows| - 1]);
      assert rows[..|rows| - 1] + [rows[|rows| - 1]] == rows;
    }
  }

  /** `list_attendees`: the page `filtered[skip : skip + limit]` and the
      count of the whole filtered query. */
  function ListAttendees(rows: seq<Attendee>, f: AttendeeFilter, skip: nat, limit: nat): (r: (seq<Attendee>, nat))
    ensures r.1 == |Filtered(rows, f)|
    ensures |r.0| <= limit && |r.0| <= r.1
    ensures |r.0| == Min(limit, if skip <= r.1 then r.1 - skip else 0)
    ensures forall k :: 0 <= k < |r.0| ==> r.0[k] == Filtered(rows, f)[skip + k]
    ensures forall a :: a in r.0 ==> a in rows && Keeps(f, a)
  {
    var all := Filtered(rows, f);
    (Page(all, skip, limit), |all|)
  }

  /* ---------------------------------------------------------------- */
  /* update_attendee, check_in_attendee, cancel_registration           */
  /* ---------------------------------------------------------------- */

  /** `update_attendee`: `AttendeeUpdate` has one field, the status, given
      or not. */
  function UpdateStep(rows: seq<Attendee>, id: int, status: Option<AttendeeStatus>): (r: Result<seq<Attendee>>)
    ensures r.Ok? ==> |r.value| == |rows|
  {
    match FindAttendee(rows, id)
    case None => Err(NotFound("Attendee record not found"))
    case Some(k) =>
      Ok(rows[k := if status.Some? then rows[k].(status := status.value) else rows[k]])
  }

  /** An update fails exactly for a missing record. Otherwise it touches
      that one record, and only its status, and only when a status is
      given. */
  lemma UpdateOutcome(rows: seq<Attendee>, id: int, status: Option<AttendeeStatus>)
    ensures UpdateStep(rows, id, status).Err? <==> forall j :: 0 <= j < |rows| ==> rows[j].id != id
    ensures UpdateStep(rows, id, status).Err? ==> UpdateStep(rows, id, status).error == NotFound("Attendee record not found")
    ensures UpdateStep(rows, id, status).Ok? ==>
      var k := FindAttendee(rows, id).value;
      var after := UpdateStep(rows, id, status).value;
      && (forall j :: 0 <= j < |rows| && j != k ==> after[j] == rows[j])
      && after[k].(status := rows[k].status) == rows[k]
      && after[k].status == (if status.Some? then status.value else rows[k].status)
  {
  }

  /** `check_in_attendee` at clock reading `now`. */
  function CheckInStep(rows: seq<Attendee>, id: int, now: int): (r: Result<seq<Attendee>>)
    ensures r.Ok? ==> |r.value| == |rows|
  {
    match FindAttendee(rows, id)
    case None => Err(NotFound("Attendee record not found"))
    case Some(k) =>
      if rows[k].status == CheckedIn then Err(BadRequest("Attendee already checked in"))
      else if rows[k].status == AttendeeStatus.Cancelled then Err(BadRequest("Cannot check in cancelled registration"))
      else Ok(rows[k := rows[k].(status := CheckedIn, checkInDate := Some(now))])
  }

  /** Check-in succeeds exactly for a registered record, which becomes
      checked in at `now`; a checked-in or cancelled record is refused with
      its own message, and a missing one with 404. No other record changes
      and the seat count of every event is unchanged. */
  lemma CheckInOutcome(rows: seq<Attendee>, id: int, now: int)
    ensures FindAttendee(rows, id).None? ==> CheckInStep(rows, id, now) == Err(NotFound("Attendee record not found"))
    ensures CheckInStep(rows, id, now).Ok? <==>
      FindAttendee(rows, id).Some? && rows[FindAttendee(rows, id).value].status == Registered
    ensures FindAttendee(rows, id).Some? && rows[FindAttendee(rows, id).value].status == CheckedIn ==>
      CheckInStep(rows, id, now) == Err(BadRequest("Attendee already checked in"))
    ensures FindAttendee(rows, id).Some? && rows[FindAttendee(rows, id).value].status == AttendeeStatus.Cancelled ==>
      CheckInStep(rows, id, now) == Err(BadRequest("Cannot check in cancelled registration"))
    ensures CheckInStep(rows, id, now).Ok? ==>
      var k := FindAttendee(rows, id).value;
      var after := CheckInStep(rows, id, now).value;
      && (forall j :: 0 <= j < |rows| && j != k ==> after[j] == rows[j])
      && after[k].status == CheckedIn && after[k].checkInDate == Some(now)
      && after[k].id == id && after[k].eventId == rows[k].eventId && after[k].userId == rows[k].userId
      && forall e :: Occupied(after, e) == Occupied(rows, e)
  {
    if CheckInStep(rows, id, now).Ok? {
      var k := FindAttendee(rows, id).value;
      forall e ensures Occupied(CheckInStep(rows, id, now).value, e) == Occupied(rows, e) {
        OccupiedUpdate(rows, k, rows[k].(status := CheckedIn, checkInDate := Some(now)), e);
      }
    }
  }

  /** `cancel_registration`. */
  function CancelStep(rows: seq<Attendee>, id: int): (r: Result<seq<Attendee>>)
    ensures r.Ok? ==> |r.value| == |rows|
  {
    match FindAttendee(rows, id)
    case None => Err(NotFound("Attendee record not found"))
    case Some(k) =>
      if rows[k].status == CheckedIn then Err(BadRequest("Cannot cancel after check-in"))
      else Ok(rows[k := rows[k].(status := AttendeeStatus.Cancelled)])
  }

  /** Cancellation fails for a missing record (404) or a checked-in one;
      otherwise that record, registered or already cancelled, ends up
      cancelled, nothing else changes, and the record's event loses a seat
      holder exactly when the record was registered. */
  lemma CancelOutcome(rows: seq<Attendee>, id: int)
    ensures FindAttendee(rows, id).None? ==> CancelStep(rows, id) == Err(NotFound("Attendee record not found"))
    ensures CancelStep(rows, id).Ok? <==>
      FindAttendee(rows, id).Some? && rows[FindAttendee(rows, id).value].status != CheckedIn
    ensures FindAttendee(rows, id).Some? && rows[FindAttendee(rows, id).value].status == CheckedIn ==>
      CancelStep(rows, id) == Err(BadRequest("Cannot cancel after check-in"))
    ensures CancelStep(rows, id).Ok? ==>
      var k := FindAttendee(rows, id).value;
      var after := CancelStep(rows, id).value;
      && (forall j :: 0 <= j < |rows| && j != k ==> after[j] == rows[j])
      && after[k] == rows[k].(status := AttendeeStatus.Cancelled)
      && Occupied(after, rows[k].eventId)
         == Occupied(rows, rows[k].eventId) - (if rows[k].status == Registered then 1 else 0)
  {
    if CancelStep(rows, id).Ok? {
      var k := FindAttendee(rows, id).value;
      OccupiedUpdate(rows, k, rows[k].(status := AttendeeStatus.Cancelled), rows[k].eventId);
    }
  }

  /** Cancelling twice is cancelling once. */
  lemma CancelIdempotent(rows: seq<Attendee>, id: int)
    requires CancelStep(rows, id).Ok?
    ensures CancelStep(CancelStep(rows, id).value, id) == CancelStep(rows, id)
  {
    var k := FindAttendee(rows, id).value;
    var after := CancelStep(rows, id).value;
    assert after[k].id == id;
    assert FindAttendee(after, id) == Some(k);
    assert after[k].(status := AttendeeStatus.Cancelled) == after[k];
    assert after[k := after[k]] == after;
  }

  /* ---------------------------------------------------------------- */
  /* The service against the session                                   */
  /* ---------------------------------------------------------------- */

  class AttendeeService {
    const db: Session

    constructor (db: Session)
      ensures this.db == db
    {
      this.db := db;
    }

    /** `get_attendee`. */
    function GetAttendee(id: int): (r: Option<Attendee>)
      reads db
      ensures r.Some? ==> r.value in db.attendees && r.value.id == id
      ensures r.None? ==> forall j :: 0 <= j < |db.attendees| ==> db.attendees[j].id != id
    {
      match FindAttendee(db.attendees, id)
      case None => None
      case Some(k) => Some(db.attendees[k])
    }

    /** `update_attendee`. */
    method UpdateAttendee(id: int, status: Option<AttendeeStatus>) returns (res: Result<Attendee>)
      requires db.Valid()
      modifies db
      ensures db.Valid()
      ensures db.events == old(db.events)
      ensures db.nextEventId == old(db.nextEventId) && db.nextAttendeeId == old(db.nextAttendeeId)
      ensures UpdateStep(old(db.attendees), id, status).Ok? ==>
        && db.attendees == UpdateStep(old(db.attendees), id, status).value
        && res == Ok(db.attendees[FindAttendee(old(db.attendees), id).value])
      ensures UpdateStep(old(db.attendees), id, status).Err? ==>
        db.attendees == old(db.attendees) && res == Err(UpdateStep(old(db.attendees), id, status).error)
    {
      var found := FindAttendee(db.attendees, id);
      if found.None? {
        return Err(NotFound("Attendee record not found"));
      }
      var attendee := db.attendees[found.value];
      if status.Some? {
        attendee := attendee.(status := status.value);
      }
      db.attendees := db.attendees[found.value := attendee];
      res := Ok(attendee);
    }

    /** `check_in_attendee` at clock reading `now`. */
    method CheckInAttendee(id: int, now: int) returns (res: Result<Attendee>)
      requires db.Valid()
      modifies db
      ensures db.Valid()
      ensures db.events == old(db.events)
      ensures db.nextEventId == old(db.nextEventId) && db.nextAttendeeId == old(db.nextAttendeeId)
      ensures CheckInStep(old(db.attendees), id, now).Ok? ==>
        && db.attendees == CheckInStep(old(db.attendees), id, now).value
        && res == Ok(db.attendees[FindAttendee(old(db.attendees), id).value])
      ensures CheckInStep(old(db.attendees), id, now).Err? ==>
        db.attendees == old(db.attendees) && res == Err(CheckInStep(old(db.attendees), id, now).error)
    {
      var found := FindAttendee(db.attendees, id);
      if found.None? {
        return Err(NotFound("Attendee record not found"));
      }
      var attendee := db.attendees[found.value];
      if attendee.status == CheckedIn {
        return Err(BadRequest("Attendee already checked in"));
      }
      if attendee.status == AttendeeStatus.Cancelled {
        return Err(BadRequest("Cannot check in cancelled registration"));
      }
      attendee := attendee.(status := CheckedIn, checkInDate := Some(now));
      db.attendees := db.attendees[found.value := attendee];
      res := Ok(attendee);
    }

    /** `cancel_registration`. */
    method CancelRegistration(id: int) returns (res: Result<Attendee>)
      requires db.Valid()
      modifies db
      ensures db.Valid()
      ensures db.events == old(db.events)
      ensures db.nextEventId == old(db.nextEventId) && db.nextAttendeeId == old(db.nextAttendeeId)
      ensures CancelStep(old(db.attendees), id).Ok? ==>
        && db.attendees == CancelStep(old(db.attendees), id).value
        && res == Ok(db.attendees[FindAttendee(old(db.attendees), id).value])
      ensures CancelStep(old(db.attendees), id).Err? ==>
        db.attendees == old(db.attendees) && res == Err(CancelStep(old(db.attendees), id).error)
    {
      var found := FindAttendee(db.attendees, id);
      if found.None? {
        return Err(NotFound("Attendee record not found"));
      }
      var attendee := db.attendees[found.value];
      if attendee.status == CheckedIn {
        return Err(BadRequest("Cannot cancel after check-in"));
      }
      attendee := attendee.(status := AttendeeStatus.Cancelled);
      db.attendees := db.attendees[found.value := attendee];
      res := Ok(attendee);
    }
  }
}
