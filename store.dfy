/** Draft A (the router and task draft): its tables as an in-memory store.

    An attendance row is the source's `Attendee` model: one user's
    registration for one event, with a status out of four (registered,
    checked in, waitlisted, cancelled) and an optional waitlist position.
    Timestamps are opaque clock readings (`int`); the clock itself is a
    parameter of every operation that reads it. */
module Store {
  import opened Common

  datatype Status = Registered | CheckedIn | Waitlisted | Cancelled

  datatype Role = Admin | Organizer | Attendee

  /** The authenticated user on whose behalf a router runs. */
  datatype Caller = Caller(id: int, role: Role)

  datatype Attendance = Attendance(
    id: int,
    eventId: int,
    userId: int,
    status: Status,
    waitlistPosition: Option<int>,
    registeredAt: int,
    checkedInAt: Option<int>)

  datatype Event = Event(
    id: int,
    title: string,
    description: Option<string>,
    date: int,
    location: string,
    capacity: int,
    category: string,
    organizerId: int,
    updatedAt: Option<int>)

  datatype User = User(
    id: int,
    email: string,
    username: string,
    fullName: Option<string>,
    hashedPassword: string,
    role: Role,
    isActive: bool)

  /** Statuses that hold a seat: registered or checked in. */
  const CONFIRMED: set<Status> := {Registered, CheckedIn}
  const WAITING: set<Status> := {Waitlisted}

  predicate InSet(r: Attendance, e: int, ss: set<Status>)
  {
    r.eventId == e && r.status in ss
  }

  /** `SELECT count(*) ... WHERE event_id = e AND status IN ss`. */
  function Tally(rows: seq<Attendance>, e: int, ss: set<Status>): (n: nat)
    ensures n <= |rows|
    ensures n == 0 <==> forall i :: 0 <= i < |rows| ==> !InSet(rows[i], e, ss)
  {
    if rows == [] then 0
    else
      var last := rows[|rows| - 1];
      var init := rows[..|rows| - 1];
      assert forall i :: 0 <= i < |init| ==> init[i] == rows[i];
      Tally(init, e, ss) + (if InSet(last, e, ss) then 1 else 0)
  }

  /** Number of seats in use for event `e`. */
  function Confirmed(rows: seq<Attendance>, e: int): nat
  {
    Tally(rows, e, CONFIRMED)
  }

  /** Number of waitlisted rows of event `e`. */
  function Waiting(rows: seq<Attendance>, e: int): nat
  {
    Tally(rows, e, WAITING)
  }

  lemma TallyAppend(rows: seq<Attendance>, r: Attendance, e: int, ss: set<Status>)
    ensures Tally(rows + [r], e, ss) == Tally(rows, e, ss) + (if InSet(r, e, ss) then 1 else 0)
  {
    assert (rows + [r])[..|rows|] == rows;
  }

  /** Replacing one row changes a count by what the old and new row contribute. */
  lemma {:induction false} TallyUpdate(rows: seq<Attendance>, i: int, r: Attendance, e: int, ss: set<Status>)
    requires 0 <= i < |rows|
    ensures Tally(rows[i := r], e, ss)
      == Tally(rows, e, ss) - (if InSet(rows[i], e, ss) then 1 else 0) + (if InSet(r, e, ss) then 1 else 0)
  {
    var n := |rows|;
    var u := rows[i := r];
    assert u[..n - 1] == if i == n - 1 then rows[..n - 1] else rows[..n - 1][i := r];
    if i < n - 1 {
      TallyUpdate(rows[..n - 1], i, r, e, ss);
    }
  }

  /** Counts see only the event and the status of each row. */
  lemma {:induction false} TallyCongruent(a: seq<Attendance>, b: seq<Attendance>, e: int, ss: set<Status>)
    requires |a| == |b|
    requires forall i :: 0 <= i < |a| ==> a[i].eventId == b[i].eventId && a[i].status == b[i].status
    ensures Tally(a, e, ss) == Tally(b, e, ss)
  {
    if a != [] {
      TallyCongruent(a[..|a| - 1], b[..|b| - 1], e, ss);
    }
  }

  /** `query(Event).filter(Event.id == id).first()`. */
  function FindEvent(events: seq<Event>, id: int): (r: Option<nat>)
    ensures r.Some? ==>
      r.value < |events| && events[r.value].id == id &&
      forall j :: 0 <= j < r.value ==> events[j].id != id
    ensures r.None? ==> forall j :: 0 <= j < |events| ==> events[j].id != id
  {
    if events == [] then None
    else
      match FindEvent(events[..|events| - 1], id)
      case Some(k) => Some(k)
      case None => if events[|events| - 1].id == id then Some(|events| - 1) else None
  }

  /** `query(Attendee).filter(Attendee.id == id).first()`. */
  function FindById(rows: seq<Attendance>, id: int): (r: Option<nat>)
    ensures r.Some? ==>
      r.value < |rows| && rows[r.value].id == id &&
      forall j :: 0 <= j < r.value ==> rows[j].id != id
    ensures r.None? ==> forall j :: 0 <= j < |rows| ==> rows[j].id != id
  {
    if rows == [] then None
    else
      match FindById(rows[..|rows| - 1], id)
      case Some(k) => Some(k)
      case None => if rows[|rows| - 1].id == id then Some(|rows| - 1) else None
  }

  /** The first row of user `u` for event `e`, whatever its status. */
  function FindRegistration(rows: seq<Attendance>, e: int, u: int): (r: Option<nat>)
    ensures r.Some? ==>
      r.value < |rows| && rows[r.value].eventId == e && rows[r.value].userId == u &&
      forall j :: 0 <= j < r.value ==> !(rows[j].eventId == e && rows[j].userId == u)
    ensures r.None? ==> forall j :: 0 <= j < |rows| ==> !(rows[j].eventId == e && rows[j].userId == u)
  {
    if rows == [] then None
    else
      match FindRegistration(rows[..|rows| - 1], e, u)
      case Some(k) => Some(k)
      case None =>
        var last := rows[|rows| - 1];
        if last.eventId == e && last.userId == u then Some(|rows| - 1) else None
  }

  /** At most one row per (event, user): registration never adds a second one. */
  predicate OnePerPair(rows: seq<Attendance>)
  {
    forall i, j :: 0 <= i < j < |rows| ==>
      !(rows[i].eventId == rows[j].eventId && rows[i].userId == rows[j].userId)
  }

  predicate IdsBelow(rows: seq<Attendance>, next: int)
  {
    forall i :: 0 <= i < |rows| ==> rows[i].id < next
  }

  /** Every row refers to an event id already handed out. */
  predicate EventsBelow(rows: seq<Attendance>, nextEvent: int)
  {
    forall i :: 0 <= i < |rows| ==> rows[i].eventId < nextEvent
  }

  /** Same rows up to status, waitlist position and timestamps. */
  predicate SameKeys(a: seq<Attendance>, b: seq<Attendance>)
  {
    |a| == |b| &&
    forall i :: 0 <= i < |a| ==>
      a[i].id == b[i].id && a[i].eventId == b[i].eventId && a[i].userId == b[i].userId
  }

  lemma SameKeysKeepInvariants(a: seq<Attendance>, b: seq<Attendance>, next: int, nextEvent: int)
    requires SameKeys(a, b) && OnePerPair(a) && IdsBelow(a, next) && EventsBelow(a, nextEvent)
    ensures OnePerPair(b) && IdsBelow(b, next) && EventsBelow(b, nextEvent)
  {
  }

  /** Appending a row with a fresh id, a known event and a new (event, user)
      pair keeps the table's invariants, the next id moving past it. */
  lemma AppendKeepsInvariants(rows: seq<Attendance>, a: Attendance, next: int, nextEvent: int)
    requires OnePerPair(rows) && IdsBelow(rows, next) && EventsBelow(rows, nextEvent)
    requires a.id == next && a.eventId < nextEvent
    requires forall j :: 0 <= j < |rows| ==> !(rows[j].eventId == a.eventId && rows[j].userId == a.userId)
    ensures OnePerPair(rows + [a]) && IdsBelow(rows + [a], next + 1) && EventsBelow(rows + [a], nextEvent)
  {
  }

  /** The database of Draft A: the events, attendees and users tables and the
      next free attendee, event and user ids (autoincrement keys). */
  class Db {
    var events: seq<Event>
    var attendees: seq<Attendance>
    var users: seq<User>
    var nextAttendeeId: int
    var nextEventId: int
    var nextUserId: int

    ghost predicate Valid()
      reads this
    {
      && IdsBelow(attendees, nextAttendeeId)
      && OnePerPair(attendees)
      && EventsBelow(attendees, nextEventId)
      && (forall i :: 0 <= i < |events| ==> events[i].id < nextEventId)
      && (forall i, j :: 0 <= i < j < |events| ==> events[i].id != events[j].id)
      && (forall i :: 0 <= i < |users| ==> users[i].id < nextUserId)
    }

    constructor ()
      ensures Valid()
      ensures events == [] && attendees == [] && users == []
    {
      events, attendees, users := [], [], [];
      nextAttendeeId, nextEventId, nextUserId := 1, 1, 1;
    }

    /** `db.add(row)` of a new attendance row, which takes the next id. */
    method Insert(row: Attendance)
      requires Valid()
      requires row.id == nextAttendeeId && row.eventId < nextEventId
      requires forall j :: 0 <= j < |attendees| ==>
        !(attendees[j].eventId == row.eventId && attendees[j].userId == row.userId)
      modifies this
      ensures Valid()
      ensures attendees == old(attendees) + [row] && nextAttendeeId == old(nextAttendeeId) + 1
      ensures events == old(events) && users == old(users)
      ensures nextEventId == old(nextEventId) && nextUserId == old(nextUserId)
    {
      AppendKeepsInvariants(attendees, row, nextAttendeeId, nextEventId);
      attendees := attendees + [row];
      nextAttendeeId := nextAttendeeId + 1;
    }

    /** An update of attendance row `i` that keeps its id, event and user. */
    method Replace(i: nat, row: Attendance)
      requires Valid()
      requires i < |attendees|
      requires row.id == attendees[i].id && row.eventId == attendees[i].eventId && row.userId == attendees[i].userId
      modifies this
      ensures Valid()
      ensures attendees == old(attendees)[i := row]
      ensures events == old(events) && users == old(users)
      ensures nextAttendeeId == old(nextAttendeeId)
      ensures nextEventId == old(nextEventId) && nextUserId == old(nextUserId)
    {
      SameKeysKeepInvariants(attendees, attendees[i := row], nextAttendeeId, nextEventId);
      attendees := attendees[i := row];
    }
  }
}
