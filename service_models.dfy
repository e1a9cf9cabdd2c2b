/** Draft B (the service draft): its attendee and event rows and the
    database session the services work on.

    Attendance has three statuses here and no waitlist; an event has a
    lifecycle status of its own and a capacity of which 0 means unlimited.
    Server-side timestamps that are filled in on insert are parameters of
    the operation that inserts. */
module ServiceModels {
  import opened Common

  datatype AttendeeStatus = Registered | CheckedIn | Cancelled

  datatype EventStatus = Draft | Published | Cancelled | Completed

  /** The string value of each `AttendeeStatus` member. */
  function AttendeeStatusName(s: AttendeeStatus): (name: string)
    ensures name != ""
  {
    match s
    case Registered => "registered"
    case CheckedIn => "checked_in"
    case Cancelled => "cancelled"
  }

  /** The string value of each `EventStatus` member. */
  function EventStatusName(s: EventStatus): (name: string)
    ensures name != ""
  {
    match s
    case Draft => "draft"
    case Published => "published"
    case Cancelled => "cancelled"
    case Completed => "completed"
  }

  /** Distinct statuses have distinct names, so a filter on a name selects
      one status. */
  lemma StatusNamesDistinct(s: AttendeeStatus, t: AttendeeStatus, u: EventStatus, v: EventStatus)
    ensures AttendeeStatusName(s) == AttendeeStatusName(t) ==> s == t
    ensures EventStatusName(u) == EventStatusName(v) ==> u == v
  {
  }

  /** Python truthiness of an optional id: `None` and 0 are false. */
  predicate IdGiven(x: Option<int>)
  {
    x.Some? && x.value != 0
  }

  /** Python truthiness of an optional string: `None` and "" are false. */
  predicate TextGiven(x: Option<string>)
  {
    x.Some? && x.value != ""
  }

  datatype Attendee = Attendee(
    id: int,
    eventId: int,
    userId: int,
    status: AttendeeStatus,
    registrationDate: int,
    checkInDate: Option<int>,
    ticketNumber: string)

  datatype Event = Event(
    id: int,
    title: string,
    description: Option<string>,
    location: Option<string>,
    startDate: int,
    endDate: int,
    capacity: int,
    status: EventStatus,
    organizerId: int)

  /** A record that is not cancelled holds a seat. */
  predicate Holds(a: Attendee, e: int)
  {
    a.eventId == e && a.status != AttendeeStatus.Cancelled
  }

  /** `count(*) WHERE event_id = e AND status != 'cancelled'`. */
  function Occupied(rows: seq<Attendee>, e: int): (n: nat)
    ensures n <= |rows|
    ensures n == 0 <==> forall i :: 0 <= i < |rows| ==> !Holds(rows[i], e)
  {
    if rows == [] then 0
    else
      var init := rows[..|rows| - 1];
      assert forall i :: 0 <= i < |init| ==> init[i] == rows[i];
      Occupied(init, e) + (if Holds(rows[|rows| - 1], e) then 1 else 0)
  }

  lemma OccupiedAppend(rows: seq<Attendee>, a: Attendee, e: int)
    ensures Occupied(rows + [a], e) == Occupied(rows, e) + (if Holds(a, e) then 1 else 0)
  {
    assert (rows + [a])[..|rows|] == rows;
  }

  /** Replacing one record changes a count by what the old and new record
      contribute. */
  lemma {:induction false} OccupiedUpdate(rows: seq<Attendee>, i: int, a: Attendee, e: int)
    requires 0 <= i < |rows|
    ensures Occupied(rows[i := a], e)
      == Occupied(rows, e) - (if Holds(rows[i], e) then 1 else 0) + (if Holds(a, e) then 1 else 0)
  {
    var n := |rows|;
    var u := rows[i := a];
    assert u[..n - 1] == if i == n - 1 then rows[..n - 1] else rows[..n - 1][i := a];
    if i < n - 1 {
      OccupiedUpdate(rows[..n - 1], i, a, e);
    }
  }

  /** `query(Attendee).filter(Attendee.id == id).first()`. */
  function FindAttendee(rows: seq<Attendee>, id: int): (r: Option<nat>)
    ensures r.Some? ==> r.value < |rows| && rows[r.value].id == id
    ensures r.Some? ==> forall j :: 0 <= j < r.value ==> rows[j].id != id
    ensures r.None? ==> forall j :: 0 <= j < |rows| ==> rows[j].id != id
  {
    if rows == [] then None
    else if rows[0].id == id then Some(0)
    else match FindAttendee(rows[1..], id)
      case None => None
      case Some(k) => Some(k + 1)
  }

  /** `query(Event).filter(Event.id == id).first()`. */
  function FindEvent(events: seq<Event>, id: int): (r: Option<nat>)
    ensures r.Some? ==> r.value < |events| && events[r.value].id == id
    ensures r.Some? ==> forall j :: 0 <= j < r.value ==> events[j].id != id
    ensures r.None? ==> forall j :: 0 <= j < |events| ==> events[j].id != id
  {
    if events == [] then None
    else if events[0].id == id then Some(0)
    else match FindEvent(events[1..], id)
      case None => None
      case Some(k) => Some(k + 1)
  }

  /** The database session shared by the services: the events and attendees
      tables and their next autoincrement keys. */
  class Session {
    var events: seq<Event>
    var attendees: seq<Attendee>
    var nextEventId: int
    var nextAttendeeId: int

    /** Keys are below the next key and event ids are distinct; every
        capacity passed the schemas' `ge=0` check. */
    ghost predicate Valid()
      reads this
    {
      && (forall i :: 0 <= i < |attendees| ==> attendees[i].id < nextAttendeeId)
      && (forall i :: 0 <= i < |events| ==> events[i].id < nextEventId && events[i].capacity >= 0)
      && (forall i, j :: 0 <= i < j < |events| ==> events[i].id != events[j].id)
    }

    constructor ()
      ensures Valid()
      ensures events == [] && attendees == []
    {
      events, attendees := [], [];
      nextEventId, nextAttendeeId := 1, 1;
    }
  }
}
