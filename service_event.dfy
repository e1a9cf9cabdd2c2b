/** Draft B's event service (backend/src/services/event.py): creating
    events, the searched and paged listing with its seat figures, updating
    and deleting an event, and registering a user for an event. */
module EventServices {
  import opened Common
  import opened ServiceModels

  /* ---------------------------------------------------------------- */
  /* create_event                                                      */
  /* ---------------------------------------------------------------- */

  /** The fields of `EventCreate` (the price is not modelled). The schema
      admits no negative capacity. */
  datatype EventInput = EventInput(
    title: string,
    description: Option<string>,
    location: Option<string>,
    startDate: int,
    endDate: int,
    capacity: nat)

  /** The row `create_event` inserts: the input, the organizer, and the
      status draft whatever else was asked for. */
  function NewEvent(input: EventInput, id: int, organizer: int): (ev: Event)
    ensures ev.id == id && ev.organizerId == organizer && ev.status == Draft
    ensures ev.title == input.title && ev.capacity == input.capacity
  {
    Event(id, input.title, input.description, input.location, input.startDate, input.endDate,
          input.capacity, Draft, organizer)
  }

  /* ---------------------------------------------------------------- */
  /* list_events                                                       */
  /* ---------------------------------------------------------------- */

  /** ASCII case folding. */
  function Lower(c: char): (d: char)
    ensures 'A' <= c <= 'Z' ==> 'a' <= d <= 'z'
    ensures !('A' <= c <= 'Z') ==> d == c
  {
    if 'A' <= c <= 'Z' then (c as int + 32) as char else c
  }

  function LowerAll(s: string): (t: string)
    ensures |t| == |s|
    ensures forall i :: 0 <= i < |s| ==> t[i] == Lower(s[i])
  {
    if s == [] then [] else [Lower(s[0])] + LowerAll(s[1..])
  }

  /** Folding twice is folding once. */
  lemma LowerAllIdempotent(s: string)
    ensures LowerAll(LowerAll(s)) == LowerAll(s)
  {
    assert forall i :: 0 <= i < |s| ==> Lower(Lower(s[i])) == Lower(s[i]);
  }

  /** `needle` occurs in `hay` starting at index `i`. */
  predicate OccursAt(hay: string, needle: string, i: int)
  {
    0 <= i && i + |needle| <= |hay| && hay[i..i + |needle|] == needle
  }

  /** `needle` occurs in `hay` as a contiguous piece. */
  predicate Contains(hay: string, needle: string)
  {
    exists i :: 0 <= i <= |hay| - |needle| && OccursAt(hay, needle, i)
  }

  /** `column ILIKE '%search%'`; a NULL column matches nothing. */
  predicate ILike(column: Option<string>, search: string)
  {
    column.Some? && Contains(LowerAll(column.value), LowerAll(search))
  }

  /** The filters of `list_events`: the status when given, and the search
      over title, description or location when given. */
  predicate Listed(ev: Event, status: Option<string>, search: Option<string>)
  {
    && (TextGiven(status) ==> EventStatusName(ev.status) == status.value)
    && (TextGiven(search) ==>
          ILike(Some(ev.title), search.value) || ILike(ev.description, search.value)
          || ILike(ev.location, search.value))
  }

  /** The filtered query, in table order. */
  function FilteredEvents(events: seq<Event>, status: Option<string>, search: Option<string>): (r: seq<Event>)
    ensures |r| <= |events|
    ensures forall ev :: ev in r <==> ev in events && Listed(ev, status, search)
  {
    if events == [] then []
    else
      var last := events[|events| - 1];
      FilteredEvents(events[..|events| - 1], status, search)
        + (if Listed(last, status, search) then [last] else [])
  }

  /** The search does not see the case of its own letters. */
  lemma SearchIgnoresCase(ev: Event, status: Option<string>, search: string)
    ensures Listed(ev, status, Some(search)) == Listed(ev, status, Some(LowerAll(search)))
  {
    LowerAllIdempotent(search);
  }

  /** Searching for an event's own title, in any case, finds it. */
  lemma SearchFindsTitle(ev: Event, search: string)
    requires search != "" && LowerAll(search) == LowerAll(ev.title)
    ensures Listed(ev, None, Some(search))
  {
    var t := LowerAll(ev.title);
    assert t[0..0 + |t|] == t;
    assert OccursAt(t, LowerAll(search), 0);
  }

  /** An event as listed, with its two computed attributes. */
  datatype EventListing = EventListing(event: Event, attendeeCount: nat, availableSeats: nat)

  /** `attendee_count` and `available_seats = max(0, capacity - count)`. */
  function Listing(rows: seq<Attendee>, ev: Event): (l: EventListing)
    ensures l.event == ev && l.attendeeCount == Occupied(rows, ev.id)
    ensures l.availableSeats == 0 <==> Occupied(rows, ev.id) >= ev.capacity
    ensures l.availableSeats > 0 ==> l.availableSeats + l.attendeeCount == ev.capacity
  {
    var count := Occupied(rows, ev.id);
    EventListing(ev, count, Max0(ev.capacity - count))
  }

  /* ---------------------------------------------------------------- */
  /* update_event                                                      */
  /* ---------------------------------------------------------------- */

  /** One entry of `event_data.dict(exclude_unset=True)` (the price is not
      modelled). */
  datatype EventField =
    | Title(title: string)
    | Description(description: Option<string>)
    | Location(location: Option<string>)
    | StartDate(startDate: int)
    | EndDate(endDate: int)
    | Capacity(capacity: nat)
    | Status(status: EventStatus)

  datatype EventKey = TitleKey | DescriptionKey | LocationKey | StartDateKey | EndDateKey | CapacityKey | StatusKey

  function Key(f: EventField): EventKey
  {
    match f
    case Title(_) => TitleKey
    case Description(_) => DescriptionKey
    case Location(_) => LocationKey
    case StartDate(_) => StartDateKey
    case EndDate(_) => EndDateKey
    case Capacity(_) => CapacityKey
    case Status(_) => StatusKey
  }

  /** The current value of one field of an event. */
  function Read(ev: Event, key: EventKey): (f: EventField)
    requires ev.capacity >= 0
    ensures Key(f) == key
  {
    match key
    case TitleKey => Title(ev.title)
    case DescriptionKey => Description(ev.description)
    case LocationKey => Location(ev.location)
    case StartDateKey => StartDate(ev.startDate)
    case EndDateKey => EndDate(ev.endDate)
    case CapacityKey => Capacity(ev.capacity)
    case StatusKey => Status(ev.status)
  }

  /** `setattr(event, field, value)`. */
  function SetField(ev: Event, f: EventField): (r: Event)
    requires ev.capacity >= 0
    ensures r.id == ev.id && r.organizerId == ev.organizerId && r.capacity >= 0
    ensures Read(r, Key(f)) == f
    ensures forall key :: key != Key(f) ==> Read(r, key) == Read(ev, key)
  {
    match f
    case Title(t) => ev.(title := t)
    case Description(d) => ev.(description := d)
    case Location(l) => ev.(location := l)
    case StartDate(d) => ev.(startDate := d)
    case EndDate(d) => ev.(endDate := d)
    case Capacity(c) => ev.(capacity := c)
    case Status(s) => ev.(status := s)
  }

  /** The keys of a dict are distinct. */
  predicate DistinctKeys(data: seq<EventField>)
  {
    forall i, j :: 0 <= i < j < |data| ==> Key(data[i]) != Key(data[j])
  }

  /** The setattr loop over the supplied fields. */
  function ApplyFields(ev: Event, data: seq<EventField>): (r: Event)
    requires ev.capacity >= 0
    ensures r.id == ev.id && r.organizerId == ev.organizerId && r.capacity >= 0
    decreases |data|
  {
    if data == [] then ev else ApplyFields(SetField(ev, data[0]), data[1..])
  }

  /** The loop sets every supplied field to its value and leaves every
      other field as it was. */
  lemma {:induction false} ApplyFieldsSpec(ev: Event, data: seq<EventField>)
    requires ev.capacity >= 0
    requires DistinctKeys(data)
    ensures forall k :: 0 <= k < |data| ==> Read(ApplyFields(ev, data), Key(data[k])) == data[k]
    ensures forall key :: (forall k :: 0 <= k < |data| ==> Key(data[k]) != key) ==>
      Read(ApplyFields(ev, data), key) == Read(ev, key)
    decreases |data|
  {
    if data != [] {
      var rest := data[1..];
      ApplyFieldsSpec(SetField(ev, data[0]), rest);
      assert forall k :: 0 <= k < |rest| ==> rest[k] == data[k + 1];
      forall k | 0 <= k < |data| ensures Read(ApplyFields(ev, data), Key(data[k])) == data[k] {
        if k == 0 {
          assert forall l :: 0 <= l < |rest| ==> Key(rest[l]) != Key(data[0]);
        }
      }
    }
  }

  /** `update_event`: the events table afterwards and the updated event. */
  function UpdateEventStep(events: seq<Event>, id: int, data: seq<EventField>): (r: Result<(seq<Event>, Event)>)
    requires forall i :: 0 <= i < |events| ==> events[i].capacity >= 0
    ensures r.Ok? ==> |r.value.0| == |events|
  {
    match FindEvent(events, id)
    case None => Err(NotFound("Event not found"))
    case Some(k) =>
      var ev := ApplyFields(events[k], data);
      Ok((events[k := ev], ev))
  }

  /** An update fails exactly for a missing event; otherwise it rewrites
      that one event: supplied fields take their values, other fields, the
      id and the organizer are kept, and the capacity stays non-negative. */
  lemma UpdateEventOutcome(events: seq<Event>, id: int, data: seq<EventField>)
    requires forall i :: 0 <= i < |events| ==> events[i].capacity >= 0
    requires DistinctKeys(data)
    ensures UpdateEventStep(events, id, data).Err? <==> forall j :: 0 <= j < |events| ==> events[j].id != id
    ensures UpdateEventStep(events, id, data).Err? ==> UpdateEventStep(events, id, data).error == NotFound("Event not found")
    ensures UpdateEventStep(events, id, data).Ok? ==>
      var k := FindEvent(events, id).value;
      var ev := UpdateEventStep(events, id, data).value.1;
      && UpdateEventStep(events, id, data).value.0 == events[k := ev]
      && ev.id == id && ev.organizerId == events[k].organizerId && ev.capacity >= 0
      && (forall l :: 0 <= l < |data| ==> Read(ev, Key(data[l])) == data[l])
      && (forall key :: (forall l :: 0 <= l < |data| ==> Key(data[l]) != key) ==> Read(ev, key) == Read(events[k], key))
  {
    if FindEvent(events, id).Some? {
      ApplyFieldsSpec(events[FindEvent(events, id).value], data);
    }
  }

  /* ---------------------------------------------------------------- */
  /* delete_event                                                      */
  /* ---------------------------------------------------------------- */

  /** The attendance records that are not of event `e`, in order: the
      event's records go with it (`cascade="all, delete-orphan"`). */
  function WithoutEvent(rows: seq<Attendee>, e: int): (r: seq<Attendee>)
    ensures forall a :: a in r <==> a in rows && a.eventId != e
  {
    if rows == [] then []
    else
      var last := rows[|rows| - 1];
      WithoutEvent(rows[..|rows| - 1], e) + (if last.eventId != e then [last] else [])
  }

  /** `delete_event`: the two tables afterwards. */
  function DeleteEventStep(events: seq<Event>, rows: seq<Attendee>, id: int): (r: Result<(seq<Event>, seq<Attendee>)>)
    ensures r.Err? <==> forall i :: 0 <= i < |events| ==> events[i].id != id
    ensures r.Err? ==> r.error == NotFound("Event not found")
    ensures r.Ok? ==> |r.value.0| == |events| - 1
    ensures r.Ok? ==> forall i :: 0 <= i < |r.value.1| ==> r.value.1[i].eventId != id
  {
    match FindEvent(events, id)
    case None => Err(NotFound("Event not found"))
    case Some(k) => Ok((events[..k] + events[k + 1..], WithoutEvent(rows, id)))
  }

  /** A delete fails exactly for a missing event. Otherwise, event ids being
      distinct, the event and all its records are gone, and every other
      event and record is kept. */
  lemma DeleteEventOutcome(events: seq<Event>, rows: seq<Attendee>, id: int)
    requires forall i, j :: 0 <= i < j < |events| ==> events[i].id != events[j].id
    ensures DeleteEventStep(events, rows, id).Err? <==> forall j :: 0 <= j < |events| ==> events[j].id != id
    ensures DeleteEventStep(events, rows, id).Ok? ==>
      && (forall ev :: ev in DeleteEventStep(events, rows, id).value.0 <==> ev in events && ev.id != id)
      && (forall a :: a in DeleteEventStep(events, rows, id).value.1 <==> a in rows && a.eventId != id)
      && Occupied(DeleteEventStep(events, rows, id).value.1, id) == 0
  {
    if DeleteEventStep(events, rows, id).Ok? {
      var k := FindEvent(events, id).value;
      var r := DeleteEventStep(events, rows, id).value.0;
      assert forall j :: 0 <= j < |r| ==> r[j] == (if j < k then events[j] else events[j + 1]);
      forall ev ensures ev in r <==> ev in events && ev.id != id {
        if ev in events && ev.id != id {
          var j :| 0 <= j < |events| && events[j] == ev;
          if j < k { assert r[j] == ev; } else { assert r[j - 1] == ev; }
        }
      }
      var left := DeleteEventStep(events, rows, id).value.1;
      assert forall i :: 0 <= i < |left| ==> left[i] in left;
    }
  }

  /* ---------------------------------------------------------------- */
  /* register_attendee                                                 */
  /* ---------------------------------------------------------------- */

  /** User `u` holds a record of event `e` that is not cancelled. */
  predicate HasActive(rows: seq<Attendee>, e: int, u: int)
  {
    exists i :: 0 <= i < |rows| && Holds(rows[i], e) && rows[i].userId == u
  }

  /** At most one record that is not cancelled per (event, user). */
  predicate OneActivePerPair(rows: seq<Attendee>)
  {
    forall i, j :: 0 <= i < j < |rows| && rows[i].userId == rows[j].userId && Holds(rows[i], rows[i].eventId) ==>
      !Holds(rows[j], rows[i].eventId)
  }

  /** `str.upper` on one character of a hex string: a small letter becomes
      the capital at the same place in the alphabet, anything else is kept. */
  function Upper(c: char): (d: char)
    ensures !('a' <= d <= 'z')
    ensures 'a' <= c <= 'z' ==> 'A' <= d <= 'Z' && d as int - 'A' as int == c as int - 'a' as int
    ensures !('a' <= c <= 'z') ==> d == c
  {
    if 'a' <= c <= 'z' then (c as int - 32) as char else c
  }

  /** `f"TKT-{uuid.uuid4().hex[:8].upper()}"`, given the uuid's 32 hex
      digits. */
  function Ticket(uuidHex: string): (t: string)
    requires |uuidHex| == 32
    ensures |t| == 12 && t[..4] == "TKT-"
    ensures forall i :: 4 <= i < 12 ==> !('a' <= t[i] <= 'z')
    ensures forall i :: 4 <= i < 12 ==>
      if 'a' <= uuidHex[i - 4] <= 'z' then t[i] as int - 'A' as int == uuidHex[i - 4] as int - 'a' as int
      else t[i] == uuidHex[i - 4]
  {
    "TKT-" + seq(8, i requires 0 <= i < 8 => Upper(uuidHex[i]))
  }

  /** A uuid's hex string has small hex digits only, so the ticket's last
      eight characters are hex digits in capitals. */
  lemma TicketIsUpperHex(uuidHex: string)
    requires |uuidHex| == 32
    requires forall i :: 0 <= i < 32 ==> '0' <= uuidHex[i] <= '9' || 'a' <= uuidHex[i] <= 'f'
    ensures forall i :: 4 <= i < 12 ==> '0' <= Ticket(uuidHex)[i] <= '9' || 'A' <= Ticket(uuidHex)[i] <= 'F'
  {
  }

  /** The record `register_attendee` inserts: status registered. */
  function NewAttendee(id: int, e: int, u: int, now: int, uuidHex: string): (a: Attendee)
    requires |uuidHex| == 32
    ensures a.status == Registered && a.eventId == e && a.userId == u && a.checkInDate.None?
  {
    Attendee(id, e, u, Registered, now, None, Ticket(uuidHex))
  }

  /** `register_attendee`: the attendees table afterwards. */
  function RegisterStep(events: seq<Event>, rows: seq<Attendee>, e: int, u: int, id: int, now: int, uuidHex: string)
    : (r: Result<seq<Attendee>>)
    requires |uuidHex| == 32
    ensures r.Ok? ==> r.value == rows + [NewAttendee(id, e, u, now, uuidHex)]
  {
    match FindEvent(events, e)
    case None => Err(NotFound("Event not found"))
    case Some(k) =>
      if HasActive(rows, e, u) then Err(BadRequest("Already registered for this event"))
      else if events[k].capacity > 0 && Occupied(rows, e) >= events[k].capacity then Err(BadRequest("Event is full"))
      else Ok(rows + [NewAttendee(id, e, u, now, uuidHex)])
  }

  /** Registration fails for a missing event (404), then for a user holding
      a record of the event that is not cancelled (a cancelled one does not
      block), then for a positive capacity already reached. Otherwise one
      registered record is added and the event gains one seat holder. */
  lemma RegisterOutcome(events: seq<Event>, rows: seq<Attendee>, e: int, u: int, id: int, now: int, uuidHex: string)
    requires |uuidHex| == 32
    requires forall i :: 0 <= i < |events| ==> events[i].capacity >= 0
    ensures FindEvent(events, e).None? ==>
      RegisterStep(events, rows, e, u, id, now, uuidHex) == Err(NotFound("Event not found"))
    ensures FindEvent(events, e).Some? && HasActive(rows, e, u) ==>
      RegisterStep(events, rows, e, u, id, now, uuidHex) == Err(BadRequest("Already registered for this event"))
    ensures RegisterStep(events, rows, e, u, id, now, uuidHex) == Err(BadRequest("Event is full")) <==>
      FindEvent(events, e).Some? && !HasActive(rows, e, u) &&
      events[FindEvent(events, e).value].capacity > 0 &&
      Occupied(rows, e) >= events[FindEvent(events, e).value].capacity
    ensures RegisterStep(events, rows, e, u, id, now, uuidHex).Ok? <==>
      FindEvent(events, e).Some? && !HasActive(rows, e, u) &&
      (events[FindEvent(events, e).value].capacity == 0 ||
       Occupied(rows, e) < events[FindEvent(events, e).value].capacity)
    ensures RegisterStep(events, rows, e, u, id, now, uuidHex).Ok? ==>
      && Occupied(RegisterStep(events, rows, e, u, id, now, uuidHex).value, e) == Occupied(rows, e) + 1
      && forall e' :: e' != e ==> Occupied(RegisterStep(events, rows, e, u, id, now, uuidHex).value, e') == Occupied(rows, e')
  {
    var a := NewAttendee(id, e, u, now, uuidHex);
    OccupiedAppend(rows, a, e);
    forall e' | e' != e ensures Occupied(rows + [a], e') == Occupied(rows, e') {
      OccupiedAppend(rows, a, e');
    }
  }

  /** A registration never takes an event of positive capacity past it,
      whatever the count was before. */
  lemma RegisterWithinCapacity(events: seq<Event>, rows: seq<Attendee>, e: int, u: int, id: int, now: int, uuidHex: string)
    requires |uuidHex| == 32
    requires RegisterStep(events, rows, e, u, id, now, uuidHex).Ok?
    requires events[FindEvent(events, e).value].capacity > 0
    ensures Occupied(RegisterStep(events, rows, e, u, id, now, uuidHex).value, e) <= events[FindEvent(events, e).value].capacity
  {
    OccupiedAppend(rows, NewAttendee(id, e, u, now, uuidHex), e);
  }

  /** Registration keeps each user to one live record per event. */
  lemma RegisterKeepsOneActive(events: seq<Event>, rows: seq<Attendee>, e: int, u: int, id: int, now: int, uuidHex: string)
    requires |uuidHex| == 32
    requires OneActivePerPair(rows)
    ensures RegisterStep(events, rows, e, u, id, now, uuidHex).Ok? ==>
      OneActivePerPair(RegisterStep(events, rows, e, u, id, now, uuidHex).value)
  {
    if RegisterStep(events, rows, e, u, id, now, uuidHex).Ok? {
      var r := RegisterStep(events, rows, e, u, id, now, uuidHex).value;
      forall i, j | 0 <= i < j < |r| && r[i].userId == r[j].userId && Holds(r[i], r[i].eventId)
        ensures !Holds(r[j], r[i].eventId)
      {
        if j == |rows| {
          assert r[i] == rows[i];
        } else {
          assert r[i] == rows[i] && r[j] == rows[j];
        }
      }
    }
  }

  /* ---------------------------------------------------------------- */
  /* A finding: the listing shows no seats on an unlimited event       */
  /* ---------------------------------------------------------------- */

  /** As written, an event of capacity 0, which registration treats as
      unlimited, is listed with 0 available seats while a registration for
      it succeeds. */
  lemma UnlimitedListedFull()
    ensures
      var ev := Event(1, "t", None, None, 0, 0, 0, Published, 1);
      && Listing([], ev).availableSeats == 0
      && RegisterStep([ev], [], 1, 7, 1, 0, seq(32, i => '0')).Ok?
  {
    var ev := Event(1, "t", None, None, 0, 0, 0, Published, 1);
    assert FindEvent([ev], 1) == Some(0);
    assert !HasActive([], 1, 7);
  }

  /** The seats left as the rest of the service understands them: unlimited
      (`None`) for capacity 0, otherwise never negative. */
  function SeatsLeft(rows: seq<Attendee>, ev: Event): (s: Option<nat>)
    ensures s.None? <==> ev.capacity == 0
    ensures s.Some? ==> (s.value == 0 <==> Occupied(rows, ev.id) >= ev.capacity)
  {
    if ev.capacity == 0 then None else Some(Max0(ev.capacity - Occupied(rows, ev.id)))
  }

  /** With seats left counted so, a user without a live record can
      register exactly when the listing shows room. */
  lemma SeatsLeftAgreesWithRegister(events: seq<Event>, rows: seq<Attendee>, k: nat, u: int, id: int, now: int, uuidHex: string)
    requires |uuidHex| == 32
    requires forall i :: 0 <= i < |events| ==> events[i].capacity >= 0
    requires k < |events| && FindEvent(events, events[k].id) == Some(k)
    requires !HasActive(rows, events[k].id, u)
    ensures RegisterStep(events, rows, events[k].id, u, id, now, uuidHex).Ok? <==>
      (SeatsLeft(rows, events[k]).None? || SeatsLeft(rows, events[k]).value > 0)
  {
    RegisterOutcome(events, rows, events[k].id, u, id, now, uuidHex);
  }

  /* ---------------------------------------------------------------- */
  /* The service against the session                                   */
  /* ---------------------------------------------------------------- */

  class EventService {
    const db: Session

    constructor (db: Session)
      ensures this.db == db
    {
      this.db := db;
    }

    /** `create_event` for organizer `organizer`. */
    method CreateEvent(input: EventInput, organizer: int) returns (ev: Event)
      requires db.Valid()
      modifies db
      ensures db.Valid()
      ensures ev == NewEvent(input, old(db.nextEventId), organizer)
      ensures db.events == old(db.events) + [ev] && db.nextEventId == old(db.nextEventId) + 1
      ensures db.attendees == old(db.attendees) && db.nextAttendeeId == old(db.nextAttendeeId)
    {
      ev := NewEvent(input, db.nextEventId, organizer);
      db.events := db.events + [ev];
      db.nextEventId := db.nextEventId + 1;
    }

    /** `get_event`. */
    function GetEvent(id: int): (r: Option<Event>)
      reads db
      ensures r.Some? ==> r.value in db.events && r.value.id == id
      ensures r.None? ==> forall j :: 0 <= j < |db.events| ==> db.events[j].id != id
    {
      match FindEvent(db.events, id)
      case None => None
      case Some(k) => Some(db.events[k])
    }

    /** `list_events`: the filtered count, then the page, then the loop
        that sets each listed event's seat figures. */
    method ListEvents(skip: nat, limit: nat, status: Option<string>, search: Option<string>)
      returns (listings: seq<EventListing>, total: nat)
      ensures total == |FilteredEvents(db.events, status, search)|
      ensures |listings| == |Page(FilteredEvents(db.events, status, search), skip, limit)|
      ensures |listings| <= limit && |listings| <= total
      ensures forall k :: 0 <= k < |listings| ==>
        && listings[k] == Listing(db.attendees, FilteredEvents(db.events, status, search)[skip + k])
        && listings[k].event in db.events && Listed(listings[k].event, status, search)
    {
      var all := FilteredEvents(db.events, status, search);
      total := |all|;
      var events := Page(all, skip, limit);
      listings := [];
      for i := 0 to |events|
        invariant |listings| == i
        invariant forall k :: 0 <= k < i ==> listings[k] == Listing(db.attendees, events[k])
      {
        var event := events[i];
        var attendeeCount := Occupied(db.attendees, event.id);
        listings := listings + [EventListing(event, attendeeCount, Max0(event.capacity - attendeeCount))];
      }
      forall k | 0 <= k < |listings|
        ensures listings[k].event in db.events && Listed(listings[k].event, status, search)
      {
        assert events[k] in all;
      }
    }

    /** `update_event`. */
    method UpdateEvent(id: int, data: seq<EventField>) returns (res: Result<Event>)
      requires db.Valid()
      modifies db
      ensures db.Valid()
      ensures db.attendees == old(db.attendees)
      ensures db.nextEventId == old(db.nextEventId) && db.nextAttendeeId == old(db.nextAttendeeId)
      ensures UpdateEventStep(old(db.events), id, data).Ok? ==>
        db.events == UpdateEventStep(old(db.events), id, data).value.0
        && res == Ok(UpdateEventStep(old(db.events), id, data).value.1)
      ensures UpdateEventStep(old(db.events), id, data).Err? ==>
        db.events == old(db.events) && res == Err(UpdateEventStep(old(db.events), id, data).error)
    {
      var found := FindEvent(db.events, id);
      if found.None? {
        return Err(NotFound("Event not found"));
      }
      var k := found.value;
      var event := db.events[k];
      var i := 0;
      while i < |data|
        invariant 0 <= i <= |data|
        invariant event.capacity >= 0
        invariant ApplyFields(event, data[i..]) == ApplyFields(db.events[k], data)
        invariant event.id == db.events[k].id
      {
        assert data[i..][1..] == data[i + 1..];
        event := SetField(event, data[i]);
        i := i + 1;
      }
      db.events := db.events[k := event];
      res := Ok(event);
    }

    /** `delete_event`. */
    method DeleteEvent(id: int) returns (res: Result<()>)
      requires db.Valid()
      modifies db
      ensures db.Valid()
      ensures db.nextEventId == old(db.nextEventId) && db.nextAttendeeId == old(db.nextAttendeeId)
      ensures DeleteEventStep(old(db.events), old(db.attendees), id).Ok? ==>
        && db.events == DeleteEventStep(old(db.events), old(db.attendees), id).value.0
        && db.attendees == DeleteEventStep(old(db.events), old(db.attendees), id).value.1
        && res == Ok(())
      ensures DeleteEventStep(old(db.events), old(db.attendees), id).Err? ==>
        && db.events == old(db.events) && db.attendees == old(db.attendees)
        && res == Err(DeleteEventStep(old(db.events), old(db.attendees), id).error)
    {
      var found := FindEvent(db.events, id);
      if found.None? {
        return Err(NotFound("Event not found"));
      }
      var k := found.value;
      ghost var before := db.events;
      db.events := db.events[..k] + db.events[k + 1..];
      assert forall j :: 0 <= j < |db.events| ==> db.events[j] == (if j < k then before[j] else before[j + 1]);
      ghost var rowsBefore := db.attendees;
      db.attendees := WithoutEvent(db.attendees, id);
      assert forall j :: 0 <= j < |db.attendees| ==> db.attendees[j] in rowsBefore;
      res := Ok(());
    }

    /** `register_attendee` at clock reading `now`, with the uuid that
        names the ticket. */
    method RegisterAttendee(eventId: int, userId: int, now: int, uuidHex: string) returns (res: Result<Attendee>)
      requires db.Valid()
      requires |uuidHex| == 32
      modifies db
      ensures db.Valid()
      ensures db.events == old(db.events) && db.nextEventId == old(db.nextEventId)
      ensures RegisterStep(old(db.events), old(db.attendees), eventId, userId, old(db.nextAttendeeId), now, uuidHex).Ok? ==>
        && db.attendees == RegisterStep(old(db.events), old(db.attendees), eventId, userId, old(db.nextAttendeeId), now, uuidHex).value
        && db.nextAttendeeId == old(db.nextAttendeeId) + 1
        && res == Ok(NewAttendee(old(db.nextAttendeeId), eventId, userId, now, uuidHex))
      ensures RegisterStep(old(db.events), old(db.attendees), eventId, userId, old(db.nextAttendeeId), now, uuidHex).Err? ==>
        && db.attendees == old(db.attendees) && db.nextAttendeeId == old(db.nextAttendeeId)
        && res == Err(RegisterStep(old(db.events), old(db.attendees), eventId, userId, old(db.nextAttendeeId), now, uuidHex).error)
    {
      var found := FindEvent(db.events, eventId);
      if found.None? {
        return Err(NotFound("Event not found"));
      }
      var event := db.events[found.value];
      if HasActive(db.attendees, eventId, userId) {
        return Err(BadRequest("Already registered for this event"));
      }
      var currentAttendees := Occupied(db.attendees, eventId);
      if event.capacity > 0 && currentAttendees >= event.capacity {
        return Err(BadRequest("Event is full"));
      }
      var attendee := NewAttendee(db.nextAttendeeId, eventId, userId, now, uuidHex);
      db.attendees := db.attendees + [attendee];
      db.nextAttendeeId := db.nextAttendeeId + 1;
      res := Ok(attendee);
    }
  }
}
