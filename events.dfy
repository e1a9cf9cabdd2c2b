/** Draft A's events router (backend/src/routers/events.py): creating,
    listing, reading, updating and deleting events, and the seat projection
    (`current_attendees`, `available_spots`) every read returns.

    Every route that takes a `Caller` here is guarded in the source by a
    role dependency admitting admins and organizers only; that guard is a
    precondition of the model. */
module Events {
  import opened Common
  import opened Store

  /* ---------------------------------------------------------------- */
  /* The seat projection                                               */
  /* ---------------------------------------------------------------- */

  /** An event as the routes return it, with its two computed fields. */
  datatype EventView = EventView(event: Event, currentAttendees: int, availableSpots: int)

  /** `current_attendees` and `available_spots = max(0, capacity - count)`. */
  function View(rows: seq<Attendance>, ev: Event): (v: EventView)
    ensures v.event == ev
    ensures v.currentAttendees == Confirmed(rows, ev.id)
    ensures v.availableSpots >= 0
    ensures v.availableSpots == 0 <==> Confirmed(rows, ev.id) >= ev.capacity
    ensures v.availableSpots > 0 ==> v.availableSpots + v.currentAttendees == ev.capacity
  {
    var count := Confirmed(rows, ev.id);
    EventView(ev, count, Max0(ev.capacity - count))
  }

  /** Only seat-holding rows count: adding a waitlisted or cancelled row, or
      a row of another event, leaves the projection as it was. */
  lemma ViewIgnoresNonSeats(rows: seq<Attendance>, ev: Event, r: Attendance)
    requires r.eventId != ev.id || r.status !in CONFIRMED
    ensures View(rows + [r], ev) == View(rows, ev)
  {
    TallyAppend(rows, r, ev.id, CONFIRMED);
  }

  /* ---------------------------------------------------------------- */
  /* create_event                                                      */
  /* ---------------------------------------------------------------- */

  /** The fields of `EventCreate`. */
  datatype EventInput = EventInput(
    title: string,
    description: Option<string>,
    date: int,
    location: string,
    capacity: int,
    category: string)

  /** The row `create_event` inserts: the input, the next id, the caller as
      organizer. */
  function NewEvent(input: EventInput, id: int, organizer: int): (ev: Event)
    ensures ev.id == id && ev.organizerId == organizer && ev.updatedAt.None?
    ensures ev.capacity == input.capacity && ev.title == input.title && ev.category == input.category
  {
    Event(id, input.title, input.description, input.date, input.location, input.capacity,
          input.category, organizer, None)
  }

  /** The response of `create_event` (0 attendees, all of the capacity
      free) is what the projection gives for the new event, whose id no row
      refers to yet, when the capacity is not negative. */
  lemma CreatedViewIsProjection(rows: seq<Attendance>, input: EventInput, id: int, organizer: int)
    requires forall i :: 0 <= i < |rows| ==> rows[i].eventId != id
    requires input.capacity >= 0
    ensures View(rows, NewEvent(input, id, organizer))
      == EventView(NewEvent(input, id, organizer), 0, input.capacity)
  {
  }

  /** `create_event` against the store. */
  method CreateEvent(db: Db, input: EventInput, caller: Caller) returns (v: EventView)
    requires db.Valid()
    requires caller.role in {Admin, Organizer}
    modifies db
    ensures db.Valid()
    ensures db.events == old(db.events) + [NewEvent(input, old(db.nextEventId), caller.id)]
    ensures db.nextEventId == old(db.nextEventId) + 1
    ensures db.attendees == old(db.attendees) && db.users == old(db.users)
    ensures db.nextAttendeeId == old(db.nextAttendeeId) && db.nextUserId == old(db.nextUserId)
    ensures v == EventView(NewEvent(input, old(db.nextEventId), caller.id), 0, input.capacity)
  {
    var ev := NewEvent(input, db.nextEventId, caller.id);
    db.events := db.events + [ev];
    db.nextEventId := db.nextEventId + 1;
    v := EventView(ev, 0, ev.capacity);
  }

  /* ---------------------------------------------------------------- */
  /* get_events, get_event                                             */
  /* ---------------------------------------------------------------- */

  /** The filters of `get_events`: the category when one is given, and the
      date when only upcoming events are asked for. */
  predicate Matches(ev: Event, category: Option<string>, upcomingOnly: bool, now: int)
  {
    (category.None? || ev.category == category.value) && (!upcomingOnly || ev.date >= now)
  }

  /** The filtered events, in table order. */
  function Listed(events: seq<Event>, category: Option<string>, upcomingOnly: bool, now: int): (r: seq<Event>)
    ensures |r| <= |events|
    ensures forall ev :: ev in r <==> ev in events && Matches(ev, category, upcomingOnly, now)
  {
    if events == [] then []
    else
      var last := events[|events| - 1];
      Listed(events[..|events| - 1], category, upcomingOnly, now)
        + (if Matches(last, category, upcomingOnly, now) then [last] else [])
  }

  /** With no filter at all, the listing is the whole table. */
  lemma {:induction false} ListedUnfiltered(events: seq<Event>, now: int)
    ensures Listed(events, None, false, now) == events
  {
    if events != [] {
      ListedUnfiltered(events[..|events| - 1], now);
      assert events[..|events| - 1] + [events[|events| - 1]] == events;
    }
  }

  /** `get_events`: filter, `OFFSET skip LIMIT limit`, then the loop that
      projects each event. */
  method GetEvents(db: Db, skip: nat, limit: nat, category: Option<string>, upcomingOnly: bool, now: int)
    returns (views: seq<EventView>)
    requires 1 <= limit <= 100
    ensures |views| <= limit
    ensures |views| == |Page(Listed(db.events, category, upcomingOnly, now), skip, limit)|
    ensures forall k :: 0 <= k < |views| ==>
      && views[k] == View(db.attendees, Page(Listed(db.events, category, upcomingOnly, now), skip, limit)[k])
      && Matches(views[k].event, category, upcomingOnly, now)
      && views[k].event in db.events
  {
    var events := Page(Listed(db.events, category, upcomingOnly, now), skip, limit);
    views := [];
    for i := 0 to |events|
      invariant |views| == i
      invariant forall k :: 0 <= k < i ==> views[k] == View(db.attendees, events[k])
    {
      var event := events[i];
      var attendeeCount := Confirmed(db.attendees, event.id);
      views := views + [EventView(event, attendeeCount, Max0(event.capacity - attendeeCount))];
    }
    forall k | 0 <= k < |views|
      ensures Matches(views[k].event, category, upcomingOnly, now) && views[k].event in db.events
    {
      assert events[k] in Listed(db.events, category, upcomingOnly, now);
    }
  }

  /** `get_event`: 404 for a missing event, otherwise its projection. */
  function GetEvent(events: seq<Event>, rows: seq<Attendance>, id: int): (r: Result<EventView>)
    ensures r.Ok? <==> exists k :: 0 <= k < |events| && events[k].id == id
    ensures r.Err? ==> r.error == NotFound("Event not found")
    ensures r.Ok? ==> r.value.event.id == id && r.value.event in events
    ensures r.Ok? ==> r.value == View(rows, r.value.event)
    ensures r.Ok? ==> r.value.currentAttendees == Confirmed(rows, id)
  {
    match FindEvent(events, id)
    case None => Err(NotFound("Event not found"))
    case Some(k) => Ok(View(rows, events[k]))
  }

  /* ---------------------------------------------------------------- */
  /* update_event                                                      */
  /* ---------------------------------------------------------------- */

  /** One entry of `event_update.dict(exclude_unset=True)`. */
  datatype EventField =
    | Title(title: string)
    | Description(description: Option<string>)
    | Date(date: int)
    | Location(location: string)
    | Capacity(capacity: int)
    | Category(category: string)

  datatype EventKey = TitleKey | DescriptionKey | DateKey | LocationKey | CapacityKey | CategoryKey

  function Key(f: EventField): EventKey
  {
    match f
    case Title(_) => TitleKey
    case Description(_) => DescriptionKey
    case Date(_) => DateKey
    case Location(_) => LocationKey
    case Capacity(_) => CapacityKey
    case Category(_) => CategoryKey
  }

  /** The current value of one field of an event. */
  function Read(ev: Event, key: EventKey): (f: EventField)
    ensures Key(f) == key
  {
    match key
    case TitleKey => Title(ev.title)
    case DescriptionKey => Description(ev.description)
    case DateKey => Date(ev.date)
    case LocationKey => Location(ev.location)
    case CapacityKey => Capacity(ev.capacity)
    case CategoryKey => Category(ev.category)
  }

  /** `setattr(event, field, value)`. */
  function SetField(ev: Event, f: EventField): (r: Event)
    ensures r.id == ev.id && r.organizerId == ev.organizerId && r.updatedAt == ev.updatedAt
    ensures Read(r, Key(f)) == f
    ensures forall key :: key != Key(f) ==> Read(r, key) == Read(ev, key)
  {
    match f
    case Title(t) => ev.(title := t)
    case Description(d) => ev.(description := d)
    case Date(d) => ev.(date := d)
    case Location(l) => ev.(location := l)
    case Capacity(c) => ev.(capacity := c)
    case Category(c) => ev.(category := c)
  }

  /** The keys of a dict are distinct. */
  predicate DistinctKeys(data: seq<EventField>)
  {
    forall i, j :: 0 <= i < j < |data| ==> Key(data[i]) != Key(data[j])
  }

  /** The setattr loop over the supplied fields. */
  function ApplyFields(ev: Event, data: seq<EventField>): (r: Event)
    ensures r.id == ev.id && r.organizerId == ev.organizerId && r.updatedAt == ev.updatedAt
    decreases |data|
  {
    if data == [] then ev else ApplyFields(SetField(ev, data[0]), data[1..])
  }

  /** The loop sets every supplied field to its value and leaves every
      other field, and the id and organizer, as they were. */
  lemma {:induction false} ApplyFieldsSpec(ev: Event, data: seq<EventField>)
    requires DistinctKeys(data)
    ensures ApplyFields(ev, data).id == ev.id && ApplyFields(ev, data).organizerId == ev.organizerId
    ensures ApplyFields(ev, data).updatedAt == ev.updatedAt
    ensures forall k :: 0 <= k < |data| ==> Read(ApplyFields(ev, data), Key(data[k])) == data[k]
    ensures forall key :: (forall k :: 0 <= k < |data| ==> Key(data[k]) != key) ==>
      Read(ApplyFields(ev, data), key) == Read(ev, key)
    decreases |data|
  {
    if data != [] {
      var rest := data[1..];
      var ev1 := SetField(ev, data[0]);
      ApplyFieldsSpec(ev1, rest);
      assert forall k :: 0 <= k < |rest| ==> rest[k] == data[k + 1];
      forall k | 0 <= k < |data| ensures Read(ApplyFields(ev, data), Key(data[k])) == data[k] {
        if k == 0 {
          assert forall l :: 0 <= l < |rest| ==> Key(rest[l]) != Key(data[0]);
        }
      }
    }
  }

  /** `update_event`: the events table afterwards and the response. */
  function UpdateEventStep(events: seq<Event>, rows: seq<Attendance>, id: int, data: seq<EventField>, caller: Caller, now: int)
    : (r: Result<(seq<Event>, EventView)>)
    requires caller.role in {Admin, Organizer}
    ensures r.Ok? ==> |r.value.0| == |events|
  {
    match FindEvent(events, id)
    case None => Err(NotFound("Event not found"))
    case Some(k) =>
      if caller.role == Organizer && events[k].organizerId != caller.id then
        Err(Forbidden("Not authorized to update this event"))
      else
        var ev := ApplyFields(events[k], data).(updatedAt := Some(now));
        Ok((events[k := ev], View(rows, ev)))
  }

  /** An update fails with 404 for a missing event and 403 for an organizer
      who does not own it. Otherwise it rewrites that one event: supplied
      fields take their values, other fields, the id and the organizer are
      kept, the update time is set; every other event is unchanged and the
      response is the projection of the updated event. */
  lemma UpdateEventOutcome(events: seq<Event>, rows: seq<Attendance>, id: int, data: seq<EventField>, caller: Caller, now: int)
    requires caller.role in {Admin, Organizer}
    requires DistinctKeys(data)
    ensures FindEvent(events, id).None? ==>
      UpdateEventStep(events, rows, id, data, caller, now) == Err(NotFound("Event not found"))
    ensures UpdateEventStep(events, rows, id, data, caller, now).Ok? <==>
      FindEvent(events, id).Some? &&
      !(caller.role == Organizer && events[FindEvent(events, id).value].organizerId != caller.id)
    ensures UpdateEventStep(events, rows, id, data, caller, now).Ok? ==>
      var k := FindEvent(events, id).value;
      var after := UpdateEventStep(events, rows, id, data, caller, now).value.0;
      && (forall j :: 0 <= j < |events| && j != k ==> after[j] == events[j])
      && after[k].id == id && after[k].organizerId == events[k].organizerId
      && after[k].updatedAt == Some(now)
      && (forall l :: 0 <= l < |data| ==> Read(after[k], Key(data[l])) == data[l])
      && (forall key :: (forall l :: 0 <= l < |data| ==> Key(data[l]) != key) ==>
            Read(after[k], key) == Read(events[k], key))
      && UpdateEventStep(events, rows, id, data, caller, now).value.1 == View(rows, after[k])
  {
    if FindEvent(events, id).Some? {
      var k := FindEvent(events, id).value;
      ApplyFieldsSpec(events[k], data);
      var ev := ApplyFields(events[k], data);
      forall key ensures Read(ev.(updatedAt := Some(now)), key) == Read(ev, key) {
      }
    }
  }

  /** `update_event` against the store. */
  method UpdateEvent(db: Db, eventId: int, data: seq<EventField>, caller: Caller, now: int) returns (res: Result<EventView>)
    requires db.Valid()
    requires caller.role in {Admin, Organizer}
    modifies db
    ensures db.Valid()
    ensures db.attendees == old(db.attendees) && db.users == old(db.users)
    ensures db.nextAttendeeId == old(db.nextAttendeeId) && db.nextEventId == old(db.nextEventId)
    ensures db.nextUserId == old(db.nextUserId)
    ensures UpdateEventStep(old(db.events), old(db.attendees), eventId, data, caller, now).Ok? ==>
      && db.events == UpdateEventStep(old(db.events), old(db.attendees), eventId, data, caller, now).value.0
      && res == Ok(UpdateEventStep(old(db.events), old(db.attendees), eventId, data, caller, now).value.1)
    ensures UpdateEventStep(old(db.events), old(db.attendees), eventId, data, caller, now).Err? ==>
      && db.events == old(db.events)
      && res == Err(UpdateEventStep(old(db.events), old(db.attendees), eventId, data, caller, now).error)
  {
    var found := FindEvent(db.events, eventId);
    if found.None? {
      return Err(NotFound("Event not found"));
    }
    var k := found.value;
    var event := db.events[k];
    if caller.role == Organizer && event.organizerId != caller.id {
      return Err(Forbidden("Not authorized to update this event"));
    }
    var i := 0;
    while i < |data|
      invariant 0 <= i <= |data|
      invariant ApplyFields(event, data[i..]) == ApplyFields(db.events[k], data)
      invariant event.id == db.events[k].id
    {
      assert data[i..][1..] == data[i + 1..];
      event := SetField(event, data[i]);
      i := i + 1;
    }
    event := event.(updatedAt := Some(now));
    db.events := db.events[k := event];
    var attendeeCount := Confirmed(db.attendees, event.id);
    res := Ok(EventView(event, attendeeCount, Max0(event.capacity - attendeeCount)));
  }

  /* ---------------------------------------------------------------- */
  /* delete_event                                                      */
  /* ---------------------------------------------------------------- */

  /** `delete_event`: the events table afterwards. */
  function DeleteEventStep(events: seq<Event>, id: int, caller: Caller): (r: Result<seq<Event>>)
    requires caller.role in {Admin, Organizer}
    ensures r.Ok? ==> |r.value| == |events| - 1
  {
    match FindEvent(events, id)
    case None => Err(NotFound("Event not found"))
    case Some(k) =>
      if caller.role == Organizer && events[k].organizerId != caller.id then
        Err(Forbidden("Not authorized to delete this event"))
      else
        Ok(events[..k] + events[k + 1..])
  }

  /** A delete fails with 404 for a missing event and 403 for an organizer
      who does not own it. Otherwise, event ids being distinct, the event is
      gone and every other event is kept, in order. */
  lemma DeleteEventOutcome(events: seq<Event>, id: int, caller: Caller)
    requires caller.role in {Admin, Organizer}
    requires forall i, j :: 0 <= i < j < |events| ==> events[i].id != events[j].id
    ensures FindEvent(events, id).None? ==> DeleteEventStep(events, id, caller) == Err(NotFound("Event not found"))
    ensures DeleteEventStep(events, id, caller).Ok? <==>
      FindEvent(events, id).Some? &&
      !(caller.role == Organizer && events[FindEvent(events, id).value].organizerId != caller.id)
    ensures DeleteEventStep(events, id, caller).Ok? ==>
      && FindEvent(DeleteEventStep(events, id, caller).value, id).None?
      && (forall ev :: ev in DeleteEventStep(events, id, caller).value <==> ev in events && ev.id != id)
  {
    if DeleteEventStep(events, id, caller).Ok? {
      var k := FindEvent(events, id).value;
      RemoveAtMembers(events, k, events[..k] + events[k + 1..]);
    }
  }

  /** Removing the event at `k` keeps exactly the events with another id. */
  lemma RemoveAtMembers(events: seq<Event>, k: nat, r: seq<Event>)
    requires k < |events| && r == events[..k] + events[k + 1..]
    requires forall i, j :: 0 <= i < j < |events| ==> events[i].id != events[j].id
    ensures forall j :: 0 <= j < |r| ==> r[j].id != events[k].id
    ensures forall ev :: ev in r <==> ev in events && ev.id != events[k].id
  {
    assert forall j :: 0 <= j < |r| ==> r[j] == (if j < k then events[j] else events[j + 1]);
    forall ev ensures ev in r <==> ev in events && ev.id != events[k].id {
      if ev in events && ev.id != events[k].id {
        var j :| 0 <= j < |events| && events[j] == ev;
        if j < k { assert r[j] == ev; } else { assert r[j - 1] == ev; }
      }
    }
  }

  /** `delete_event` against the store. The attendance rows of the deleted
      event are left in place. */
  method DeleteEvent(db: Db, eventId: int, caller: Caller) returns (res: Result<()>)
    requires db.Valid()
    requires caller.role in {Admin, Organizer}
    modifies db
    ensures db.Valid()
    ensures db.attendees == old(db.attendees) && db.users == old(db.users)
    ensures db.nextAttendeeId == old(db.nextAttendeeId) && db.nextEventId == old(db.nextEventId)
    ensures db.nextUserId == old(db.nextUserId)
    ensures DeleteEventStep(old(db.events), eventId, caller).Ok? ==>
      db.events == DeleteEventStep(old(db.events), eventId, caller).value && res == Ok(())
    ensures DeleteEventStep(old(db.events), eventId, caller).Err? ==>
      db.events == old(db.events) && res == Err(DeleteEventStep(old(db.events), eventId, caller).error)
  {
    var found := FindEvent(db.events, eventId);
    if found.None? {
      return Err(NotFound("Event not found"));
    }
    var k := found.value;
    if caller.role == Organizer && db.events[k].organizerId != caller.id {
      return Err(Forbidden("Not authorized to delete this event"));
    }
    ghost var before := db.events;
    db.events := db.events[..k] + db.events[k + 1..];
    assert forall j :: 0 <= j < |db.events| ==> db.events[j] == (if j < k then before[j] else before[j + 1]);
    res := Ok(());
  }
}
