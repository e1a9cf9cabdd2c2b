/** Draft A's analytics router (backend/src/routers/analytics.py): the
    integer parts of the statistics over all events and of the statistics
    of one event. The attendance and check-in rates are floating point and
    are not part of this model. */
module Analytics {
  import opened Common
  import opened Store

  /* ---------------------------------------------------------------- */
  /* get_event_statistics                                              */
  /* ---------------------------------------------------------------- */

  /** `total_attendees`: rows holding a seat, over all events. */
  function ConfirmedAll(rows: seq<Attendance>): (n: nat)
    ensures n <= |rows|
    ensures n == 0 <==> forall i :: 0 <= i < |rows| ==> rows[i].status !in CONFIRMED
  {
    if rows == [] then 0
    else
      var init := rows[..|rows| - 1];
      assert forall i :: 0 <= i < |init| ==> init[i] == rows[i];
      ConfirmedAll(init) + (if rows[|rows| - 1].status in CONFIRMED then 1 else 0)
  }

  /** An event whose seat count has reached its capacity. */
  predicate Full(rows: seq<Attendance>, ev: Event)
  {
    Confirmed(rows, ev.id) >= ev.capacity
  }

  /** `events_at_capacity`: the events that are full. */
  function AtCapacity(events: seq<Event>, rows: seq<Attendance>): (n: nat)
    ensures n <= |events|
  {
    if events == [] then 0
    else AtCapacity(events[..|events| - 1], rows) + (if Full(rows, events[|events| - 1]) then 1 else 0)
  }

  /** Every event counts as at capacity exactly when every event is full;
      none counts exactly when none is. */
  lemma {:induction false} AtCapacityExtremes(events: seq<Event>, rows: seq<Attendance>)
    ensures AtCapacity(events, rows) == |events| <==> forall i :: 0 <= i < |events| ==> Full(rows, events[i])
    ensures AtCapacity(events, rows) == 0 <==> forall i :: 0 <= i < |events| ==> !Full(rows, events[i])
  {
    if events != [] {
      var init := events[..|events| - 1];
      AtCapacityExtremes(init, rows);
      assert forall i :: 0 <= i < |init| ==> init[i] == events[i];
    }
  }

  /** An event of capacity 0 (or less) is always at capacity. */
  lemma NoCapacityIsFull(rows: seq<Attendance>, ev: Event)
    requires ev.capacity <= 0
    ensures Full(rows, ev)
  {
  }

  /** Events on or after `now`. */
  function Upcoming(events: seq<Event>, now: int): (n: nat)
    ensures n <= |events|
  {
    if events == [] then 0
    else Upcoming(events[..|events| - 1], now) + (if events[|events| - 1].date >= now then 1 else 0)
  }

  /** Events strictly before `now`. */
  function Before(events: seq<Event>, now: int): nat
  {
    if events == [] then 0
    else Before(events[..|events| - 1], now) + (if events[|events| - 1].date < now then 1 else 0)
  }

  /** `past_events = total_events - upcoming_events` is the number of events
      dated before `now`, so it is never negative. */
  lemma {:induction false} PastIsBefore(events: seq<Event>, now: int)
    ensures |events| - Upcoming(events, now) == Before(events, now)
  {
    if events != [] {
      PastIsBefore(events[..|events| - 1], now);
    }
  }

  /** Number of events of category `c`. */
  function CountCategory(events: seq<Event>, c: string): (n: nat)
    ensures n <= |events|
    ensures n > 0 <==> exists i :: 0 <= i < |events| && events[i].category == c
  {
    if events == [] then 0
    else
      var init := events[..|events| - 1];
      assert forall i :: 0 <= i < |init| ==> init[i] == events[i];
      CountCategory(init, c) + (if events[|events| - 1].category == c then 1 else 0)
  }

  /** The categories of the events, each once, in order of first
      appearance. */
  function Categories(events: seq<Event>): (cs: seq<string>)
    ensures forall c :: c in cs <==> exists i :: 0 <= i < |events| && events[i].category == c
    ensures forall k, l :: 0 <= k < l < |cs| ==> cs[k] != cs[l]
  {
    if events == [] then []
    else
      var init := events[..|events| - 1];
      var c := events[|events| - 1].category;
      var prev := Categories(init);
      assert forall i :: 0 <= i < |init| ==> init[i] == events[i];
      if c in prev then prev else prev + [c]
  }

  /** `events_by_category`: each category with its number of events. */
  function CategoryTable(events: seq<Event>): (t: seq<(string, nat)>)
    ensures |t| == |Categories(events)|
    ensures forall k :: 0 <= k < |t| ==>
      t[k] == (Categories(events)[k], CountCategory(events, Categories(events)[k]))
  {
    var cs := Categories(events);
    seq(|cs|, k requires 0 <= k < |cs| => (cs[k], CountCategory(events, cs[k])))
  }

  /** Python's `max(items, key=count)` over `t[..n]`: the first item of
      largest count. */
  function MaxIndex(t: seq<(string, nat)>, n: nat): (m: nat)
    requires 0 < n <= |t|
    ensures m < n
    ensures forall k :: 0 <= k < n ==> t[k].1 <= t[m].1
    ensures forall k :: 0 <= k < m ==> t[k].1 < t[m].1
  {
    if n == 1 then 0
    else
      var best := MaxIndex(t, n - 1);
      if t[n - 1].1 > t[best].1 then n - 1 else best
  }

  /** `most_popular_category`: the category of most events, the first one
      among equals, or "None" when there are no events. */
  function MostPopular(events: seq<Event>): (r: string)
    ensures events == [] ==> r == "None"
    ensures r == "None" || exists i :: 0 <= i < |events| && events[i].category == r
  {
    var t := CategoryTable(events);
    if t == [] then "None" else t[MaxIndex(t, |t|)].0
  }

  /** The most popular category is "None" exactly when there are no events
      (or it is a category named so); otherwise it is the category of some
      event, and no category has more events. */
  lemma MostPopularIsMaximal(events: seq<Event>)
    ensures events == [] ==> MostPopular(events) == "None"
    ensures events != [] ==>
      && (exists i :: 0 <= i < |events| && events[i].category == MostPopular(events))
      && forall i :: 0 <= i < |events| ==>
           CountCategory(events, events[i].category) <= CountCategory(events, MostPopular(events))
  {
    var t := CategoryTable(events);
    var cs := Categories(events);
    if events != [] {
      assert events[0].category in cs;
      var m := MaxIndex(t, |t|);
      assert MostPopular(events) == cs[m];
      assert cs[m] in cs;
      forall i | 0 <= i < |events|
        ensures CountCategory(events, events[i].category) <= CountCategory(events, cs[m])
      {
        assert events[i].category in cs;
        var k :| 0 <= k < |cs| && cs[k] == events[i].category;
        assert t[k].1 <= t[m].1;
      }
    }
  }

  /** The integer fields of `EventStatistics`. */
  datatype EventStatistics = EventStatistics(
    totalEvents: nat,
    totalAttendees: nat,
    eventsByCategory: seq<(string, nat)>,
    upcomingEvents: nat,
    pastEvents: int,
    mostPopularCategory: string,
    eventsAtCapacity: nat)

  /** `get_event_statistics` at clock reading `now`. */
  function Statistics(events: seq<Event>, rows: seq<Attendance>, now: int): (s: EventStatistics)
    ensures s.pastEvents >= 0
    ensures s.eventsAtCapacity <= s.totalEvents
    ensures s.upcomingEvents + s.pastEvents == s.totalEvents
  {
    PastIsBefore(events, now);
    EventStatistics(
      |events|,
      ConfirmedAll(rows),
      CategoryTable(events),
      Upcoming(events, now),
      |events| - Upcoming(events, now),
      MostPopular(events),
      AtCapacity(events, rows))
  }

  /* ---------------------------------------------------------------- */
  /* get_event_specific_statistics                                     */
  /* ---------------------------------------------------------------- */

  const ALL_STATUSES: set<Status> := {Registered, CheckedIn, Waitlisted, Cancelled}

  /** The integer fields of the per-event statistics. */
  datatype EventStats = EventStats(
    eventId: int,
    title: string,
    capacity: int,
    breakdown: map<Status, nat>,
    totalConfirmed: nat,
    availableSpots: nat,
    isFull: bool)

  lemma StatusListed(s: Status)
    ensures s in ALL_STATUSES
  {
  }

  /** `status_dict`: the count of each status present among the event's rows. */
  function Breakdown(rows: seq<Attendance>, e: int): (m: map<Status, nat>)
    ensures forall s :: s in m <==> Tally(rows, e, {s}) > 0
    ensures forall s :: s in m ==> m[s] == Tally(rows, e, {s})
  {
    assert forall s: Status :: s in ALL_STATUSES by {
      forall s: Status ensures s in ALL_STATUSES {
        StatusListed(s);
      }
    }
    map s | s in ALL_STATUSES && Tally(rows, e, {s}) > 0 :: Tally(rows, e, {s})
  }

  /** `status_dict.get(s, 0)`. */
  function Get(m: map<Status, nat>, s: Status): nat
  {
    if s in m then m[s] else 0
  }

  /** `get_event_specific_statistics`: 404 for a missing event, 403 for an
      organizer who does not own it. */
  function EventSpecificStats(events: seq<Event>, rows: seq<Attendance>, caller: Caller, e: int): (r: Result<EventStats>)
    requires caller.role in {Admin, Organizer}
    ensures r.Err? ==>
      r.error == NotFound("Event not found") || r.error == Forbidden("Not authorized to view statistics for this event")
    ensures r.Ok? ==> r.value.eventId == e && r.value.availableSpots >= r.value.capacity - r.value.totalConfirmed
    ensures r.Ok? ==> (r.value.isFull <==> r.value.totalConfirmed >= r.value.capacity)
  {
    match FindEvent(events, e)
    case None => Err(NotFound("Event not found"))
    case Some(k) =>
      var event := events[k];
      if caller.role == Organizer && event.organizerId != caller.id then
        Err(Forbidden("Not authorized to view statistics for this event"))
      else
        var breakdown := Breakdown(rows, e);
        var totalConfirmed := Get(breakdown, CheckedIn) + Get(breakdown, Registered);
        Ok(EventStats(e, event.title, event.capacity, breakdown, totalConfirmed,
                      Max0(event.capacity - totalConfirmed), totalConfirmed >= event.capacity))
  }

  /** Registered and checked-in rows together are the seat count. */
  lemma {:induction false} TallySplit(rows: seq<Attendance>, e: int)
    ensures Tally(rows, e, {Registered}) + Tally(rows, e, {CheckedIn}) == Confirmed(rows, e)
  {
    if rows != [] {
      TallySplit(rows[..|rows| - 1], e);
    }
  }

  /** The per-event statistics fail exactly for a missing event (404) or a
      foreign organizer (403). Otherwise the confirmed total is the seat
      count (waitlisted and cancelled rows excluded), the free spots are
      never negative and are zero exactly when the event is full, and below
      capacity spots and seats add up to the capacity. */
  lemma EventStatsOutcome(events: seq<Event>, rows: seq<Attendance>, caller: Caller, e: int)
    requires caller.role in {Admin, Organizer}
    ensures FindEvent(events, e).None? ==> EventSpecificStats(events, rows, caller, e) == Err(NotFound("Event not found"))
    ensures EventSpecificStats(events, rows, caller, e).Ok? <==>
      FindEvent(events, e).Some? &&
      !(caller.role == Organizer && events[FindEvent(events, e).value].organizerId != caller.id)
    ensures EventSpecificStats(events, rows, caller, e).Ok? ==>
      var s := EventSpecificStats(events, rows, caller, e).value;
      && s.breakdown == Breakdown(rows, e)
      && s.totalConfirmed == Confirmed(rows, e)
      && (s.isFull <==> Confirmed(rows, e) >= s.capacity)
      && (s.availableSpots == 0 <==> s.isFull)
      && (!s.isFull ==> s.availableSpots + s.totalConfirmed == s.capacity)
  {
    TallySplit(rows, e);
  }
}
