# Event management: attendance, waitlist and event tables in Dafny

This project models the back end of an event-management service: events with a
seat capacity, users with roles, and attendance records that move between
statuses. The repository carries two drafts of the same logic, and each has its
own Dafny modules.

**Draft A** is the router and Celery draft: `routers/attendees.py`,
`tasks.py`, `routers/events.py`, `routers/analytics.py` and `routers/users.py`.
- An attendance record is registered, checked in, waitlisted or cancelled
  (the four statuses of `frontend/src/types/index.ts:51-55`).
- Registering for a full event puts the user on a waitlist. A capacity of 0
  means the event is always full.
- Cancelling asks for `process_waitlist`, which promotes the earliest
  waitlisted records into the free seats. It then renumbers the rest of the
  waitlist 1..k, provided the database session flushes the promotions before
  it queries the waitlist again (see "## Findings").

**Draft B** is the service draft: `services/attendee.py`, `services/event.py`,
`models/attendee.py` and `models/event.py`.
- There is no waitlist, and an attendee record has three statuses.
- An event has a lifecycle status of its own.
- A capacity of 0 means unlimited.
- Occupancy counts every record that is not cancelled.

Both drafts are modelled in one shape:
- A database table is a `seq` of records, and the database is a class
  (`Store.Db` for Draft A, `ServiceModels.Session` for Draft B). Its fields are
  the tables and the next autoincrement keys.
- Each request handler is a pure step function. It returns the tables
  afterwards and the response, or an `Error` with the HTTP status kind and the
  exact `detail` text.
- Lemmas state what the handler promises: error cases, capacity bounds, FIFO
  order, dense renumbering, idempotence, and "nothing else changes".
- Each handler is also a method on the class that changes the tables in place.
  Its `setattr` and renumbering loops are real `while`/`for` loops. Its
  `ensures` ties the new state to the step function.

Other choices:
- The clock (`datetime.utcnow()`) and the random ticket hex are parameters.
- Password hashing is an opaque string.
- The signed-in user is a `Caller` (id and role).
- A `require_role` dependency is a precondition on the role of the caller.

Modules:
- `Common`: `Option`, `Result` and `Error`; `max(0, x)`; `OFFSET`/`LIMIT` paging.
- `Ordering`: a stable sort of (key, row index) pairs. It stands for SQL
  `ORDER BY`, with ties broken by table order.
- `Store`: the Draft A records, the status counts and the `Db` class.
- `Attendees`: register, check-in, cancel, and the two attendee listings.
- `Tasks`: `process_waitlist`.
- `Events`, `Analytics`, `Users`: the other Draft A routers.
- `ServiceModels`, `AttendeeServices`, `EventServices`: Draft B, with the
  classes `AttendeeService` and `EventService` over a shared `Session`.

## Model

| member | source | states |
|---|---|---|
| Common.Max0 | backend/src/routers/events.py:52 | `max(0, x)` is non-negative, at least `x`, and is either 0 or `x` |
| Common.Page | backend/src/routers/events.py:43 | `offset(skip).limit(limit)`: at most `limit` items; empty when `skip` is past the end; otherwise exactly `min(limit, n - skip)` items, each the item `skip + k` of the input |
| Store.Tally | backend/src/routers/attendees.py:39-42 | the count of the rows of an event whose status is in a set is at most the table size, and is 0 exactly when no row qualifies |
| Store.FindEvent | backend/src/routers/attendees.py:18 | `.first()` on the event id: the index found holds that id and no earlier row does; `None` exactly when no row has the id |
| Store.FindById | backend/src/routers/attendees.py:84 | `.first()` on the attendee id: the first row with that id, or `None` when there is none |
| Store.FindRegistration | backend/src/routers/attendees.py:22-25 | the first row of (event, user) whatever its status, or `None` when the user has no row for the event |
| Ordering.SortAscending | backend/src/tasks.py:30 | sorting distinct (position, row) keys yields a strictly ascending sequence, the order `order_by(waitlist_position)` returns |
| Tasks.WaitlistOrder | backend/src/tasks.py:27-30 | the waitlisted rows of the event, each exactly once, in ascending waitlist position; its length is the waitlist count |
| Tasks.Selected | backend/src/tasks.py:27-30 | the first query returns the `min(available, waiting)` earliest entries of the waitlist order |
| Tasks.SelectedWaitlisted | backend/src/tasks.py:27-30 | only waitlisted rows of the event are selected for promotion |
| Tasks.PromoteAll | backend/src/tasks.py:32-35 | each selected row becomes registered, with its position cleared and `registered_at` set to now; every other row is unchanged |
| Tasks.PromoteAllTally | backend/src/tasks.py:32-35 | promoting k waitlisted rows adds k to the confirmed count and removes k from the waitlist count |
| Tasks.Renumber | backend/src/tasks.py:42-43 | the k-th remaining row gets position k (from 1); rows not listed are unchanged |
| Tasks.RenumberRow | backend/src/tasks.py:42-43 | renumbering changes nothing in a row except its waitlist position |
| Tasks.RenumberTally | backend/src/tasks.py:42-43 | renumbering changes neither the confirmed count nor the waitlist count |
| Tasks.RenumberDense | backend/src/tasks.py:37-43 | after renumbering, every waitlisted row has a position in 1..k, and an earlier row in waitlist order has a smaller position |
| Tasks.PromoteCounts | backend/src/tasks.py:19-35 | with `available > 0`, exactly `min(available, waiting)` rows move from the waitlist to confirmed, so the confirmed count ends within capacity |
| Tasks.PromoteNoRoom | backend/src/tasks.py:15-26 | a missing event, or `available <= 0`, leaves the table unchanged, with no renumbering |
| Tasks.PromoteRowFate | backend/src/tasks.py:27-43 | a row that is not waitlisted for the event is unchanged; a waitlisted row is either promoted or stays waitlisted with only its position changed |
| Tasks.PromoteIsFifo | backend/src/tasks.py:27-35 | every promoted row comes before every row left on the waitlist, in (position, table order) |
| Tasks.PromoteRenumbersDensely | backend/src/tasks.py:37-43 | after promotion, the remaining waitlist holds positions 1..k in the old waitlist order |
| Tasks.Promote | backend/src/tasks.py:11-45 | the whole task as a function of the tables, assuming a flush before the second query: it keeps every row's id, event and user; its partner lemmas are `PromoteNoRoom`, `PromoteCounts`, `PromoteRowFate`, `PromoteIsFifo`, `PromoteRenumbersDensely` and `PromoteIdempotent` |
| Tasks.PromoteWith | backend/src/tasks.py:26-43 | both loops with `available > 0`, the second query reading the promoted table; it keeps every row's id, event and user |
| Tasks.PromoteNoFlush | backend/src/tasks.py:11-45 | the task when the session does not flush before the second query, which then reads the waitlist as it was before promotion; it keeps every row's id, event and user |
| Tasks.NoFlushKeepsPosition | backend/src/tasks.py:32-43 | without a flush, the first promoted row ends registered but with waitlist position 1 |
| Tasks.NoFlushLeavesGap | backend/src/tasks.py:37-43 | without a flush, every row left waiting after a free seat has position 2 or more, so the waitlist no longer starts at 1 |
| Tasks.PromoteIdempotent | backend/src/tasks.py:11-45 | running the task a second time, at any clock reading, changes nothing |
| Tasks.PromoteRows | backend/src/tasks.py:32-35 | the first loop, run in place over the table, yields the promoted table and changes no other field of the store |
| Tasks.RenumberRows | backend/src/tasks.py:42-43 | the `enumerate` loop, run in place, yields the renumbered table and changes no other field of the store |
| Tasks.ProcessWaitlist | backend/src/tasks.py:11-47 | the task against the store: the attendance table becomes the promoted table, everything else is kept, and the store invariant holds |
| Attendees.RegisterStep | backend/src/routers/attendees.py:12-76 | a registration fails only with 404 "Event not found" or 400 "Already registered for this event"; on success it adds at most one row |
| Attendees.RegisterMissingEvent | backend/src/routers/attendees.py:18-20 | registering for a missing event gives 404 "Event not found" |
| Attendees.RegisterRejectsDuplicate | backend/src/routers/attendees.py:22-37 | a row of (event, user) that is not cancelled gives 400 "Already registered for this event" |
| Attendees.RegisterReopensCancelled | backend/src/routers/attendees.py:27-35 | a cancelled row of (event, user) is flipped back to registered in place, with a new `registered_at`, without a capacity check; the confirmed count grows by one |
| Attendees.ReRegisterOverbooks | backend/src/routers/attendees.py:27-35 | an event of capacity 1 with one seat taken: re-registering a cancelled row succeeds and leaves 2 confirmed rows |
| Attendees.RegisterFreshSeat | backend/src/routers/attendees.py:39-76 | with confirmed < capacity, one registered row is appended, and confirmed grows by one and stays within capacity |
| Attendees.RegisterWhenFull | backend/src/routers/attendees.py:44-63 | with confirmed >= capacity (capacity 0 included), one waitlisted row is appended at position "waitlist count + 1", and the response says so |
| Attendees.RegisterKeepsCapacity | backend/src/routers/attendees.py:39-76 | a new registration never takes the confirmed count above capacity when it started within capacity |
| Attendees.RegisterFrame | backend/src/routers/attendees.py:22-76 | a successful registration changes no row of another (event, user), keeps one row per (event, user), leaves a row for the pair, and keeps the counts of other events |
| Attendees.Register | backend/src/routers/attendees.py:12-76 | the handler against the store: table and response as the step function gives them; an error changes nothing; the next id advances by the rows added |
| Attendees.CheckInStep | backend/src/routers/attendees.py:78-96 | check-in keeps the table size |
| Attendees.CheckInOutcome | backend/src/routers/attendees.py:84-92 | check-in succeeds exactly when the row exists and is registered; 404 "Attendee registration not found" and 400 "Attendee must be registered to check in" otherwise |
| Attendees.CheckInEffect | backend/src/routers/attendees.py:91-92 | the row becomes checked in, with `checked_in_at` set to now; other rows and all counts are unchanged |
| Attendees.CheckIn | backend/src/routers/attendees.py:78-96 | the handler against the store returns the refreshed row; an error changes nothing |
| Attendees.Compact | backend/src/routers/attendees.py:117-126 | the compaction query and loop: each waitlisted row of the event behind the given position moves up by one, and every other row is kept |
| Attendees.CompactWaitingCount | backend/src/routers/attendees.py:124-125 | compaction changes no status, so no waitlist count |
| Attendees.CompactDense | backend/src/routers/attendees.py:117-126 | cancelling a waitlisted row and compacting behind it keeps the positions of a dense waitlist dense |
| Attendees.CompactWaitlist | backend/src/routers/attendees.py:124-126 | the loop, run in place, yields the compacted table and changes nothing else |
| Attendees.CancelStep | backend/src/routers/attendees.py:98-131 | cancel keeps the table size |
| Attendees.CancelOutcome | backend/src/routers/attendees.py:104-114 | cancel gives 404 for a missing row and 403 for a caller who neither owns the row nor is an admin or organizer; an already cancelled row gives 400 "Registration already cancelled"; it succeeds exactly otherwise |
| Attendees.CancelNeverCompacts | backend/src/routers/attendees.py:114-128 | as written, cancel only sets the status to cancelled: no position changes, and promotion of the event is always requested |
| Attendees.CancelLeavesGap | backend/src/routers/attendees.py:114-128 | a dense waitlist of two, the first cancelled: promotion changes nothing and the waitlist is left as {2}, no longer dense |
| Attendees.CancelFixed | backend/src/routers/attendees.py:98-131 | the corrected cancel keeps the table size |
| Attendees.CancelFixedPromotes | backend/src/routers/attendees.py:117-128 | the corrected cancel requests promotion exactly when the row was not waitlisted, and returns a cancelled record |
| Attendees.CancelFixedKeepsDense | backend/src/routers/attendees.py:117-126 | the corrected cancel keeps every event's waitlist dense |
| Attendees.Cancel | backend/src/routers/attendees.py:98-131 | the handler as written against the store: table, response and promotion request as `CancelStep` gives them; an error changes nothing |
| Attendees.CancelWithCompaction | backend/src/routers/attendees.py:98-131 | the corrected handler against the store, with the compaction loop run in place |
| Attendees.MyRegistrations | backend/src/routers/attendees.py:133-141 | exactly the rows of the user |
| Attendees.EventRows | backend/src/routers/attendees.py:156-157 | exactly the rows of the event |
| Attendees.SortedTimeKeys | backend/src/routers/attendees.py:158 | sorting the (registered_at, index) keys keeps every key and yields ascending order |
| Attendees.OrderByRegistration | backend/src/routers/attendees.py:158 | `order_by(registered_at)` is a reordering of its input: same length, the same rows the same number of times (multiset equality), ascending in `registered_at` |
| Attendees.EventAttendees | backend/src/routers/attendees.py:143-160 | `get_event_attendees` fails only with 404 "Event not found" or 403 "Not authorized to view attendees for this event"; on success it returns exactly the event's rows, each as often as the table holds it |
| Attendees.EventAttendeesOutcome | backend/src/routers/attendees.py:143-160 | 404 for a missing event and 403 for an organizer who does not own it, success exactly otherwise; on success the rows are those of the event, each as often as the table holds it, ascending in `registered_at` |
| Analytics.ConfirmedAll | backend/src/routers/analytics.py:17-19 | `total_attendees` counts registered and checked-in rows over all events; it is 0 exactly when there are none |
| Analytics.AtCapacity | backend/src/routers/analytics.py:37 | `events_at_capacity` is at most the number of events |
| Analytics.AtCapacityExtremes | backend/src/routers/analytics.py:21-37 | `events_at_capacity` equals the number of events exactly when all are full, and is 0 exactly when none is |
| Analytics.NoCapacityIsFull | backend/src/routers/analytics.py:37 | an event of capacity 0 always counts as at capacity |
| Analytics.Upcoming | backend/src/routers/analytics.py:46-48 | `upcoming_events` is at most the number of events |
| Analytics.PastIsBefore | backend/src/routers/analytics.py:50 | `past_events = total_events - upcoming_events` is exactly the number of events dated before now |
| Analytics.CountCategory | backend/src/routers/analytics.py:39-42 | the count of a category is positive exactly when some event has it |
| Analytics.Categories | backend/src/routers/analytics.py:39-44 | the keys of `category_dict` are exactly the categories present, each once |
| Analytics.CategoryTable | backend/src/routers/analytics.py:39-44 | `category_dict` pairs each present category with its event count |
| Analytics.MaxIndex | backend/src/routers/analytics.py:52 | `max(..., key=count)` picks the first entry of maximal count |
| Analytics.MostPopularIsMaximal | backend/src/routers/analytics.py:52 | "None" when there are no events; otherwise a category present in the table whose count no category exceeds |
| Analytics.MostPopular | backend/src/routers/analytics.py:52 | "None" for an empty table, and otherwise "None" or the category of some event; `MostPopularIsMaximal` adds that no category has more events |
| Analytics.Statistics | backend/src/routers/analytics.py:10-63 | the integer statistics: `past_events` is non-negative, `upcoming + past = total`, and `events_at_capacity <= total_events` |
| Analytics.StatusListed | frontend/src/types/index.ts:51-55 | each status is one of the four the breakdown reads |
| Analytics.Breakdown | backend/src/routers/analytics.py:108-115 | `status_dict` has a key exactly for the statuses present among the event's rows, and each key's value is the number of the event's rows with that status |
| Analytics.TallySplit | backend/src/routers/analytics.py:117-119 | registered plus checked-in counts equal the confirmed count; waitlisted and cancelled rows are excluded |
| Analytics.EventStatsOutcome | backend/src/routers/analytics.py:95-134 | 404 for a missing event and 403 for an organizer who does not own it, success exactly otherwise; `attendee_breakdown` is `Breakdown` of the event's rows, `total_confirmed` is the confirmed count, `is_full` iff confirmed >= capacity, `available_spots` is 0 exactly when full and otherwise makes up the capacity |
| Analytics.EventSpecificStats | backend/src/routers/analytics.py:95-134 | fails only with 404 "Event not found" or 403 "Not authorized to view statistics for this event"; on success the statistics are for the requested event, `is_full` iff confirmed >= capacity, and `available_spots` is at least capacity minus confirmed |
| Events.View | backend/src/routers/events.py:45-52 | `current_attendees` is the confirmed count; `available_spots` is never negative, is 0 exactly when confirmed >= capacity, and otherwise adds up with `current_attendees` to the capacity |
| Events.ViewIgnoresNonSeats | backend/src/routers/events.py:46-49 | adding a waitlisted or cancelled row, or a row of another event, changes no projection |
| Events.NewEvent | backend/src/routers/events.py:17 | the stored event has the input's fields, the caller as organizer, and no `updated_at` |
| Events.CreatedViewIsProjection | backend/src/routers/events.py:22-23 | the hard-coded `current_attendees = 0` and `available_spots = capacity` agree with the projection of a new event |
| Events.CreateEvent | backend/src/routers/events.py:11-25 | the handler against the store appends the event with the next id and returns zero attendees and the full capacity |
| Events.Listed | backend/src/routers/events.py:35-41 | an event is listed exactly when it passes the category filter (if given) and the upcoming-only filter (if set) |
| Events.ListedUnfiltered | backend/src/routers/events.py:35-43 | with no filter the listing is the whole table, in order |
| Events.GetEvents | backend/src/routers/events.py:27-54 | the loop returns the page of the filtered events, each with its projection, and never more than `limit` |
| Events.GetEvent | backend/src/routers/events.py:56-73 | success exactly when an event has the id, with that event and its projection `View`: `current_attendees` counts only its registered and checked-in rows, and `available_spots` is `max(0, capacity - current_attendees)`; 404 "Event not found" otherwise |
| Events.Read | backend/src/routers/events.py:89-91 | reading a field gives an entry of that field |
| Events.SetField | backend/src/routers/events.py:89-91 | `setattr` sets the named field and keeps every other field, the id and the organizer |
| Events.ApplyFieldsSpec | backend/src/routers/events.py:89-91 | after the loop every supplied field holds its value and every field not supplied keeps its old one |
| Events.ApplyFields | backend/src/routers/events.py:89-91 | the `setattr` loop never changes the id, the organizer or `updated_at` |
| Events.UpdateEventStep | backend/src/routers/events.py:75-105 | an update keeps the table size |
| Events.UpdateEventOutcome | backend/src/routers/events.py:82-103 | 404 for a missing event and 403 for an organizer who does not own it, success exactly otherwise; on success only that event changes, only in the supplied fields, `updated_at` becomes now, and the response is its projection |
| Events.UpdateEvent | backend/src/routers/events.py:75-105 | the handler against the store runs the `setattr` loop in place; an error changes nothing |
| Events.DeleteEventStep | backend/src/routers/events.py:107-122 | a delete removes exactly one event |
| Events.DeleteEventOutcome | backend/src/routers/events.py:113-121 | 404 for a missing event and 403 for an organizer who does not own it, success exactly otherwise; on success the id is gone and every other event is kept |
| Events.DeleteEvent | backend/src/routers/events.py:107-122 | the handler against the store; attendance rows are left in place; an error changes nothing |
| Users.FindUser | backend/src/routers/users.py:107 | the account found holds the id; `None` exactly when no account has it |
| Users.FindByEmail | backend/src/routers/users.py:17 | the account found holds the email; `None` exactly when no account has it |
| Users.FindByUsername | backend/src/routers/users.py:21 | the account found holds the username; `None` exactly when no account has it |
| Users.NewUser | backend/src/routers/users.py:26-32 | a registered account is an active attendee, with the given email, username, full name and hash |
| Users.RegisterUserStep | backend/src/routers/users.py:12-36 | a registration appends one account and keeps all others |
| Users.RegisterUserOutcome | backend/src/routers/users.py:17-32 | "Email already registered" exactly when the email is taken, "Username already taken" exactly when only the username is, and otherwise the new account is an active attendee |
| Users.RegisterUserKeepsUnique | backend/src/routers/users.py:17-33 | registration with a fresh id keeps ids, emails and usernames unique |
| Users.RegisterUser | backend/src/routers/users.py:12-36 | the handler against the store: the account with the next id is appended and returned; an error changes nothing; uniqueness is kept |
| Users.Read | backend/src/routers/users.py:83-84 | reading a field gives an entry of that field |
| Users.SetField | backend/src/routers/users.py:83-84 | `setattr` sets the named field and keeps every other field, the id and the hash |
| Users.ApplyFieldsSpec | backend/src/routers/users.py:83-84 | after the loop every supplied field holds its value and every field not supplied keeps its old one |
| Users.ApplyFields | backend/src/routers/users.py:83-84 | the `setattr` loop never changes the id or the password hash |
| Users.SetFields | backend/src/routers/users.py:83-84 | the `setattr` loop computes the same account as the field-by-field specification, keeping id and hash |
| Users.Lookup | backend/src/routers/users.py:70-76 | `update_data["email"]` when present: an entry of the dict under that key; `None` exactly when the key is absent |
| Users.DropRole | backend/src/routers/users.py:80-81 | `del update_data["role"]` keeps exactly the entries with other keys |
| Users.DropRoleAbsent | backend/src/routers/users.py:80-81 | with no role entry, dropping it changes nothing |
| Users.PatchKeepsUnique | backend/src/routers/users.py:70-84 | a checked update keeps ids, emails and usernames unique |
| Users.Patch | backend/src/routers/users.py:70-84 | the checked update fails only with "Email already registered" or "Username already taken"; on success it returns the updated account, which has the requested id and sits at that account's place, and every other account is unchanged |
| Users.Conflict | backend/src/routers/users.py:70-78 | the two uniqueness checks in order: "Email already registered" exactly when another account holds the supplied email, "Username already taken" exactly when the email is free and another account holds the supplied username, no error exactly when neither is taken |
| Users.UpdateMeOutcome | backend/src/routers/users.py:62-88 | "Email already registered" exactly when another account holds the email, "Username already taken" exactly when only the username clashes; on success only the caller's account changes, only in the supplied fields, and a non-admin's role entry is dropped |
| Users.UpdateMeStep | backend/src/routers/users.py:62-88 | `update_user_me` fails only with the two uniqueness errors; on success the table keeps its size and the returned account is the caller's, at the caller's place |
| Users.UpdateMeKeepsUnique | backend/src/routers/users.py:70-84 | a successful self-update keeps ids, emails and usernames unique |
| Users.UpdateMe | backend/src/routers/users.py:62-88 | the handler against the store runs the `setattr` loop in place; an error changes nothing |
| Users.ListUsers | backend/src/routers/users.py:90-98 | the page `users[skip : skip + limit]` |
| Users.UpdateUserStep | backend/src/routers/users.py:100-117 | an admin update keeps the table size |
| Users.UpdateUserOutcome | backend/src/routers/users.py:100-117 | 404 "User not found" exactly when no account has the id; otherwise only that account changes, only in the supplied fields |
| Users.UpdateUserBreaksUniqueness | backend/src/routers/users.py:111-113 | two accounts with unique emails: an admin update that gives the second the first's email succeeds and leaves two accounts with one email |
| Users.UpdateUserChecked | backend/src/routers/users.py:100-117 | the checked admin update keeps the table size |
| Users.UpdateUserCheckedKeepsUnique | backend/src/routers/users.py:100-117 | the checked admin update keeps accounts unique, and when it succeeds it agrees with the update as written |
| Users.UpdateUser | backend/src/routers/users.py:100-117 | the handler as written against the store; an error changes nothing |
| ServiceModels.AttendeeStatusName | backend/src/models/attendee.py:7-10 | each attendee status has its non-empty string value |
| ServiceModels.EventStatusName | backend/src/models/event.py:7-11 | each event status has its non-empty string value |
| ServiceModels.StatusNamesDistinct | backend/src/models/attendee.py:7-10 | distinct statuses have distinct string values, so a filter on a value selects one status |
| ServiceModels.Occupied | backend/src/services/event.py:112-115 | the count of records of the event that are not cancelled is at most the table size, and is 0 exactly when there are none |
| ServiceModels.FindAttendee | backend/src/services/attendee.py:13-14 | `get_attendee`: the first record with the id, or `None` exactly when there is none |
| ServiceModels.FindEvent | backend/src/services/event.py:27-28 | `get_event`: the first event with the id, or `None` exactly when there is none |
| AttendeeServices.Filtered | backend/src/services/attendee.py:24-33 | a record is kept exactly when it passes every filter that is given |
| AttendeeServices.FalsyFiltersIgnored | backend/src/services/attendee.py:26-33 | an event or user id of 0 and an empty status filter nothing, like `None` |
| AttendeeServices.UnfilteredIsAll | backend/src/services/attendee.py:24-36 | with no filter, the query is the whole table |
| AttendeeServices.ListAttendees | backend/src/services/attendee.py:16-38 | `total` is the filtered count before paging; the page is `filtered[skip : skip + limit]`, at most `limit` and `total` long |
| AttendeeServices.UpdateStep | backend/src/services/attendee.py:40-54 | an update keeps the table size |
| AttendeeServices.UpdateOutcome | backend/src/services/attendee.py:40-54 | 404 "Attendee record not found" exactly when no record has the id; otherwise only that record changes, and only its status, when one is supplied |
| AttendeeServices.CheckInStep | backend/src/services/attendee.py:56-81 | check-in keeps the table size |
| AttendeeServices.CheckInOutcome | backend/src/services/attendee.py:57-77 | 404 for a missing record, "Attendee already checked in", "Cannot check in cancelled registration"; success exactly for a registered record, which becomes checked in with `check_in_date` now; nothing else and no occupancy changes |
| AttendeeServices.CancelStep | backend/src/services/attendee.py:83-101 | cancel keeps the table size |
| AttendeeServices.CancelOutcome | backend/src/services/attendee.py:84-97 | 404 for a missing record and "Cannot cancel after check-in"; success exactly otherwise; only that record becomes cancelled, and occupancy drops by one when it was registered |
| AttendeeServices.CancelIdempotent | backend/src/services/attendee.py:91-97 | cancelling an already cancelled record succeeds and changes nothing more |
| AttendeeServices.AttendeeService.constructor | backend/src/services/attendee.py:10-11 | the service keeps the session it is given |
| AttendeeServices.AttendeeService.GetAttendee | backend/src/services/attendee.py:13-14 | the record found has the id; `None` exactly when no record has it |
| AttendeeServices.AttendeeService.UpdateAttendee | backend/src/services/attendee.py:40-54 | the `setattr` of the status runs in place in the session, and the refreshed record is returned; an error changes nothing |
| AttendeeServices.AttendeeService.CheckInAttendee | backend/src/services/attendee.py:56-81 | the check-in runs in place in the session, and the refreshed record is returned; an error changes nothing |
| AttendeeServices.AttendeeService.CancelRegistration | backend/src/services/attendee.py:83-101 | the cancel runs in place in the session, and the refreshed record is returned; an error changes nothing |
| EventServices.NewEvent | backend/src/services/event.py:16-21 | a created event always has status draft, whatever the input, with the caller as organizer |
| EventServices.Lower | backend/src/services/event.py:44-46 | case folding maps capital letters to small ones and keeps every other character |
| EventServices.LowerAll | backend/src/services/event.py:44-46 | folding a string folds each character and keeps the length |
| EventServices.LowerAllIdempotent | backend/src/services/event.py:44-46 | folding twice is folding once |
| EventServices.FilteredEvents | backend/src/services/event.py:37-48 | an event is kept exactly when it passes the status filter and the case-insensitive substring search over title, description or location |
| EventServices.SearchIgnoresCase | backend/src/services/event.py:42-48 | the search gives the same answer for a search text and its folded form |
| EventServices.SearchFindsTitle | backend/src/services/event.py:44 | searching for an event's own title, in any letter case, finds it |
| EventServices.Listing | backend/src/services/event.py:54-59 | `attendee_count` counts the records that are not cancelled; `available_seats` is 0 exactly when that count reaches capacity, and otherwise adds up with it to the capacity |
| EventServices.Read | backend/src/services/event.py:71-73 | reading a field gives an entry of that field |
| EventServices.SetField | backend/src/services/event.py:71-73 | `setattr` sets the named field, keeps every other field, the id and the organizer, and keeps capacity non-negative |
| EventServices.ApplyFields | backend/src/services/event.py:71-73 | the loop keeps the id, the organizer and a non-negative capacity |
| EventServices.ApplyFieldsSpec | backend/src/services/event.py:71-73 | after the loop every supplied field holds its value and every field not supplied keeps its old one |
| EventServices.UpdateEventStep | backend/src/services/event.py:63-77 | an update keeps the table size |
| EventServices.UpdateEventOutcome | backend/src/services/event.py:63-77 | 404 "Event not found" exactly when no event has the id; otherwise only that event changes, only in the supplied fields |
| EventServices.WithoutEvent | backend/src/models/event.py:30 | the delete-orphan cascade keeps exactly the records of other events |
| EventServices.DeleteEventOutcome | backend/src/services/event.py:79-88 | 404 exactly when no event has the id; otherwise the event and all its attendee records are gone, and all other events and records are kept |
| EventServices.DeleteEventStep | backend/src/services/event.py:79-88 | fails with 404 "Event not found" exactly when no event has the id; on success one event is removed and no attendee record of that event remains |
| EventServices.Upper | backend/src/services/event.py:127 | `.upper()` turns a small letter into the capital at the same place in the alphabet and keeps every other character |
| EventServices.Ticket | backend/src/services/event.py:127 | the ticket is "TKT-" followed by the first 8 characters of the hex string, each small letter replaced by its capital and every other character kept, 12 characters in all |
| EventServices.TicketIsUpperHex | backend/src/services/event.py:127 | for a hex string of small hex digits, the ticket's last 8 characters are hex digits `0-9`/`A-F` |
| EventServices.NewAttendee | backend/src/services/event.py:124-128 | a new record is registered (the column default), for the given event and user, with no check-in date |
| EventServices.RegisterStep | backend/src/services/event.py:90-133 | a successful registration appends exactly one new record |
| EventServices.RegisterOutcome | backend/src/services/event.py:90-121 | 404 for a missing event; "Already registered for this event" for a record that is not cancelled; "Event is full" exactly when capacity > 0 and occupancy >= capacity; success exactly otherwise, with occupancy up by one for the event and unchanged for all others |
| EventServices.RegisterWithinCapacity | backend/src/services/event.py:111-131 | with capacity > 0, a successful registration keeps occupancy within capacity |
| EventServices.RegisterKeepsOneActive | backend/src/services/event.py:98-109 | registration keeps each user to one record per event that is not cancelled |
| EventServices.UnlimitedListedFull | backend/src/services/event.py:59 | an event of capacity 0 with no records lists 0 available seats, yet registration for it succeeds |
| EventServices.SeatsLeft | backend/src/services/event.py:117 | the corrected seat projection: `None` (unlimited) exactly for capacity 0, otherwise 0 exactly when occupancy reaches capacity |
| EventServices.SeatsLeftAgreesWithRegister | backend/src/services/event.py:111-121 | registration by a user with no live record succeeds exactly when the corrected projection shows unlimited or positive seats |
| EventServices.EventService.constructor | backend/src/services/event.py:13-14 | the service keeps the session it is given |
| EventServices.EventService.CreateEvent | backend/src/services/event.py:16-25 | the new draft event is appended with the next id and returned |
| EventServices.EventService.GetEvent | backend/src/services/event.py:27-28 | the event found has the id; `None` exactly when no event has it |
| EventServices.EventService.ListEvents | backend/src/services/event.py:30-61 | the loop returns `total` (the count before paging) and the page of filtered events, each with its seat listing, changing nothing |
| EventServices.EventService.UpdateEvent | backend/src/services/event.py:63-77 | the `setattr` loop runs in place in the session; an error changes nothing |
| EventServices.EventService.DeleteEvent | backend/src/services/event.py:79-88 | the event and its records are removed from the session; an error changes nothing |
| EventServices.EventService.RegisterAttendee | backend/src/services/event.py:90-133 | the new record with the next id is appended and returned; an error changes nothing |

## Left out

- Authentication internals are left out: password hashing, tokens, `login`, `read_users_me` and `get_current_active_user`. A hash is an opaque string, and the signed-in user is a `Caller` value.
- `require_role` dependencies become preconditions on the caller's role. `Attendees.CheckIn`, `Users.UpdateUser` and `Users.ListUsers` take no caller, so their role guard is outside the model.
- The Celery call `process_waitlist.delay` is not a queue here. It is the `promote` output of `Attendees.Cancel`, an event id, and `Tasks.ProcessWaitlist` is the follow-up call.
- `send_event_reminder` and `cleanup_past_events` in `tasks.py` are left out, because they only print.
- The float parts of the statistics are left out: average, attendance and check-in rates, `round`, and Draft B prices.
- `get_user_statistics` is left out.
- `services/analytics.py` is left out, because it computes float rates and date-window aggregations and returns placeholder data.
- `core/websocket.py`, the `api/routes` wrappers, `main.py`, configuration and the frontend are left out.
- EventServices.FilteredEvents: `ILIKE` is plain substring matching with ASCII case folding. The SQL wildcards `%` and `_` inside the search text, and case folding beyond ASCII, are not modelled.
- Server-side timestamps are not modelled. Draft B's `created_at`, `updated_at` (`onupdate`) and `registration_date` become the `now` parameter or are omitted. Draft A's `created_at` is omitted too.
- AttendeeServices.UpdateStep: `AttendeeUpdate` has only `status`. An explicit `null` status, which `exclude_unset` would pass to `setattr`, is modelled as "not supplied".
- Events.ApplyFields: the Draft A `EventUpdate` schema is not part of this model. Its settable fields are taken from the event model: title, description, date, location, capacity and category.
- Users.ApplyFields: the Draft A `UserUpdate` schema is not part of this model. Its settable fields are taken from the user model: email, username, full name, role and active flag.
- Database constraints (unique columns, foreign keys) and database errors on commit are not modelled. The Draft A user table's definition is not part of this model.
- Common.Page: negative `skip` and `limit` are excluded by the types. `get_events` validates them, and the other routes would pass them to SQL.
- SQL leaves the order of equal sort keys unspecified. The model fixes a stable order: ties in `waitlist_position` or `registered_at` are broken by table order, and `GROUP BY` results appear in order of first occurrence.
- Queries without `ORDER BY` are read in table order: `Events.GetEvents` (routers/events.py:43), `Users.ListUsers` (routers/users.py:97), `AttendeeServices.ListAttendees` (services/attendee.py:36) and `EventServices.EventService.ListEvents` (services/event.py:51). SQL does not promise that order, so which rows fall on a page is not pinned down by the source.
- Requests are modelled as atomic sequential steps. Concurrency between requests is not modelled.
- EventServices.ApplyFields: every field of Draft B's `EventUpdate` (schemas/event.py:18-26) is optional, so an explicit JSON `null` survives `exclude_unset`, and `setattr` writes None into the nullable `capacity` and `status` columns (models/event.py:22,24). The model's field values cannot be None, so an update carrying an explicit `null` is outside the model. A stored None capacity would make `register_attendee` (services/event.py:117) and `list_events` (services/event.py:59) raise a TypeError, which is not modelled. The same holds for EventServices.EventService.UpdateEvent and the `capacity >= 0` part of `ServiceModels.Session.Valid`.
- Tasks.PromoteWith, Tasks.Promote, Tasks.PromoteRenumbersDensely, Tasks.ProcessWaitlist: these assume the session flushes the promotions before the second query of tasks.py:37-40 (SQLAlchemy's default). `SessionLocal` is defined in src/database.py, which is not part of this model, and the test session (tests/conftest.py:17) sets `autoflush=False`. The reading without a flush is `Tasks.PromoteNoFlush` (see "## Findings").
- Events.DeleteEvent: the event model that Draft A's routers import is not part of this model (src/models.py is an older draft without `user_id` or `waitlist_position`). The model assumes no cascade and leaves the attendance rows of a deleted event unchanged, their `eventId` included. Under the older src/models.py relationship (`relationship("Attendee", back_populates="event")`, no cascade option), SQLAlchemy would instead set those rows' event id to NULL on delete; that is not modelled.
- `EventServices.EventService.ListEvents` returns listings beside the events. It does not write `attendee_count` and `available_seats` onto the stored event objects.

## Findings

| source | as written | input that shows it | evidently intended | confidence | as-written member | corrected member |
|---|---|---|---|---|---|---|
| backend/src/routers/attendees.py:114-128 | the status is set to cancelled before the test for waitlisted, so the compaction branch never runs and promotion is always requested | waitlisted rows at positions 1 and 2 of an event of capacity 0; cancel the first | cancelling a waitlisted row moves the rows behind it up by one and keeps the waitlist 1..k | not executed | Attendees.CancelLeavesGap | Attendees.CancelFixedKeepsDense |
| backend/src/routers/users.py:111-113 | the admin update applies a new email or username without the uniqueness checks that `update_user_me` makes | accounts 1 "a@x" and 2 "b@x"; an admin sets account 2's email to "a@x" | emails and usernames stay unique, as registration and self-update enforce; a database unique constraint would turn this into a failed commit instead | not executed | Users.UpdateUserBreaksUniqueness | Users.UpdateUserCheckedKeepsUnique |
| backend/src/tasks.py:37-43 | without a flush between the loops (the test session of tests/conftest.py:17 sets `autoflush=False`), the second query still returns the promoted rows as waitlisted, in their old order, and `enumerate` numbers them too | three waitlisted rows at positions 1, 2 and 3 and one free seat: the promoted row ends registered with position 1, and the others keep positions 2 and 3 | after promotion the remaining waitlist is renumbered 1..k and promoted rows have no position | not executed; depends on the session settings in src/database.py, which is not part of this model | Tasks.NoFlushLeavesGap | Tasks.PromoteRenumbersDensely |
| backend/src/services/event.py:59 | the listing shows `max(0, capacity - count)` seats, which is 0 for capacity 0, while registration treats capacity 0 as unlimited | a published event of capacity 0 with no records | an unlimited event is listed as having seats, consistent with `register_attendee` | not executed | EventServices.UnlimitedListedFull | EventServices.SeatsLeftAgreesWithRegister |
