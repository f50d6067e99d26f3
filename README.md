# In-memory calendar: a Dafny model

This project models the core of a small in-memory calendar (`app/model/calendar.py`).
A calendar keeps two registries:

- `days`: date → day. Each day is a table of 96 quarter-hour slots, each free or holding an event id.
- `events`: id → event. Each event has a title, a description, a date, a start and end time, and an ordered list of reminders.

The operations create and book events, update and delete them, manage reminders, list the free slots of a date and filter events by date range.

The model has six modules:

- `Outcomes` (`outcomes.dfy`): the four errors the source raises (`EventNotFound`, `ReminderNotFound`, `SlotNotAvailable`, `DateLowerThanToday`) as an `Outcome`/`Result` value, plus `Option`.
- `Days` (`days.dfy`): the slot table as a sequence. There are functions for booking (`AfterBooking`, `BookingOk`, `FirstConflict`), clearing (`Cleared`) and listing the free slots (`FreeSlotTimes`). The class `Day` updates its table in place with the same loops as the source, and each method is proved equal to those functions.
- `Events` (`events.dfy`): `Reminder`, the value `EventRecord`, and the class `Event`, which appends to and deletes from its reminder list in place.
- `CalendarSpec` (`calendar_spec.dfy`): the whole calendar as a value `State`. Each operation is a function from a state to an outcome and the next state. The state includes the insertion order of both registries, because the source's dictionaries iterate in insertion order, and `delete_event` ("the first day that holds the id") and `find_events` ("the last event wins") depend on it. The module also defines the consistency the registries are meant to keep (`Consistent`).
- `CalendarProps` (`calendar_props.dfy`): properties across calls. It shows which operations keep `Consistent` and which break it, and proves the add/delete round trips.
- `Calendars` (`calendar.dfy`): the class `Calendar`, which holds `Day` and `Event` objects in maps and updates them in place. Every public method is proved to move the abstract state `State()` exactly as the matching `CalendarSpec` function does. Each public method also keeps `CalendarSpec.WellFormed(State())`: each order lists its registry's keys once, and every day has 96 slots. The object invariant `Valid()` adds that each day is filed under its own date and each event under its own id. The private steps (`Book`, `EnsureDay`, `BookOn`, `Register`, `Unregister`, `ClearOn`, `ClearFirstDayWith`) state their effect on `State()` directly.

Modelling choices:

- Times of day are whole minutes after midnight. Slot k starts at minute 15·k, so the booking test `start <= slot < end` becomes `startAt <= 15*k < endAt`.
- Dates are integers in calendar order.
- The clock's date (`datetime.now().date()`) is the parameter `today`.
- The id generator's next value is the parameter `freshId`.
- Errors raised by the source become the returned `Outcome`/`Result`. The state at the point of the raise is kept, including slots written before it.

Behaviour the model keeps on purpose, with the member that states it:

- A booking is refused at the first occupied slot of the range, even one held by the same id. The slots written before that point keep the id (`Days.AfterBooking`).
- So a refused `add_event` leaves an id on a day that never reaches the event registry (`CalendarProps.RefusedBookingLeavesDanglingId`).
- `update_event` files the replacement event, with no reminders, before booking its slots. A refused booking therefore leaves the new event registered (`CalendarSpec.UpdateEvent`).
- `find_events` keeps one event per date: the last one in iteration order (`CalendarSpec.FindEventsKeepsLast`).
- An event whose end is not after its start books no slot. Deleting it then changes no day and raises nothing (`CalendarProps.EmptyRangeEventHoldsNoSlot`).

## Model

| member | source | states |
|---|---|---|
| Days.CanonicalSlotTimes | app/model/calendar.py:104 | 96 times; entry k is the start of slot k (hour by hour, quarter by quarter) |
| Days.FirstConflict | app/model/calendar.py:60-63 | the first slot in the range that is occupied, or the table length if none; every in-range slot before it is free |
| Days.BookingOk | app/model/calendar.py:59-64 | a booking succeeds iff every slot in [start, end) is free, whoever holds an occupied one |
| Days.AfterBooking | app/model/calendar.py:59-64 | the table after booking: on success, exactly the in-range slots hold the id and the rest are unchanged; on refusal, in-range slots before the first conflict hold the id and everything from the conflict on is unchanged |
| Days.Cleared | app/model/calendar.py:66-71 | the table after freeing an id: the id is gone, the slots that held it are free, every other slot is unchanged |
| Days.FreeSlotTimes | app/model/calendar.py:105 | the start time of slot k is listed iff slot k is free; the times are aligned to 15 minutes, lie within the day and are strictly ascending |
| Days.FreshDayAllFree | app/model/calendar.py:54-57 | a fresh day's free slots are exactly the canonical 96 times, in order |
| Days.ClearUndoesBooking | app/model/calendar.py:59-73 | freeing an id whose booking succeeded, on a table that did not hold it before, gives back the original table |
| Days.ClearedAbsent | app/model/calendar.py:66-73 | freeing an id that holds no slot changes nothing |
| Days.EmptyRangeBooksNothing | app/model/calendar.py:59-64 | a range with end <= start is never refused and writes no slot |
| Days.Day.constructor | app/model/calendar.py:49-57 | a new day has its date and 96 free slots, built by the nested hour/quarter loops |
| Days.Day.AddEvent | app/model/calendar.py:59-64 | the in-place loop returns SlotNotAvailable iff some in-range slot is occupied and leaves the table equal to AfterBooking |
| Days.Day.DeleteEvent | app/model/calendar.py:66-73 | the in-place loop returns EventNotFound iff no slot held the id and leaves the table equal to Cleared |
| Days.Day.UpdateEvent | app/model/calendar.py:75-77 | EventNotFound with no change when the id holds no slot; otherwise the table is the booking of the new range on the freed table, refused iff an in-range slot of the freed table is occupied |
| Events.DeleteReminderAt | app/model/calendar.py:33-37 | success iff 0 <= i < length; then element i is removed and later ones shift down; otherwise ReminderNotFound and the list is unchanged (negative i included) |
| Events.DeleteUndoesAppend | app/model/calendar.py:30-37 | deleting the reminder just appended gives back the list |
| Events.Event.constructor | app/model/calendar.py:20-28 | a new event has the given fields and no reminders |
| Events.Event.AddReminder | app/model/calendar.py:30-31 | the reminder list becomes the old list plus Reminder(dateTime, kind) at the end; kind defaults to "email" |
| Events.Event.DeleteReminder | app/model/calendar.py:33-37 | outcome and new list are those of DeleteReminderAt |
| CalendarSpec.Book | app/model/calendar.py:89-93 | creates the day if missing (appending the date to the iteration order), and the date's table becomes AfterBooking of its previous (or fresh) table; other days and events unchanged; keeps WellFormed |
| CalendarSpec.Register | app/model/calendar.py:94 | the event is filed under its id, and a new id goes last in the iteration order; days unchanged; keeps WellFormed |
| CalendarSpec.RemoveKey | app/model/calendar.py:123 | dropping a key from the iteration order: exactly the other keys stay, and no duplicates appear |
| CalendarSpec.RemoveKeyKeepsOrder | app/model/calendar.py:123 | deleting a key that occurs once, at index i, leaves the keys before it followed by the keys after it, in their old order |
| CalendarSpec.RemoveKeyAppended | app/model/calendar.py:123 | removing the key appended last gives back the previous order |
| CalendarSpec.FirstDayWith | app/model/calendar.py:125-128 | the scan of the days in iteration order: a day it returns is filed and holds the id, and no day before it in the order holds the id; it returns None only when no day in the order holds the id |
| CalendarSpec.AddEvent | app/model/calendar.py:85-95 | DateLowerThanToday iff date < today, with no change; otherwise SlotNotAvailable iff some in-range slot of the date's table is occupied; on success the id is returned, the event is registered with exactly the given fields and no reminders, and a new id goes last in the event order; a refused booking registers nothing but keeps the created day (its date last in the day order) and the partial booking |
| CalendarSpec.DeleteEvent | app/model/calendar.py:120-128 | EventNotFound iff the id is unknown, with no change; otherwise the id leaves the registry and its iteration order (RemoveKey), the days keep their keys and order, and each day is either unchanged or freed of the id; keeps WellFormed |
| CalendarSpec.DeleteEventFreesFirstDay | app/model/calendar.py:125-128 | the day that changes is the first one in iteration order holding the id, and it no longer holds the id in any slot |
| CalendarSpec.UpdateEvent | app/model/calendar.py:107-118 | EventNotFound iff the id is unknown, with no change; otherwise, on the state left by delete_event: the id maps to the new record with no reminders and goes last in the event order, other events are unchanged, the date's day exists (created if missing) and its table is AfterBooking of the new range, other days are unchanged, and the outcome is SlotNotAvailable iff an in-range slot is still occupied, the new record staying registered either way |
| CalendarSpec.AddReminder | app/model/calendar.py:97-100 | EventNotFound with no change for an unknown id; otherwise only that event's reminder list grows by the new reminder at the end |
| CalendarSpec.DeleteReminder | app/model/calendar.py:133-136 | EventNotFound before the index check; success iff the id is known and the index is in bounds, and then only that event's list loses element i; no change on failure |
| CalendarSpec.ListReminders | app/model/calendar.py:138-141 | EventNotFound iff the id is unknown; otherwise the event's reminder list, in insertion order |
| CalendarSpec.FindAvailableSlots | app/model/calendar.py:102-105 | for a date without a day, the 96 canonical times; otherwise the time of slot k is listed iff slot k is free, and nothing else is listed (every value is a slot start within the day); always strictly ascending |
| CalendarSpec.Collect | app/model/calendar.py:131 | the dict comprehension over the events in order: a date is a key iff some event in range lies on it, and each date maps to one registered event of that date |
| CalendarSpec.FindEvents | app/model/calendar.py:130-131 | find_events: every key is a date within [from, to], and each maps to a single registered event of that date (FindEventsDates gives the key set, FindEventsKeepsLast which event is kept) |
| CalendarSpec.FindEventsDates | app/model/calendar.py:130-131 | the reported dates are exactly the dates in [from, to] of registered events |
| CalendarSpec.FindEventsKeepsLast | app/model/calendar.py:131 | a date maps to the last event in iteration order that lies on it |
| CalendarSpec.EmptyConsistent | app/model/calendar.py:81-83 | the empty calendar is consistent |
| CalendarProps.BookRegisterKeepsConsistent | app/model/calendar.py:89-94 | booking a free range for a new id and then registering it keeps the registries consistent |
| CalendarProps.AddEventKeepsConsistent | app/model/calendar.py:85-95 | a successful add_event with a fresh id keeps the registries consistent |
| CalendarProps.DeleteClearsEveryDay | app/model/calendar.py:120-128 | on a consistent calendar, delete_event removes the id from every day, although it only scans for the first one |
| CalendarProps.DeleteEventKeepsConsistent | app/model/calendar.py:120-128 | delete_event keeps a consistent calendar consistent, for any id |
| CalendarProps.UpdateEventKeepsConsistent | app/model/calendar.py:107-118 | a successful update_event keeps a consistent calendar consistent |
| CalendarProps.AddReminderKeepsConsistent | app/model/calendar.py:97-100 | adding a reminder keeps a consistent calendar consistent |
| CalendarProps.DeleteReminderKeepsConsistent | app/model/calendar.py:133-136 | deleting a reminder, or failing to, keeps a consistent calendar consistent |
| CalendarProps.RefusedBookingLeavesDanglingId | app/model/calendar.py:85-95 | a refused add_event leaves the new id in the slots written before the conflict, so the calendar is no longer consistent |
| CalendarProps.OverlapRefused | app/model/calendar.py:85-95 | on a consistent calendar, add_event on a range overlapping a slot of an existing event on that date is refused |
| CalendarProps.AddThenDeleteRestores | app/model/calendar.py:120-128 | add_event then delete_event of the new id restores the event registry, its order, and the free slots of every date |
| CalendarProps.EmptyRangeEventHoldsNoSlot | app/model/calendar.py:125-128 | an event with end <= start is accepted, holds no slot, and deleting it changes no day |
| CalendarProps.AddReminderThenList | app/model/calendar.py:138-141 | list_reminders after add_reminder is the old list plus the new reminder at the end |
| CalendarProps.AddThenDeleteReminder | app/model/calendar.py:133-136 | delete_reminder of the reminder just added gives back the whole calendar |
| Calendars.Calendar.constructor | app/model/calendar.py:81-83 | a new calendar has empty registries, and is Valid and WellFormed |
| Calendars.Calendar.AddEvent | app/model/calendar.py:85-95 | outcome and new state are those of CalendarSpec.AddEvent; the invariant is kept |
| Calendars.Calendar.Book | app/model/calendar.py:89-93 | creates the day if missing and books on it; new state is CalendarSpec.Book |
| Calendars.Calendar.EnsureDay | app/model/calendar.py:89-90 | the day of the date exists afterwards; a new day is free and its date goes last in the order |
| Calendars.Calendar.BookOn | app/model/calendar.py:93 | only the date's day changes, and its table becomes AfterBooking |
| Calendars.Calendar.Register | app/model/calendar.py:94 | new state is CalendarSpec.Register of the event's record |
| Calendars.Calendar.AddReminder | app/model/calendar.py:97-100 | outcome and new state are those of CalendarSpec.AddReminder |
| Calendars.Calendar.UpdateEvent | app/model/calendar.py:107-118 | outcome and new state are those of CalendarSpec.UpdateEvent |
| Calendars.Calendar.DeleteEvent | app/model/calendar.py:120-128 | outcome and new state are those of CalendarSpec.DeleteEvent (unregister, then free the first day in day order that holds the id) |
| Calendars.Calendar.ClearFirstDayWith | app/model/calendar.py:125-128 | the loop over the days in iteration order stops at the first day whose slots hold the id and frees it there; no other day changes, and nothing changes when no day holds it |
| Calendars.Calendar.Unregister | app/model/calendar.py:123 | the id leaves the event map and its iteration order; days unchanged |
| Calendars.Calendar.ClearOn | app/model/calendar.py:127 | only the given day changes, and its table becomes Cleared |
| Calendars.Calendar.DeleteReminder | app/model/calendar.py:133-136 | outcome and new state are those of CalendarSpec.DeleteReminder |

## Left out

- `generate_unique_id`: it is foreign to this file. The fresh id is the parameter `freshId` of `Calendar.AddEvent`, and nothing checks that it is unused. `CalendarProps.AddEventKeepsConsistent` and `CalendarProps.AddThenDeleteRestores` require a fresh id.
- The `*_error` helpers: they are foreign. Each becomes an error value, and the operation returns at the point of the raise.
- `datetime.now()`: the clock is not modelled. It is the parameter `today`.
- The `__str__` methods: they only format text for display.
- `Reminder.date_time` and `Reminder.type`: these are stored payload with no logic. They are an integer and a string.
- Sub-minute times: `datetime.time` values with seconds or microseconds are not modelled. Times are whole minutes.
- Object identity of returned values: `find_events` returns the registered Event objects, and `list_reminders` returns the event's own list, both aliases. The model returns their values.
- The key order of the dictionary `find_events` builds: the model returns a `map`. Which event each date keeps is modelled (`CalendarSpec.FindEventsKeepsLast`).
- `Calendar.FindAvailableSlots`, `Calendar.FindEvents`, `Calendar.ListReminders`: these class functions read the state and return the matching `CalendarSpec` function's result. Their properties are stated on those functions.
- Calendars.Calendar.Book, Calendars.Calendar.EnsureDay, Calendars.Calendar.BookOn, Calendars.Calendar.Register, Calendars.Calendar.Unregister, Calendars.Calendar.ClearOn, Calendars.Calendar.ClearFirstDayWith: these are private steps of the source's methods, split out so each proof stays small. The source has them inline.
- Calendars.Calendar.ClearFirstDayWith: the source loops over the days and breaks after freeing the first day holding the id. The model's loop finds that day and frees it after the loop. Which day is freed, and the resulting state, are the same.
