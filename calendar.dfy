/**
 * The calendar object: a registry of days by date and of events by id, both
 * updated in place. The insertion order of each registry's keys is kept beside
 * it, because the operations iterate the registries in that order. Every
 * public method is proved to take the abstract state State() exactly as the
 * matching function of CalendarSpec does; the private steps state their own
 * effect on State().
 */
module Calendars {
  import opened Outcomes
  import opened Days
  import opened Events
  import CalendarSpec

  /** The slot table of every day in a registry. */
  function Tables(m: map<Date, Day>): map<Date, Slots>
    reads m.Values
  {
    map d | d in m :: m[d].slots
  }

  /** The record of every event in a registry. */
  function Records(m: map<Id, Event>): map<Id, EventRecord>
    reads m.Values
  {
    map id | id in m :: m[id].Record()
  }

  lemma TablesFile(m: map<Date, Day>, date: Date, day: Day)
    ensures Tables(m[date := day]) == Tables(m)[date := day.slots]
  {
  }

  lemma RecordsFile(m: map<Id, Event>, id: Id, event: Event)
    ensures Records(m[id := event]) == Records(m)[id := event.Record()]
  {
  }

  lemma RecordsRemove(m: map<Id, Event>, id: Id)
    ensures Records(m - {id}) == Records(m) - {id}
  {
  }

  class Calendar {
    var dayOrder: seq<Date>
    var days: map<Date, Day>
    var eventOrder: seq<Id>
    var events: map<Id, Event>

    /** The calendar's contents as a value. */
    function State(): CalendarSpec.State
      reads this, days.Values, events.Values
    {
      CalendarSpec.State(dayOrder, Tables(days), eventOrder, Records(events))
    }

    /** Each day is filed under its own date and each event under its own id
        (so no object is filed twice), and each order lists its registry's keys. */
    ghost predicate Valid()
      reads this
    {
      && CalendarSpec.Enumerates(dayOrder, days)
      && (forall d | d in days :: days[d].date == d)
      && CalendarSpec.Enumerates(eventOrder, events)
      && (forall id | id in events :: events[id].id == id)
    }

    constructor ()
      ensures Valid() && CalendarSpec.WellFormed(State())
      ensures State() == CalendarSpec.Empty()
    {
      dayOrder, days := [], map[];
      eventOrder, events := [], map[];
    }

    /** Creates an event and returns its id; `today` stands for the clock's date
        and `freshId` for the id generator's next value. */
    method AddEvent(title: string, description: string, date: Date, startAt: Time, endAt: Time,
                    today: Date, freshId: Id) returns (r: Result<Id>)
      requires Valid() && CalendarSpec.WellFormed(State())
      modifies this, days.Values
      ensures Valid() && CalendarSpec.WellFormed(State())
      ensures (r, State()) == CalendarSpec.AddEvent(old(State()), title, description, date, startAt, endAt, today, freshId)
    {
      if date < today {
        return Err(DateLowerThanToday);
      }
      var event := new Event(title, description, date, startAt, endAt, freshId);
      var out := Book(date, event.id, startAt, endAt);
      if out.Fail? {
        return Err(out.error);
      }
      Register(event);
      return Ok(event.id);
    }

    /** Creates the day of `date` if it is missing, then books [startAt, endAt)
        there for `id`. */
    method Book(date: Date, id: Id, startAt: Time, endAt: Time) returns (out: Outcome)
      requires Valid()
      modifies this, days.Values
      ensures Valid()
      ensures out == if BookingOk(CalendarSpec.DayOf(old(State()), date), startAt, endAt)
                     then Pass else Fail(SlotNotAvailable)
      ensures State() == CalendarSpec.Book(old(State()), date, id, startAt, endAt)
      ensures events == old(events) && eventOrder == old(eventOrder)
    {
      ghost var before := State();
      ghost var booked := AfterBooking(CalendarSpec.DayOf(before, date), id, startAt, endAt);
      EnsureDay(date);
      assert days[date].slots == Tables(days)[date] == CalendarSpec.DayOf(before, date);
      out := BookOn(date, id, startAt, endAt);
      assert Tables(days) == before.days[date := booked];
      assert Records(events) == before.events;
      assert State() == CalendarSpec.State(dayOrder, before.days[date := booked], before.eventOrder, before.events);
    }

    /** Creates and files the day of `date` when it is missing. */
    method EnsureDay(date: Date)
      requires Valid()
      modifies this
      ensures Valid()
      ensures date in days
      ensures days[date] in old(days.Values) || fresh(days[date])
      ensures dayOrder == if date in old(days) then old(dayOrder) else old(dayOrder) + [date]
      ensures Tables(days) == old(Tables(days))[date := CalendarSpec.DayOf(old(State()), date)]
      ensures events == old(events) && eventOrder == old(eventOrder)
      ensures Records(events) == old(Records(events))
    {
      if date !in days {
        var created := new Day(date);
        TablesFile(days, date, created);
        days := days[date := created];
        dayOrder := dayOrder + [date];
      }
    }

    /** Books [startAt, endAt) for `id` on the day filed under `date`. */
    method BookOn(date: Date, id: Id, startAt: Time, endAt: Time) returns (out: Outcome)
      requires Valid()
      requires date in days
      modifies days[date]
      ensures Valid()
      ensures out == if BookingOk(old(days[date].slots), startAt, endAt) then Pass else Fail(SlotNotAvailable)
      ensures Tables(days) == old(Tables(days))[date := AfterBooking(old(days[date].slots), id, startAt, endAt)]
      ensures Records(events) == old(Records(events))
    {
      var day := days[date];
      ghost var before := Tables(days);
      out := day.AddEvent(id, startAt, endAt);
      assert Tables(days) == before[date := day.slots] by {
        forall d | d in days && d != date
          ensures days[d].slots == before[d]
        {
          assert days[d].date != day.date;
        }
      }
    }

    /** Frees the slots of `id` on the day filed under `date`. */
    method ClearOn(date: Date, id: Id)
      requires Valid()
      requires date in days
      modifies days[date]
      ensures Valid()
      ensures Tables(days) == old(Tables(days))[date := Cleared(old(days[date].slots), id)]
      ensures Records(events) == old(Records(events))
    {
      var day := days[date];
      ghost var before := Tables(days);
      var _ := day.DeleteEvent(id);
      assert Tables(days) == before[date := day.slots] by {
        forall d | d in days && d != date
          ensures days[d].slots == before[d]
        {
          assert days[d].date != day.date;
        }
      }
    }

    /** Files an event under its id; a new id goes last in the iteration order. */
    method Register(event: Event)
      requires Valid()
      modifies this
      ensures Valid()
      ensures State() == CalendarSpec.Register(old(State()), event.Record())
      ensures days == old(days) && dayOrder == old(dayOrder)
    {
      ghost var before := State();
      RecordsFile(events, event.id, event);
      var order := if event.id in eventOrder then eventOrder else eventOrder + [event.id];
      events, eventOrder := events[event.id := event], order;
      assert Tables(days) == before.days;
      assert Records(events) == before.events[event.id := event.Record()];
    }

    /** Adds a reminder to an event; EventNotFound for an unknown id. */
    method AddReminder(id: Id, dateTime: DateTime, kind: string := Email) returns (out: Outcome)
      requires Valid() && CalendarSpec.WellFormed(State())
      modifies events.Values
      ensures Valid() && CalendarSpec.WellFormed(State())
      ensures (out, State()) == CalendarSpec.AddReminder(old(State()), id, dateTime, kind)
    {
      if id !in events {
        return Fail(EventNotFound);
      }
      ghost var st0 := State();
      var event := events[id];
      ghost var before := Records(events);
      event.AddReminder(dateTime, kind);
      assert Records(events) == before[id := event.Record()] by {
        forall other | other in events && other != id
          ensures events[other].Record() == before[other]
        {
          assert events[other].id != event.id;
        }
      }
      assert (Pass, State()) == CalendarSpec.AddReminder(st0, id, dateTime, kind);
      return Pass;
    }

    /** The canonical slots for a date without a day, else the day's free slots. */
    function FindAvailableSlots(date: Date): seq<Time>
      reads this, days.Values, events.Values
    {
      CalendarSpec.FindAvailableSlots(State(), date)
    }

    /** Replaces an event: deletes it, files a new event with the same id and no
        reminders, then books its slots; EventNotFound for an unknown id. */
    method UpdateEvent(id: Id, title: string, description: string, date: Date,
                       startAt: Time, endAt: Time) returns (out: Outcome)
      requires Valid() && CalendarSpec.WellFormed(State())
      modifies this, days.Values
      ensures Valid() && CalendarSpec.WellFormed(State())
      ensures (out, State()) == CalendarSpec.UpdateEvent(old(State()), id, title, description, date, startAt, endAt)
    {
      if id !in events {
        return Fail(EventNotFound);
      }
      var _ := DeleteEvent(id);
      var event := new Event(title, description, date, startAt, endAt, id);
      Register(event);
      out := Book(date, id, startAt, endAt);
    }

    /** Deletes an event: unregisters it, then frees its slots on the first day
        that holds it; EventNotFound for an unknown id. */
    method DeleteEvent(id: Id) returns (out: Outcome)
      requires Valid() && CalendarSpec.WellFormed(State())
      modifies this, days.Values
      ensures Valid() && CalendarSpec.WellFormed(State())
      ensures (out, State()) == CalendarSpec.DeleteEvent(old(State()), id)
      ensures days == old(days) && dayOrder == old(dayOrder)
    {
      if id !in events {
        return Fail(EventNotFound);
      }
      ghost var before := State();
      Unregister(id);
      ghost var unregistered := State();
      assert unregistered == before.(eventOrder := CalendarSpec.RemoveKey(before.eventOrder, id),
                                     events := before.events - {id});
      ClearFirstDayWith(id);
      assert (Pass, State()) == CalendarSpec.DeleteEvent(before, id);
      return Pass;
    }

    /** Scans the days in iteration order and frees `id` from the first one whose
        slots hold it; no other day changes, and nothing changes when no day holds it. */
    method ClearFirstDayWith(id: Id)
      requires Valid()
      modifies days.Values
      ensures Valid()
      ensures State() == match CalendarSpec.FirstDayWith(dayOrder, old(Tables(days)), id)
        case None => old(State())
        case Some(d) => old(State()).(days := old(Tables(days))[d := Cleared(old(Tables(days))[d], id)])
    {
      var i := 0;
      while i < |dayOrder| && Some(id) !in days[dayOrder[i]].slots
        invariant 0 <= i <= |dayOrder|
        invariant CalendarSpec.FirstDayWith(dayOrder, Tables(days), id)
               == CalendarSpec.FirstDayWith(dayOrder[i..], Tables(days), id)
      {
        assert dayOrder[i..][1..] == dayOrder[i + 1..];
        i := i + 1;
      }
      if i < |dayOrder| {
        ClearOn(dayOrder[i], id);
      }
    }

    /** Removes an event from the registry and from its iteration order. */
    method Unregister(id: Id)
      modifies this
      ensures days == old(days) && dayOrder == old(dayOrder)
      ensures events == old(events) - {id} && eventOrder == CalendarSpec.RemoveKey(old(eventOrder), id)
      ensures State() == old(State()).(eventOrder := eventOrder, events := old(Records(events)) - {id})
    {
      ghost var before := State();
      RecordsRemove(events, id);
      events, eventOrder := events - {id}, CalendarSpec.RemoveKey(eventOrder, id);
      assert Tables(days) == before.days;
      assert Records(events) == before.events - {id};
    }

    /** Events dated within [from, to], one per date. */
    function FindEvents(from: Date, to: Date): map<Date, seq<EventRecord>>
      reads this, days.Values, events.Values
    {
      CalendarSpec.FindEvents(State(), from, to)
    }

    /** Deletes reminder i of an event; EventNotFound for an unknown id,
        ReminderNotFound for an index out of bounds. */
    method DeleteReminder(id: Id, i: int) returns (out: Outcome)
      requires Valid() && CalendarSpec.WellFormed(State())
      modifies events.Values
      ensures Valid() && CalendarSpec.WellFormed(State())
      ensures (out, State()) == CalendarSpec.DeleteReminder(old(State()), id, i)
    {
      if id !in events {
        return Fail(EventNotFound);
      }
      ghost var st0 := State();
      var event := events[id];
      ghost var before := Records(events);
      out := event.DeleteReminder(i);
      assert Records(events) == before[id := event.Record()] by {
        forall other | other in events && other != id
          ensures events[other].Record() == before[other]
        {
          assert events[other].id != event.id;
        }
      }
      assert (out, State()) == CalendarSpec.DeleteReminder(st0, id, i);
    }

    /** An event's reminders in insertion order; EventNotFound for an unknown id. */
    function ListReminders(id: Id): Result<seq<Reminder>>
      reads this, days.Values, events.Values
    {
      CalendarSpec.ListReminders(State(), id)
    }
  }
}
