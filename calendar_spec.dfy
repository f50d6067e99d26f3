/**
 * The calendar as a value: the two registries (date -> day table, id -> event)
 * together with the order in which their keys were first inserted, which is the
 * order the source's dictionaries iterate in. Each operation maps a state to
 * its outcome and the next state; the class Calendar is proved to follow them.
 */
module CalendarSpec {
  import opened Outcomes
  import opened Days
  import opened Events

  datatype State = State(
    dayOrder: seq<Date>,
    days: map<Date, Slots>,
    eventOrder: seq<Id>,
    events: map<Id, EventRecord>)

  function Empty(): State { State([], map[], [], map[]) }

  ghost predicate NoDup<T>(s: seq<T>) {
    forall i, j :: 0 <= i < j < |s| ==> s[i] != s[j]
  }

  /** The order lists exactly the keys of the map. */
  ghost predicate Enumerates<K(!new), V>(order: seq<K>, m: map<K, V>) {
    forall k :: k in order <==> k in m
  }

  /** The shape every reachable state has: the orders list each key once, every
      day has 96 slots, every event is filed under its own id. */
  ghost predicate WellFormed(st: State) {
    && NoDup(st.dayOrder)
    && Enumerates(st.dayOrder, st.days)
    && (forall d | d in st.days :: |st.days[d]| == SlotCount)
    && NoDup(st.eventOrder)
    && Enumerates(st.eventOrder, st.events)
    && (forall id | id in st.events :: st.events[id].id == id)
  }

  /** The slot table of a date; a date without a day is entirely free. */
  function DayOf(st: State, date: Date): Slots {
    if date in st.days then st.days[date] else EmptyDay()
  }

  /** Creates the day of `date` if it is missing, then books [startAt, endAt) there for `id`. */
  function Book(st: State, date: Date, id: Id, startAt: Time, endAt: Time): (r: State)
    ensures WellFormed(st) ==> WellFormed(r)
    ensures r.eventOrder == st.eventOrder && r.events == st.events
    ensures r.dayOrder == if date in st.days then st.dayOrder else st.dayOrder + [date]
    ensures r.days.Keys == st.days.Keys + {date}
    ensures r.days[date] == AfterBooking(DayOf(st, date), id, startAt, endAt)
    ensures forall d | d in st.days && d != date :: r.days[d] == st.days[d]
  {
    var dayOrder := if date in st.days then st.dayOrder else st.dayOrder + [date];
    st.(dayOrder := dayOrder, days := st.days[date := AfterBooking(DayOf(st, date), id, startAt, endAt)])
  }

  /** Files an event under its id; a new id goes to the end of the iteration order. */
  function Register(st: State, e: EventRecord): (r: State)
    ensures WellFormed(st) ==> WellFormed(r)
    ensures r.dayOrder == st.dayOrder && r.days == st.days
    ensures r.eventOrder == if e.id in st.eventOrder then st.eventOrder else st.eventOrder + [e.id]
    ensures r.events == st.events[e.id := e]
  {
    var eventOrder := if e.id in st.eventOrder then st.eventOrder else st.eventOrder + [e.id];
    st.(eventOrder := eventOrder, events := st.events[e.id := e])
  }

  /** The sequence without x, the others kept in order. */
  function RemoveKey(s: seq<Id>, x: Id): (r: seq<Id>)
    ensures forall y :: y in r <==> y in s && y != x
    ensures NoDup(s) ==> NoDup(r)
    ensures x !in s ==> r == s
  {
    if s == [] then []
    else
      var rest := RemoveKey(s[1..], x);
      if s[0] == x then rest
      else
        assert NoDup(s) ==> s[0] !in s[1..];
        [s[0]] + rest
  }

  /** Deleting a key keeps the order of the others: dropping the one x of s, at
      index i, leaves the keys before it followed by the keys after it. */
  lemma {:induction false} RemoveKeyKeepsOrder(s: seq<Id>, x: Id, i: int)
    requires 0 <= i < |s| && s[i] == x
    requires forall j | 0 <= j < |s| && j != i :: s[j] != x
    ensures RemoveKey(s, x) == s[..i] + s[i+1..]
  {
    if i == 0 {
      assert RemoveKey(s, x) == RemoveKey(s[1..], x);
      assert x !in s[1..];
      assert s[..i] + s[i+1..] == s[1..];
    } else {
      var tail := s[1..];
      assert forall j | 0 <= j < |tail| && j != i - 1 :: tail[j] != x by {
        forall j | 0 <= j < |tail| && j != i - 1 ensures tail[j] != x {
          assert tail[j] == s[j + 1];
        }
      }
      RemoveKeyKeepsOrder(tail, x, i - 1);
      calc {
        RemoveKey(s, x);
        [s[0]] + RemoveKey(tail, x);
        [s[0]] + (tail[..i-1] + tail[i..]);
        { assert tail[..i-1] == s[1..i]; assert tail[i..] == s[i+1..]; }
        [s[0]] + (s[1..i] + s[i+1..]);
        { assert [s[0]] + s[1..i] == s[..i]; }
        s[..i] + s[i+1..];
      }
    }
  }

  /** Dropping an id that was appended last gives back the order before. */
  lemma {:induction false} RemoveKeyAppended(s: seq<Id>, x: Id)
    requires x !in s
    ensures RemoveKey(s + [x], x) == s
  {
    if s != [] {
      assert (s + [x])[1..] == s[1..] + [x];
      RemoveKeyAppended(s[1..], x);
    } else {
      assert RemoveKey([x], x) == RemoveKey([], x);
    }
  }

  /** The first day, in iteration order, whose slots hold `id`. */
  function FirstDayWith(order: seq<Date>, days: map<Date, Slots>, id: Id): (r: Option<Date>)
    ensures r.Some? ==> r.value in order && r.value in days && Some(id) in days[r.value]
    ensures r.None? ==> forall d :: d in order && d in days ==> Some(id) !in days[d]
    ensures r.Some? ==> exists j :: (0 <= j < |order| && order[j] == r.value &&
      forall i :: 0 <= i < j ==> !(order[i] in days && Some(id) in days[order[i]]))
  {
    if order == [] then None
    else if order[0] in days && Some(id) in days[order[0]] then
      // names order[0], the witness j = 0 for the "first day" ensures
      assert order[0] == order[0];
      Some(order[0])
    else
      var rest := FirstDayWith(order[1..], days, id);
      assert rest.Some? ==> exists j :: (0 <= j < |order| && order[j] == rest.value &&
        forall i :: 0 <= i < j ==> !(order[i] in days && Some(id) in days[order[i]])) by {
        if rest.Some? {
          var j :| 0 <= j < |order[1..]| && order[1..][j] == rest.value &&
            forall i :: 0 <= i < j ==> !(order[1..][i] in days && Some(id) in days[order[1..][i]]);
          assert order[j + 1] == rest.value;
          forall i | 0 <= i < j + 1
            ensures !(order[i] in days && Some(id) in days[order[i]])
          {
            if i > 0 { assert order[i] == order[1..][i - 1]; }
          }
        }
      }
      rest
  }

  /** Calendar.add_event: refuses past dates, creates the day lazily, books the
      slots (keeping a partial booking when refused) and only then registers the event. */
  function AddEvent(st: State, title: string, description: string, date: Date,
                    startAt: Time, endAt: Time, today: Date, id: Id): (r: (Result<Id>, State))
    ensures WellFormed(st) ==> WellFormed(r.1)
    ensures r.0 == Err(DateLowerThanToday) <==> date < today
    ensures date < today ==> r.1 == st
    ensures r.0.Ok? <==> date >= today && BookingOk(DayOf(st, date), startAt, endAt)
    ensures date >= today && !BookingOk(DayOf(st, date), startAt, endAt) ==> r.0 == Err(SlotNotAvailable)
    ensures r.0.Ok? ==>
              && r.0.value == id
              && r.1.events == st.events[id := EventRecord(id, title, description, date, startAt, endAt, [])]
              && r.1.eventOrder == if id in st.eventOrder then st.eventOrder else st.eventOrder + [id]
    ensures date >= today ==> r.1.dayOrder == if date in st.days then st.dayOrder else st.dayOrder + [date]
    ensures !r.0.Ok? ==> r.1.events == st.events && r.1.eventOrder == st.eventOrder
    ensures date >= today ==>
              && date in r.1.days
              && r.1.days[date] == AfterBooking(DayOf(st, date), id, startAt, endAt)
              && forall d | d in st.days && d != date :: d in r.1.days && r.1.days[d] == st.days[d]
  {
    if date < today then (Err(DateLowerThanToday), st)
    else
      var booked := Book(st, date, id, startAt, endAt);
      if BookingOk(DayOf(st, date), startAt, endAt) then
        (Ok(id), Register(booked, EventRecord(id, title, description, date, startAt, endAt, [])))
      else
        (Err(SlotNotAvailable), booked)
  }

  /** Calendar.delete_event: unregisters the event, then frees its slots on the
      first day (in iteration order) that holds it, if any. */
  function DeleteEvent(st: State, id: Id): (r: (Outcome, State))
    ensures WellFormed(st) ==> WellFormed(r.1)
    ensures r.0 == Fail(EventNotFound) <==> id !in st.events
    ensures id !in st.events ==> r.1 == st
    ensures id in st.events ==>
              && r.0 == Pass
              && r.1.events == st.events - {id}
              && r.1.eventOrder == RemoveKey(st.eventOrder, id)
              && r.1.dayOrder == st.dayOrder && r.1.days.Keys == st.days.Keys
              && forall d | d in st.days :: r.1.days[d] == st.days[d] || r.1.days[d] == Cleared(st.days[d], id)
  {
    if id !in st.events then (Fail(EventNotFound), st)
    else
      var st1 := st.(eventOrder := RemoveKey(st.eventOrder, id), events := st.events - {id});
      match FirstDayWith(st1.dayOrder, st1.days, id)
      case None => (Pass, st1)
      case Some(d) => (Pass, st1.(days := st1.days[d := Cleared(st1.days[d], id)]))
  }

  /** delete_event frees the first day, in iteration order, that holds the id,
      from every slot holding it, and changes no other day. */
  lemma DeleteEventFreesFirstDay(st: State, id: Id)
    requires id in st.events
    ensures var r := DeleteEvent(st, id).1;
      && (forall d | d in st.days && r.days[d] != st.days[d] :: FirstDayWith(st.dayOrder, st.days, id) == Some(d))
      && (FirstDayWith(st.dayOrder, st.days, id).Some? ==>
            var d := FirstDayWith(st.dayOrder, st.days, id).value;
            r.days[d] == Cleared(st.days[d], id) && Some(id) !in r.days[d])
  {
  }

  /** Calendar.update_event: deletes the event, files a replacement under the same
      id with no reminders, then creates the day lazily and books the new slots. */
  function UpdateEvent(st: State, id: Id, title: string, description: string, date: Date,
                       startAt: Time, endAt: Time): (r: (Outcome, State))
    ensures WellFormed(st) ==> WellFormed(r.1)
    ensures r.0 == Fail(EventNotFound) <==> id !in st.events
    ensures id !in st.events ==> r.1 == st
    ensures id in st.events ==>
      && id in r.1.events
      && r.1.events[id] == EventRecord(id, title, description, date, startAt, endAt, [])
      && date in r.1.days
    ensures id in st.events ==>
      var freed := DeleteEvent(st, id).1;
      && r.0 == (if BookingOk(DayOf(freed, date), startAt, endAt) then Pass else Fail(SlotNotAvailable))
      && r.1.days.Keys == freed.days.Keys + {date}
      && r.1.days[date] == AfterBooking(DayOf(freed, date), id, startAt, endAt)
      && (forall d | d in freed.days && d != date :: r.1.days[d] == freed.days[d])
      && r.1.dayOrder == (if date in freed.days then freed.dayOrder else freed.dayOrder + [date])
      && r.1.events == freed.events[id := EventRecord(id, title, description, date, startAt, endAt, [])]
      && r.1.eventOrder == RemoveKey(st.eventOrder, id) + [id]
  {
    if id !in st.events then (Fail(EventNotFound), st)
    else
      var st1 := DeleteEvent(st, id).1;
      var st2 := Register(st1, EventRecord(id, title, description, date, startAt, endAt, []));
      var out := if BookingOk(DayOf(st2, date), startAt, endAt) then Pass else Fail(SlotNotAvailable);
      (out, Book(st2, date, id, startAt, endAt))
  }

  /** Calendar.add_reminder. */
  function AddReminder(st: State, id: Id, dateTime: DateTime, kind: string := Email): (r: (Outcome, State))
    ensures WellFormed(st) ==> WellFormed(r.1)
    ensures id !in st.events ==> r == (Fail(EventNotFound), st)
    ensures id in st.events ==>
              && r.0 == Pass
              && r.1 == st.(events := st.events[id := st.events[id].(reminders := st.events[id].reminders + [Reminder(dateTime, kind)])])
  {
    if id !in st.events then (Fail(EventNotFound), st)
    else
      var e := st.events[id];
      (Pass, st.(events := st.events[id := e.(reminders := e.reminders + [Reminder(dateTime, kind)])]))
  }

  /** Calendar.delete_reminder: EventNotFound first, then the event's own index check. */
  function DeleteReminder(st: State, id: Id, i: int): (r: (Outcome, State))
    ensures WellFormed(st) ==> WellFormed(r.1)
    ensures id !in st.events ==> r == (Fail(EventNotFound), st)
    ensures id in st.events ==> r.0 != Fail(EventNotFound)
    ensures r.0 != Pass ==> r.1 == st
    ensures r.0 == Pass <==> id in st.events && 0 <= i < |st.events[id].reminders|
    ensures r.0 == Pass ==>
              && r.1.dayOrder == st.dayOrder && r.1.days == st.days && r.1.eventOrder == st.eventOrder
              && r.1.events.Keys == st.events.Keys
              && (forall x | x in st.events && x != id :: r.1.events[x] == st.events[x])
              && r.1.events[id].reminders == RemoveAt(st.events[id].reminders, i)
    ensures r.0 == Pass ==>
              r.1 == st.(events := st.events[id := st.events[id].(reminders := RemoveAt(st.events[id].reminders, i))])
  {
    if id !in st.events then (Fail(EventNotFound), st)
    else
      var e := st.events[id];
      var (out, reminders) := DeleteReminderAt(e.reminders, i);
      (out, st.(events := st.events[id := e.(reminders := reminders)]))
  }

  /** Calendar.list_reminders. */
  function ListReminders(st: State, id: Id): (r: Result<seq<Reminder>>)
    ensures r.Err? <==> id !in st.events
    ensures r.Err? ==> r.error == EventNotFound
    ensures r.Ok? ==> r.value == st.events[id].reminders
  {
    if id !in st.events then Err(EventNotFound) else Ok(st.events[id].reminders)
  }

  /** Calendar.find_available_slots: every canonical slot for a date without a day,
      else the day's free slots, in ascending time order. */
  function FindAvailableSlots(st: State, date: Date): (r: seq<Time>)
    ensures date !in st.days ==> |r| == SlotCount && forall k :: 0 <= k < |r| ==> r[k] == SlotTime(k)
    ensures date in st.days ==> forall k :: 0 <= k < |st.days[date]| ==>
      (SlotTime(k) in r <==> st.days[date][k] == None)
    ensures date in st.days ==> forall t :: t in r ==> t % SlotMinutes == 0 && 0 <= t < SlotTime(|st.days[date]|)
    ensures forall i, j :: 0 <= i < j < |r| ==> r[i] < r[j]
  {
    if date !in st.days then CanonicalSlotTimes() else FreeSlotTimes(st.days[date])
  }

  /** Some event in the iteration order lies on date d, within [from, to]. */
  ghost predicate Listed(order: seq<Id>, events: map<Id, EventRecord>, from: Date, to: Date, d: Date) {
    exists j :: 0 <= j < |order| && order[j] in events && events[order[j]].date == d && from <= d <= to
  }

  /** The dictionary comprehension of find_events, built in iteration order: each
      event in range is written under its date, overwriting what was there. */
  function Collect(order: seq<Id>, events: map<Id, EventRecord>, from: Date, to: Date)
    : (r: map<Date, seq<EventRecord>>)
    ensures forall d :: d in r <==> Listed(order, events, from, to, d)
    ensures forall d | d in r :: |r[d]| == 1 && r[d][0].date == d && r[d][0] in events.Values
  {
    if order == [] then map[]
    else
      var prefix := order[..|order| - 1];
      var acc := Collect(prefix, events, from, to);
      var id := order[|order| - 1];
      assert forall j :: 0 <= j < |prefix| ==> prefix[j] == order[j];
      assert forall d :: Listed(order, events, from, to, d) ==>
        Listed(prefix, events, from, to, d) || (id in events && events[id].date == d && from <= d <= to);
      if id in events && from <= events[id].date <= to then
        acc[events[id].date := [events[id]]]
      else acc
  }

  /** Calendar.find_events: one event per date in [from, to]. */
  function FindEvents(st: State, from: Date, to: Date): (r: map<Date, seq<EventRecord>>)
    ensures forall d | d in r :: from <= d <= to
    ensures forall d | d in r :: |r[d]| == 1 && r[d][0].date == d && r[d][0] in st.events.Values
  {
    var r := Collect(st.eventOrder, st.events, from, to);
    assert forall d | d in r :: Listed(st.eventOrder, st.events, from, to, d);
    r
  }

  /** The dates find_events reports are exactly the dates in [from, to] of
      registered events. */
  lemma FindEventsDates(st: State, from: Date, to: Date)
    requires WellFormed(st)
    ensures forall d :: d in FindEvents(st, from, to) <==>
      exists id :: id in st.events && st.events[id].date == d && from <= d <= to
  {
    forall d
      ensures d in FindEvents(st, from, to) <==>
        exists id :: id in st.events && st.events[id].date == d && from <= d <= to
    {
      if exists id :: id in st.events && st.events[id].date == d && from <= d <= to {
        var id :| id in st.events && st.events[id].date == d && from <= d <= to;
        assert id in st.eventOrder;
        var j :| 0 <= j < |st.eventOrder| && st.eventOrder[j] == id;
        assert Listed(st.eventOrder, st.events, from, to, d);
      }
    }
  }

  /** Which event find_events keeps for a date: the last one in iteration order,
      so an earlier event on the same date is dropped. */
  lemma {:induction false} FindEventsKeepsLast(order: seq<Id>, events: map<Id, EventRecord>,
                                               from: Date, to: Date, m: nat)
    requires m < |order| && order[m] in events && from <= events[order[m]].date <= to
    requires forall j :: m < j < |order| && order[j] in events ==>
      events[order[j]].date != events[order[m]].date
    ensures Collect(order, events, from, to)[events[order[m]].date] == [events[order[m]]]
  {
    var last := |order| - 1;
    if m < last {
      var prefix := order[..last];
      assert forall j :: m < j < |prefix| ==> prefix[j] == order[j];
      FindEventsKeepsLast(prefix, events, from, to, m);
    }
  }

  // ---------------------------------------------------------------------------
  // The registries' consistency
  // ---------------------------------------------------------------------------

  /** Slot k of day d holds `id`. */
  ghost predicate Holds(st: State, d: Date, k: int, id: Id) {
    d in st.days && 0 <= k < |st.days[d]| && st.days[d][k] == Some(id)
  }

  /** The intended relation between the registries: every booked id is a
      registered event, every event's date has a day, and the slots holding an
      event are exactly those of [startAt, endAt) on its date. */
  ghost predicate Consistent(st: State) {
    && WellFormed(st)
    && (forall id | id in st.events :: st.events[id].date in st.days)
    && (forall d, k, id | Holds(st, d, k, id) :: id in st.events)
    && (forall d, k, id | d in st.days && 0 <= k < SlotCount && id in st.events ::
          Holds(st, d, k, id) <==>
          d == st.events[id].date && InRange(k, st.events[id].startAt, st.events[id].endAt))
  }

  lemma EmptyConsistent()
    ensures Consistent(Empty())
  {
  }
}
