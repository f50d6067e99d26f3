/**
 * What the calendar operations guarantee across calls: which operations keep
 * the registries consistent (and which do not), and the round trips.
 */
module CalendarProps {
  import opened Outcomes
  import opened Days
  import opened Events
  import opened CalendarSpec

  /** Booking a free range for an unknown id and registering its event keeps the
      registries consistent. */
  lemma BookRegisterKeepsConsistent(st: State, e: EventRecord)
    requires Consistent(st)
    requires e.id !in st.events
    requires BookingOk(DayOf(st, e.date), e.startAt, e.endAt)
    ensures Consistent(Register(Book(st, e.date, e.id, e.startAt, e.endAt), e))
  {
    var st' := Register(Book(st, e.date, e.id, e.startAt, e.endAt), e);
    var before := DayOf(st, e.date);
    assert |before| == SlotCount;
    forall d, k | d in st.days && 0 <= k < |st.days[d]|
      ensures st.days[d][k] != Some(e.id)
    {
      assert !Holds(st, d, k, e.id);
    }
    forall d, k, id | Holds(st', d, k, id)
      ensures id in st'.events
    {
      if d != e.date || !InRange(k, e.startAt, e.endAt) {
        assert Holds(st, d, k, id);
      }
    }
    forall d, k, id | d in st'.days && 0 <= k < SlotCount && id in st'.events
      ensures Holds(st', d, k, id) <==>
        d == st'.events[id].date && InRange(k, st'.events[id].startAt, st'.events[id].endAt)
    {
      if id != e.id {
        assert st'.events[id] == st.events[id];
        if d == e.date {
          assert st'.days[d][k] == if InRange(k, e.startAt, e.endAt) then Some(e.id) else before[k];
          if d !in st.days {
            assert before[k] == None;
            assert st.events[id].date in st.days;
          } else {
            assert Holds(st, d, k, id) <==> before[k] == Some(id);
          }
        } else {
          assert st'.days[d] == st.days[d];
          assert Holds(st', d, k, id) <==> Holds(st, d, k, id);
        }
      } else if d != e.date {
        assert st'.days[d] == st.days[d];
      }
    }
  }

  /** A successful add_event with a fresh id keeps the registries consistent. */
  lemma AddEventKeepsConsistent(st: State, title: string, description: string, date: Date,
                                startAt: Time, endAt: Time, today: Date, id: Id)
    requires Consistent(st)
    requires id !in st.events
    requires AddEvent(st, title, description, date, startAt, endAt, today, id).0.Ok?
    ensures Consistent(AddEvent(st, title, description, date, startAt, endAt, today, id).1)
  {
    BookRegisterKeepsConsistent(st, EventRecord(id, title, description, date, startAt, endAt, []));
  }

  /** On a consistent calendar the scan for "the first day holding the id" finds
      the event's own date, so delete_event frees the event on every day. */
  lemma DeleteClearsEveryDay(st: State, id: Id)
    requires Consistent(st)
    requires id in st.events
    ensures forall d | d in st.days :: DeleteEvent(st, id).1.days[d] == Cleared(st.days[d], id)
  {
    var e := st.events[id];
    forall d | d in st.days && d != e.date
      ensures Some(id) !in st.days[d]
    {
      if Some(id) in st.days[d] {
        var k :| 0 <= k < |st.days[d]| && st.days[d][k] == Some(id);
        assert Holds(st, d, k, id);
      }
    }
    forall d | d in st.days && d != e.date
      ensures DeleteEvent(st, id).1.days[d] == Cleared(st.days[d], id)
    {
      ClearedAbsent(st.days[d], id);
    }
    var found := FirstDayWith(st.dayOrder, st.days, id);
    if found.None? {
      assert e.date in st.dayOrder;
      ClearedAbsent(st.days[e.date], id);
    }
  }

  /** delete_event keeps a consistent calendar consistent, whatever the id. */
  lemma DeleteEventKeepsConsistent(st: State, id: Id)
    requires Consistent(st)
    ensures Consistent(DeleteEvent(st, id).1)
  {
    if id in st.events {
      DeleteClearsEveryDay(st, id);
      var st' := DeleteEvent(st, id).1;
      forall d, k, other | Holds(st', d, k, other)
        ensures other in st'.events
      {
        assert Holds(st, d, k, other);
      }
      forall d, k, other | d in st'.days && 0 <= k < SlotCount && other in st'.events
        ensures Holds(st', d, k, other) <==>
          d == st'.events[other].date && InRange(k, st'.events[other].startAt, st'.events[other].endAt)
      {
        assert Holds(st', d, k, other) <==> Holds(st, d, k, other);
      }
    }
  }

  /** A successful update_event keeps the registries consistent. */
  lemma UpdateEventKeepsConsistent(st: State, id: Id, title: string, description: string,
                                   date: Date, startAt: Time, endAt: Time)
    requires Consistent(st)
    requires UpdateEvent(st, id, title, description, date, startAt, endAt).0 == Pass
    ensures Consistent(UpdateEvent(st, id, title, description, date, startAt, endAt).1)
  {
    var e := EventRecord(id, title, description, date, startAt, endAt, []);
    var st1 := DeleteEvent(st, id).1;
    DeleteEventKeepsConsistent(st, id);
    assert Book(Register(st1, e), date, id, startAt, endAt) == Register(Book(st1, date, id, startAt, endAt), e);
    BookRegisterKeepsConsistent(st1, e);
  }

  /** A change that leaves the days and every event's id, date and times alone
      keeps the registries consistent. */
  lemma SameBookingsKeepConsistent(st: State, st': State)
    requires Consistent(st)
    requires st'.dayOrder == st.dayOrder && st'.days == st.days
    requires st'.eventOrder == st.eventOrder && st'.events.Keys == st.events.Keys
    requires forall x | x in st.events ::
      && st'.events[x].id == st.events[x].id
      && st'.events[x].date == st.events[x].date
      && st'.events[x].startAt == st.events[x].startAt
      && st'.events[x].endAt == st.events[x].endAt
    ensures Consistent(st')
  {
    assert forall d, k, x :: Holds(st', d, k, x) <==> Holds(st, d, k, x);
  }

  /** add_reminder touches no slot and no event's date or times. */
  lemma AddReminderKeepsConsistent(st: State, id: Id, dateTime: DateTime, kind: string)
    requires Consistent(st)
    ensures Consistent(AddReminder(st, id, dateTime, kind).1)
  {
    SameBookingsKeepConsistent(st, AddReminder(st, id, dateTime, kind).1);
  }

  /** delete_reminder touches no slot and no event's date or times. */
  lemma DeleteReminderKeepsConsistent(st: State, id: Id, i: int)
    requires Consistent(st)
    ensures Consistent(DeleteReminder(st, id, i).1)
  {
    SameBookingsKeepConsistent(st, DeleteReminder(st, id, i).1);
  }

  /** The consistency the registries are meant to keep fails after a refused
      booking: the slots written before the conflict keep an id that never
      reaches the event registry. */
  lemma RefusedBookingLeavesDanglingId(st: State, title: string, description: string, date: Date,
                                       startAt: Time, endAt: Time, today: Date, id: Id, k: nat)
    requires id !in st.events
    requires date >= today
    requires k < FirstConflict(DayOf(st, date), startAt, endAt, 0) < |DayOf(st, date)|
    requires InRange(k, startAt, endAt)
    ensures AddEvent(st, title, description, date, startAt, endAt, today, id).0 == Err(SlotNotAvailable)
    ensures Holds(AddEvent(st, title, description, date, startAt, endAt, today, id).1, date, k, id)
    ensures !Consistent(AddEvent(st, title, description, date, startAt, endAt, today, id).1)
  {
    var r := AddEvent(st, title, description, date, startAt, endAt, today, id);
    assert !BookingOk(DayOf(st, date), startAt, endAt);
    assert r.1.days[date][k] == Some(id);
    assert Holds(r.1, date, k, id);
  }

  /** On a consistent calendar a range that overlaps a slot of an existing
      event on the same date is refused. */
  lemma OverlapRefused(st: State, other: Id, title: string, description: string,
                       startAt: Time, endAt: Time, today: Date, id: Id, k: nat)
    requires Consistent(st)
    requires other in st.events
    requires st.events[other].date >= today
    requires k < SlotCount
    requires InRange(k, st.events[other].startAt, st.events[other].endAt)
    requires InRange(k, startAt, endAt)
    ensures AddEvent(st, title, description, st.events[other].date, startAt, endAt, today, id).0
            == Err(SlotNotAvailable)
  {
    var date := st.events[other].date;
    assert Holds(st, date, k, other);
    assert DayOf(st, date)[k] == Some(other);
  }

  /** add_event followed by delete_event of the new id gives back the event
      registry and the free slots of every date. */
  lemma AddThenDeleteRestores(st: State, title: string, description: string, date: Date,
                              startAt: Time, endAt: Time, today: Date, id: Id)
    requires Consistent(st)
    requires id !in st.events
    requires AddEvent(st, title, description, date, startAt, endAt, today, id).0.Ok?
    ensures var st1 := AddEvent(st, title, description, date, startAt, endAt, today, id).1;
      && DeleteEvent(st1, id).0 == Pass
      && DeleteEvent(st1, id).1.events == st.events
      && DeleteEvent(st1, id).1.eventOrder == st.eventOrder
      && forall d :: FindAvailableSlots(DeleteEvent(st1, id).1, d) == FindAvailableSlots(st, d)
  {
    var st2 := DeleteEvent(AddEvent(st, title, description, date, startAt, endAt, today, id).1, id).1;
    UnknownIdHoldsNoSlot(st, id);
    AddThenDeleteRestoresRegistry(st, title, description, date, startAt, endAt, today, id);
    AddThenDeleteRestoresDays(st, title, description, date, startAt, endAt, today, id);
    forall d
      ensures FindAvailableSlots(st2, d) == FindAvailableSlots(st, d)
    {
      if d in st2.days && d !in st.days {
        FreshDayAllFree();
      }
    }
  }

  /** On a consistent calendar an id missing from the event registry holds no slot. */
  lemma UnknownIdHoldsNoSlot(st: State, id: Id)
    requires Consistent(st)
    requires id !in st.events
    ensures forall d | d in st.days :: Some(id) !in st.days[d]
  {
    forall d | d in st.days
      ensures Some(id) !in st.days[d]
    {
      if Some(id) in st.days[d] {
        var k :| 0 <= k < |st.days[d]| && st.days[d][k] == Some(id);
        assert Holds(st, d, k, id);
      }
    }
  }

  /** The event registry and its order after add_event then delete_event of the new id. */
  lemma AddThenDeleteRestoresRegistry(st: State, title: string, description: string, date: Date,
                                      startAt: Time, endAt: Time, today: Date, id: Id)
    requires WellFormed(st)
    requires id !in st.events
    requires AddEvent(st, title, description, date, startAt, endAt, today, id).0.Ok?
    ensures var st1 := AddEvent(st, title, description, date, startAt, endAt, today, id).1;
      && DeleteEvent(st1, id).0 == Pass
      && DeleteEvent(st1, id).1.events == st.events
      && DeleteEvent(st1, id).1.eventOrder == st.eventOrder
  {
    var st1 := AddEvent(st, title, description, date, startAt, endAt, today, id).1;
    assert st1.eventOrder == st.eventOrder + [id];
    RemoveKeyAppended(st.eventOrder, id);
    assert st1.events - {id} == st.events;
  }

  /** add_event then delete_event of an id that held no slot leaves every day as
      it was, and the day add_event created (if any) all free. */
  lemma AddThenDeleteRestoresDays(st: State, title: string, description: string, date: Date,
                                  startAt: Time, endAt: Time, today: Date, id: Id)
    requires WellFormed(st)
    requires forall d | d in st.days :: Some(id) !in st.days[d]
    requires AddEvent(st, title, description, date, startAt, endAt, today, id).0.Ok?
    ensures var st2 := DeleteEvent(AddEvent(st, title, description, date, startAt, endAt, today, id).1, id).1;
      && st2.days.Keys == st.days.Keys + {date}
      && forall d | d in st2.days :: st2.days[d] == DayOf(st, d)
  {
    var st1 := AddEvent(st, title, description, date, startAt, endAt, today, id).1;
    var before := DayOf(st, date);
    assert Some(id) !in before;
    ClearUndoesBooking(before, id, startAt, endAt);
    assert st1.days == st.days[date := AfterBooking(before, id, startAt, endAt)];
    DeleteFreesOnlyDay(st1, id, date);
  }

  /** When only one filed day can hold the id, delete_event frees that day and
      changes no other. */
  lemma DeleteFreesOnlyDay(st: State, id: Id, date: Date)
    requires WellFormed(st)
    requires id in st.events && date in st.days
    requires forall d | d in st.days && d != date :: Some(id) !in st.days[d]
    ensures DeleteEvent(st, id).1.days == st.days[date := Cleared(st.days[date], id)]
  {
    assert date in st.dayOrder;
    var found := FirstDayWith(st.dayOrder, st.days, id);
    if found.None? {
      ClearedAbsent(st.days[date], id);
    }
  }

  /** An event whose end is not after its start books no slot: add_event accepts it
      whatever the day holds, and delete_event then finds no day holding it and
      changes no day. */
  lemma EmptyRangeEventHoldsNoSlot(st: State, title: string, description: string, date: Date,
                                   startAt: Time, endAt: Time, today: Date, id: Id)
    requires Consistent(st)
    requires id !in st.events
    requires date >= today
    requires endAt <= startAt
    ensures var st1 := AddEvent(st, title, description, date, startAt, endAt, today, id).1;
      && AddEvent(st, title, description, date, startAt, endAt, today, id).0 == Ok(id)
      && (forall d | d in st1.days :: Some(id) !in st1.days[d])
      && DeleteEvent(st1, id).0 == Pass
      && DeleteEvent(st1, id).1.days == st1.days
  {
    var st1 := AddEvent(st, title, description, date, startAt, endAt, today, id).1;
    UnknownIdHoldsNoSlot(st, id);
    EmptyRangeBooksNothing(DayOf(st, date), id, startAt, endAt);
    assert Some(id) !in DayOf(st, date);
    assert forall d | d in st1.days :: Some(id) !in st1.days[d];
    assert FirstDayWith(st1.dayOrder, st1.days, id).None?;
  }

  /** list_reminders after add_reminder ends with the new reminder. */
  lemma AddReminderThenList(st: State, id: Id, dateTime: DateTime, kind: string)
    requires id in st.events
    ensures var rs := ListReminders(AddReminder(st, id, dateTime, kind).1, id);
      && rs.Ok?
      && rs.value == st.events[id].reminders + [Reminder(dateTime, kind)]
      && rs.value[|rs.value| - 1] == Reminder(dateTime, kind)
  {
  }

  /** delete_reminder of the reminder just added gives back the calendar as it was. */
  lemma AddThenDeleteReminder(st: State, id: Id, dateTime: DateTime, kind: string)
    requires id in st.events
    ensures var n := |st.events[id].reminders|;
      DeleteReminder(AddReminder(st, id, dateTime, kind).1, id, n) == (Pass, st)
  {
    var e := st.events[id];
    var st1 := AddReminder(st, id, dateTime, kind).1;
    var e1 := st1.events[id];
    assert e1 == e.(reminders := e.reminders + [Reminder(dateTime, kind)]);
    DeleteUndoesAppend(e.reminders, Reminder(dateTime, kind));
    assert DeleteReminderAt(e1.reminders, |e.reminders|) == (Pass, e.reminders);
    assert e1.(reminders := e.reminders) == e;
    assert st1.events[id := e] == st.events;
    assert st1.(events := st.events) == st;
  }
}
