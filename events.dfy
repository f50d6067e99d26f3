/**
 * Events and their reminders. An event's descriptive fields never change once it
 * is created; its reminder list is appended to and deleted from in place.
 */
module Events {
  import opened Outcomes
  import opened Days

  /** A reminder's timestamp: an opaque value the core only stores. */
  type DateTime = int

  const Email: string := "email"
  const System: string := "system"

  datatype Reminder = Reminder(dateTime: DateTime, kind: string)

  /** The value of an event: its fields and its reminders, in insertion order. */
  datatype EventRecord = EventRecord(
    id: Id,
    title: string,
    description: string,
    date: Date,
    startAt: Time,
    endAt: Time,
    reminders: seq<Reminder>)

  /** The list with element i taken out and the later ones moved down by one. */
  function RemoveAt<T>(s: seq<T>, i: nat): (r: seq<T>)
    requires i < |s|
    ensures |r| == |s| - 1
    ensures forall j :: 0 <= j < i ==> r[j] == s[j]
    ensures forall j :: i <= j < |r| ==> r[j] == s[j + 1]
  {
    s[..i] + s[i + 1..]
  }

  /** Deleting reminder i: any index outside 0 .. |reminders| - 1, negative ones
      included, raises ReminderNotFound and keeps the list. */
  function DeleteReminderAt(reminders: seq<Reminder>, i: int): (r: (Outcome, seq<Reminder>))
    ensures r.0 == Pass <==> 0 <= i < |reminders|
    ensures r.0 != Pass ==> r == (Fail(ReminderNotFound), reminders)
    ensures r.0 == Pass ==>
              && |r.1| == |reminders| - 1
              && (forall j :: 0 <= j < i ==> r.1[j] == reminders[j])
              && (forall j :: i <= j < |r.1| ==> r.1[j] == reminders[j + 1])
  {
    if 0 <= i < |reminders| then (Pass, RemoveAt(reminders, i))
    else (Fail(ReminderNotFound), reminders)
  }

  /** Deleting the reminder just appended gives back the list as it was. */
  lemma DeleteUndoesAppend(reminders: seq<Reminder>, x: Reminder)
    ensures DeleteReminderAt(reminders + [x], |reminders|) == (Pass, reminders)
  {
    var s := reminders + [x];
    assert s[..|reminders|] == reminders;
    assert s[|reminders| + 1..] == [];
    assert RemoveAt(s, |reminders|) == reminders;
  }

  class Event {
    const id: Id
    const title: string
    const description: string
    const date: Date
    const startAt: Time
    const endAt: Time
    var reminders: seq<Reminder>

    /** A new event with the given fields and no reminders. */
    constructor (title: string, description: string, date: Date, startAt: Time, endAt: Time, id: Id)
      ensures Record() == EventRecord(id, title, description, date, startAt, endAt, [])
    {
      this.id := id;
      this.title := title;
      this.description := description;
      this.date := date;
      this.startAt := startAt;
      this.endAt := endAt;
      this.reminders := [];
    }

    function Record(): EventRecord
      reads this
    {
      EventRecord(id, title, description, date, startAt, endAt, reminders)
    }

    /** Appends a reminder; there is no uniqueness or ordering check. */
    method AddReminder(dateTime: DateTime, kind: string := Email)
      modifies this
      ensures reminders == old(reminders) + [Reminder(dateTime, kind)]
    {
      reminders := reminders + [Reminder(dateTime, kind)];
    }

    /** Deletes reminder i, or raises ReminderNotFound when i is out of bounds. */
    method DeleteReminder(i: int) returns (out: Outcome)
      modifies this
      ensures (out, reminders) == DeleteReminderAt(old(reminders), i)
    {
      if 0 <= i < |reminders| {
        reminders := reminders[..i] + reminders[i + 1..];
        return Pass;
      }
      return Fail(ReminderNotFound);
    }
  }
}
