/**
 * One calendar date's occupancy table: 96 quarter-hour slots, each free (None)
 * or holding the id of the event that booked it. Slot k starts at minute 15 * k
 * after midnight; the table is kept in ascending time order, the order in which
 * the slots are created and iterated.
 */
module Days {
  import opened Outcomes

  type Id = string
  /** Calendar dates, as day numbers in calendar order. */
  type Date = int
  /** Times of day, in minutes after midnight. */
  type Time = int
  type Slots = seq<Option<Id>>

  const SlotsPerHour: nat := 4
  const SlotMinutes: nat := 15
  const SlotCount: nat := 24 * SlotsPerHour

  /** The start time of slot k. */
  function SlotTime(k: int): Time { SlotMinutes * k }

  /** Slot k lies in the half-open booking range [startAt, endAt). */
  predicate InRange(k: int, startAt: Time, endAt: Time) {
    startAt <= SlotTime(k) < endAt
  }

  /** A freshly created day: every slot free. */
  function EmptyDay(): Slots { seq(SlotCount, _ => None) }

  /** The canonical slot times, hour by hour and quarter by quarter. */
  function CanonicalSlotTimes(): (r: seq<Time>)
    ensures |r| == SlotCount
    ensures forall k :: 0 <= k < |r| ==> r[k] == SlotTime(k)
  {
    seq(24 * SlotsPerHour, k requires 0 <= k < 24 * SlotsPerHour =>
      60 * (k / SlotsPerHour) + SlotMinutes * (k % SlotsPerHour))
  }

  /** The first slot from `from` on that lies in the range and is already taken,
      or |slots| when there is none: where booking stops with SlotNotAvailable. */
  function FirstConflict(slots: Slots, startAt: Time, endAt: Time, from: nat): (c: nat)
    requires from <= |slots|
    ensures from <= c <= |slots|
    ensures c < |slots| ==> InRange(c, startAt, endAt) && slots[c].Some?
    ensures forall k :: from <= k < c ==> !InRange(k, startAt, endAt) || slots[k] == None
    decreases |slots| - from
  {
    if from == |slots| then from
    else if InRange(from, startAt, endAt) && slots[from].Some? then from
    else FirstConflict(slots, startAt, endAt, from + 1)
  }

  /** Booking [startAt, endAt) succeeds exactly when every slot of the range is free,
      whoever holds an occupied one (the event's own id included). */
  function BookingOk(slots: Slots, startAt: Time, endAt: Time): (ok: bool)
    ensures ok <==> forall k :: 0 <= k < |slots| && InRange(k, startAt, endAt) ==> slots[k] == None
  {
    FirstConflict(slots, startAt, endAt, 0) == |slots|
  }

  /** The table after the slots in range below `upto` have been given to `id`. */
  function BookedUpTo(slots: Slots, id: Id, startAt: Time, endAt: Time, upto: int): Slots {
    seq(|slots|, k requires 0 <= k < |slots| =>
      if k < upto && InRange(k, startAt, endAt) then Some(id) else slots[k])
  }

  /** The table after a booking of [startAt, endAt) for `id`, successful or not:
      the slots are visited in ascending order and written one by one, and a
      refused booking keeps the slots it wrote before the conflict. */
  function AfterBooking(slots: Slots, id: Id, startAt: Time, endAt: Time): (r: Slots)
    ensures |r| == |slots|
    ensures BookingOk(slots, startAt, endAt) ==>
      forall k :: 0 <= k < |r| ==> r[k] == if InRange(k, startAt, endAt) then Some(id) else slots[k]
    ensures var c := FirstConflict(slots, startAt, endAt, 0);
      && (forall k :: 0 <= k < c && InRange(k, startAt, endAt) ==> slots[k] == None && r[k] == Some(id))
      && (forall k :: c <= k < |r| ==> r[k] == slots[k])
      && (forall k :: 0 <= k < |r| && !InRange(k, startAt, endAt) ==> r[k] == slots[k])
  {
    BookedUpTo(slots, id, startAt, endAt, FirstConflict(slots, startAt, endAt, 0))
  }

  /** The table after every slot holding `id` below `upto` has been freed. */
  function ClearedUpTo(slots: Slots, id: Id, upto: int): Slots {
    seq(|slots|, k requires 0 <= k < |slots| =>
      if k < upto && slots[k] == Some(id) then None else slots[k])
  }

  /** The table after every slot holding `id` has been freed. */
  function Cleared(slots: Slots, id: Id): (r: Slots)
    ensures |r| == |slots|
    ensures Some(id) !in r
    ensures forall k :: 0 <= k < |r| ==> (r[k] == None <==> slots[k] == None || slots[k] == Some(id))
    ensures forall k :: 0 <= k < |r| && r[k] != None ==> r[k] == slots[k]
  {
    ClearedUpTo(slots, id, |slots|)
  }

  /** The free slots from `from` on, in ascending order. */
  function FreeFrom(slots: Slots, from: nat): (r: seq<nat>)
    requires from <= |slots|
    ensures forall j :: 0 <= j < |r| ==> from <= r[j] < |slots| && slots[r[j]] == None
    ensures forall k :: from <= k < |slots| && slots[k] == None ==> k in r
    ensures forall i, j :: 0 <= i < j < |r| ==> r[i] < r[j]
    decreases |slots| - from
  {
    if from == |slots| then []
    else if slots[from] == None then [from] + FreeFrom(slots, from + 1)
    else FreeFrom(slots, from + 1)
  }

  /** The start times of the free slots of a day, in ascending order. */
  function FreeSlotTimes(slots: Slots): (r: seq<Time>)
    ensures forall k :: 0 <= k < |slots| ==> (SlotTime(k) in r <==> slots[k] == None)
    ensures forall t :: t in r ==> t % SlotMinutes == 0 && 0 <= t < SlotTime(|slots|)
    ensures forall i, j :: 0 <= i < j < |r| ==> r[i] < r[j]
  {
    var free := FreeFrom(slots, 0);
    var r := seq(|free|, j requires 0 <= j < |free| => SlotTime(free[j]));
    FreeTimesOfFreeSlots(slots, free, r);
    FreeTimesOrdered(slots, free, r);
    r
  }

  lemma FreeTimesOrdered(slots: Slots, free: seq<nat>, r: seq<Time>)
    requires free == FreeFrom(slots, 0)
    requires |r| == |free| && forall j :: 0 <= j < |r| ==> r[j] == SlotTime(free[j])
    ensures forall t :: t in r ==> t % SlotMinutes == 0 && 0 <= t < SlotTime(|slots|)
    ensures forall i, j :: 0 <= i < j < |r| ==> r[i] < r[j]
  {
    forall t | t in r
      ensures t % SlotMinutes == 0 && 0 <= t < SlotTime(|slots|)
    {
      var j :| 0 <= j < |r| && r[j] == t;
      SlotTimeAligned(free[j]);
      SlotTimeBelow(free[j], |slots|);
    }
    forall i, j | 0 <= i < j < |r|
      ensures r[i] < r[j]
    {
      SlotTimeBelow(free[i], free[j]);
    }
  }

  lemma SlotTimeAligned(k: int)
    ensures SlotTime(k) % SlotMinutes == 0
  {
  }

  lemma SlotTimeBelow(a: int, b: int)
    requires a < b
    ensures SlotTime(a) < SlotTime(b)
  {
  }

  lemma FreeTimesOfFreeSlots(slots: Slots, free: seq<nat>, r: seq<Time>)
    requires free == FreeFrom(slots, 0)
    requires |r| == |free| && forall j :: 0 <= j < |r| ==> r[j] == SlotTime(free[j])
    ensures forall k :: 0 <= k < |slots| ==> (SlotTime(k) in r <==> slots[k] == None)
  {
    forall k | 0 <= k < |slots|
      ensures SlotTime(k) in r <==> slots[k] == None
    {
      if slots[k] == None {
        var j :| 0 <= j < |free| && free[j] == k;
        assert r[j] == SlotTime(k);
      }
    }
  }

  lemma {:induction false} FreeFromEmptyDay(from: nat)
    requires from <= SlotCount
    ensures FreeFrom(EmptyDay(), from) == seq(SlotCount - from, j => from + j)
    decreases SlotCount - from
  {
    if from < SlotCount {
      var day := EmptyDay();
      assert day[from] == None;
      FreeFromEmptyDay(from + 1);
      var tail := seq(SlotCount - (from + 1), j => from + 1 + j);
      var whole := seq(SlotCount - from, j => from + j);
      calc {
        FreeFrom(day, from);
        [from] + FreeFrom(day, from + 1);
        [from] + tail;
        { assert forall j :: 0 <= j < |whole| ==> ([from] + tail)[j] == whole[j]; }
        whole;
      }
    }
  }

  /** A fresh day offers exactly the canonical slots, in the canonical order. */
  lemma FreshDayAllFree()
    ensures FreeSlotTimes(EmptyDay()) == CanonicalSlotTimes()
  {
    FreeFromEmptyDay(0);
  }

  /** Freeing an event's slots gives back exactly the table it was booked into,
      when the booking succeeded and the id was not on the table before. */
  lemma ClearUndoesBooking(slots: Slots, id: Id, startAt: Time, endAt: Time)
    requires Some(id) !in slots
    requires BookingOk(slots, startAt, endAt)
    ensures Cleared(AfterBooking(slots, id, startAt, endAt), id) == slots
  {
    var booked := AfterBooking(slots, id, startAt, endAt);
    var r := Cleared(booked, id);
    forall k | 0 <= k < |slots| ensures r[k] == slots[k] {
      if InRange(k, startAt, endAt) {
        assert booked[k] == Some(id);
      } else {
        assert booked[k] == slots[k];
        assert slots[k] != Some(id);
      }
    }
  }

  /** An empty or inverted range books nothing and cannot be refused. */
  lemma EmptyRangeBooksNothing(slots: Slots, id: Id, startAt: Time, endAt: Time)
    requires endAt <= startAt
    ensures BookingOk(slots, startAt, endAt)
    ensures AfterBooking(slots, id, startAt, endAt) == slots
  {
    assert forall k :: 0 <= k < |slots| ==> !InRange(k, startAt, endAt);
    assert FirstConflict(slots, startAt, endAt, 0) == |slots|;
  }

  /** Freeing an id that holds no slot changes nothing. */
  lemma ClearedAbsent(slots: Slots, id: Id)
    requires Some(id) !in slots
    ensures Cleared(slots, id) == slots
  {
    var r := Cleared(slots, id);
    assert forall k :: 0 <= k < |slots| ==> slots[k] != Some(id) && r[k] == slots[k];
  }

  /** A day: its date and its slot table, updated in place. */
  class Day {
    const date: Date
    var slots: Slots

    /** Creates the day with all 96 slots free, hour by hour, quarter by quarter. */
    constructor (date: Date)
      ensures this.date == date
      ensures slots == EmptyDay()
    {
      this.date := date;
      slots := [];
      new;
      var hour := 0;
      while hour < 24
        invariant 0 <= hour <= 24
        invariant slots == seq(SlotsPerHour * hour, _ => None)
      {
        var minute := 0;
        while minute < 60
          invariant 0 <= minute <= 60 && minute % SlotMinutes == 0
          invariant slots == seq(SlotsPerHour * hour + minute / SlotMinutes, _ => None)
        {
          slots := slots + [None];
          minute := minute + SlotMinutes;
        }
        hour := hour + 1;
      }
    }

    /** Books [startAt, endAt) for `id`, slot by slot in ascending order; stops with
        SlotNotAvailable at the first occupied slot of the range, keeping what it wrote. */
    method AddEvent(id: Id, startAt: Time, endAt: Time) returns (out: Outcome)
      modifies this
      ensures out == if BookingOk(old(slots), startAt, endAt) then Pass else Fail(SlotNotAvailable)
      ensures slots == AfterBooking(old(slots), id, startAt, endAt)
    {
      var i := 0;
      while i < |slots|
        invariant |slots| == |old(slots)|
        invariant 0 <= i <= |slots|
        invariant i <= FirstConflict(old(slots), startAt, endAt, 0)
        invariant slots == BookedUpTo(old(slots), id, startAt, endAt, i)
      {
        if startAt <= SlotTime(i) < endAt {
          if slots[i] != None {
            return Fail(SlotNotAvailable);
          }
          slots := slots[i := Some(id)];
        }
        i := i + 1;
      }
      return Pass;
    }

    /** Frees every slot holding `id`; EventNotFound when no slot held it. */
    method DeleteEvent(id: Id) returns (out: Outcome)
      modifies this
      ensures out == if Some(id) in old(slots) then Pass else Fail(EventNotFound)
      ensures slots == Cleared(old(slots), id)
    {
      var deleted := false;
      var i := 0;
      while i < |slots|
        invariant |slots| == |old(slots)|
        invariant 0 <= i <= |slots|
        invariant deleted <==> Some(id) in old(slots)[..i]
        invariant slots == ClearedUpTo(old(slots), id, i)
      {
        if slots[i] == Some(id) {
          slots := slots[i := None];
          deleted := true;
        }
        assert old(slots)[..i + 1] == old(slots)[..i] + [old(slots)[i]];
        i := i + 1;
      }
      assert old(slots)[..i] == old(slots);
      if !deleted {
        return Fail(EventNotFound);
      }
      return Pass;
    }

    /** Frees the event's slots, then books the new range for it; not atomic:
        a refused booking leaves the old slots freed. */
    method UpdateEvent(id: Id, startAt: Time, endAt: Time) returns (out: Outcome)
      modifies this
      ensures Some(id) !in old(slots) ==> out == Fail(EventNotFound) && slots == old(slots)
      ensures Some(id) in old(slots) ==>
        var freed := Cleared(old(slots), id);
        && out == (if BookingOk(freed, startAt, endAt) then Pass else Fail(SlotNotAvailable))
        && slots == AfterBooking(freed, id, startAt, endAt)
    {
      out := DeleteEvent(id);
      if out.Fail? {
        return;
      }
      out := AddEvent(id, startAt, endAt);
    }
  }
}
