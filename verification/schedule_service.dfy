/** Slot generation and the slot catalogue query of the schedule service
    (src/app/modules/Schedule/schedule.service.ts).

    Calendar dates are day indices and times of day are minutes since midnight, so the slot that
    starts at minute `m` of day `d` has `startDateTime == d * 1440 + m`. */
module ScheduleService {
  import opened Wrappers
  import opened Tables
  import opened Seqs
  import opened Db

  const IntervalMinutes: int := 30
  const MinutesPerDay: int := 1440

  // ---------------------------------------------------------------- the slots a request asks for

  /** The slots whose starts run from `lo` in 30-minute steps while the start is before `hi`:
      the inner loop tests the slot's start, not its end. */
  function WindowSlots(lo: int, hi: int): seq<Schedule>
    decreases hi - lo
  {
    if lo < hi then [Schedule(lo, lo + IntervalMinutes)] + WindowSlots(lo + IntervalMinutes, hi) else []
  }

  function DaySlots(day: int, startTime: int, endTime: int): seq<Schedule> {
    WindowSlots(day * MinutesPerDay + startTime, day * MinutesPerDay + endTime)
  }

  /** The slots of every day from `firstDay` to `lastDay` inclusive, day by day. */
  function RangeSlots(firstDay: int, lastDay: int, startTime: int, endTime: int): seq<Schedule>
    decreases lastDay - firstDay
  {
    if lastDay < firstDay then [] else RangeSlots(firstDay, lastDay - 1, startTime, endTime) + DaySlots(lastDay, startTime, endTime)
  }

  lemma GridStep(d: int)
    ensures d % IntervalMinutes == 0 <==> (d - IntervalMinutes) % IntervalMinutes == 0
    ensures d % IntervalMinutes == 0 && 0 < d ==> IntervalMinutes <= d
  {
  }

  /** A window yields exactly the 30-minute slots whose start is on the 30-minute grid from `lo`
      and strictly before `hi`; each one ends 30 minutes after it starts. */
  lemma {:induction false} WindowSlotsExactly(lo: int, hi: int, x: Schedule)
    ensures x in WindowSlots(lo, hi) <==>
      lo <= x.startDateTime < hi
      && (x.startDateTime - lo) % IntervalMinutes == 0
      && x.endDateTime == x.startDateTime + IntervalMinutes
    decreases hi - lo
  {
    if lo < hi {
      WindowSlotsExactly(lo + IntervalMinutes, hi, x);
      GridStep(x.startDateTime - lo);
      assert x.startDateTime - (lo + IntervalMinutes) == (x.startDateTime - lo) - IntervalMinutes;
    }
  }

  /** An empty or inverted window produces no slot for that day. */
  lemma EmptyWindow(day: int, startTime: int, endTime: int)
    requires endTime <= startTime
    ensures DaySlots(day, startTime, endTime) == []
  {
  }

  /** A 09:00-09:45 window yields 09:00-09:30 and 09:30-10:00: the last slot runs past the window's end. */
  lemma LastSlotOverrunsWindow()
    ensures DaySlots(0, 540, 585) == [Schedule(540, 570), Schedule(570, 600)]
    ensures DaySlots(0, 540, 585)[1].endDateTime > 585
  {
    assert WindowSlots(600, 585) == [];
  }

  /** The days run from the first to the last inclusive; an inverted range asks for nothing. */
  lemma {:induction false} RangeSlotsExactly(firstDay: int, lastDay: int, startTime: int, endTime: int, x: Schedule)
    ensures x in RangeSlots(firstDay, lastDay, startTime, endTime) <==>
      exists d :: firstDay <= d <= lastDay && x in DaySlots(d, startTime, endTime)
    ensures lastDay < firstDay ==> RangeSlots(firstDay, lastDay, startTime, endTime) == []
    decreases lastDay - firstDay
  {
    if firstDay <= lastDay {
      RangeSlotsExactly(firstDay, lastDay - 1, startTime, endTime, x);
      var today := DaySlots(lastDay, startTime, endTime);
      assert RangeSlots(firstDay, lastDay, startTime, endTime) == RangeSlots(firstDay, lastDay - 1, startTime, endTime) + today;
      if x !in today && exists d :: firstDay <= d <= lastDay && x in DaySlots(d, startTime, endTime) {
        var d :| firstDay <= d <= lastDay && x in DaySlots(d, startTime, endTime);
        assert d <= lastDay - 1;
      }
    }
  }

  /** Every requested slot is 30 minutes wide. */
  lemma SlotsAreThirtyMinutes(firstDay: int, lastDay: int, startTime: int, endTime: int, x: Schedule)
    requires x in RangeSlots(firstDay, lastDay, startTime, endTime)
    ensures x.endDateTime == x.startDateTime + IntervalMinutes
  {
    RangeSlotsExactly(firstDay, lastDay, startTime, endTime, x);
    var d :| firstDay <= d <= lastDay && x in DaySlots(d, startTime, endTime);
    WindowSlotsExactly(d * MinutesPerDay + startTime, d * MinutesPerDay + endTime, x);
  }

  // ---------------------------------------------------------------- creating the missing slots

  /** No two slot rows share a `(startDateTime, endDateTime)` pair. */
  ghost predicate NoDuplicateSlots(t: Table<Schedule>) {
    forall j, k :: j in t.rows && k in t.rows && j != k ==> t.rows[j] != t.rows[k]
  }

  /** The `findFirst` / `create` step: a slot is created only when no row already has its times. */
  function AddIfAbsent(t: Table<Schedule>, created: seq<nat>, x: Schedule): (Table<Schedule>, seq<nat>) {
    if x in t.rows.Values then (t, created)
    else
      var (t', id) := Insert(t, x);
      (t', created + [id])
  }

  /** Processes the requested slots in order; returns the table and the ids created, in creation order. */
  function AddAll(t: Table<Schedule>, xs: seq<Schedule>): (Table<Schedule>, seq<nat>) {
    if xs == [] then (t, [])
    else
      var (t1, c1) := AddAll(t, xs[..|xs| - 1]);
      AddIfAbsent(t1, c1, xs[|xs| - 1])
  }

  /** One `findFirst` / `create` step. */
  lemma AddIfAbsentSpec(t: Table<Schedule>, c: seq<nat>, x: Schedule)
    requires Distinct(c) && forall k :: k in c ==> k in t.rows
    ensures var (t', c') := AddIfAbsent(t, c, x);
      && (forall k :: k in t.rows ==> k in t'.rows && t'.rows[k] == t.rows[k])
      && x in t'.rows.Values
      && (forall k :: k in t'.rows && k !in t.rows ==> t'.rows[k] == x && x !in t.rows.Values)
      && (forall k :: k in c' <==> k in c || (k in t'.rows && k !in t.rows))
      && (forall k :: k in c' ==> k in t'.rows)
      && Distinct(c')
      && (NoDuplicateSlots(t) ==> NoDuplicateSlots(t'))
  {
    if x !in t.rows.Values {
      var (t', id) := Insert(t, x);
      assert id !in c;
      assert forall k :: k in t'.rows && k != id ==> k in t.rows && t'.rows[k] == t.rows[k];
      assert t'.rows[id] == x;
    }
  }

  /** What processing the requested slots does to the catalogue. */
  lemma {:induction false} AddAllSpec(t: Table<Schedule>, xs: seq<Schedule>)
    ensures var (t', c') := AddAll(t, xs);
      // rows already stored are kept unchanged
      && (forall k :: k in t.rows ==> k in t'.rows && t'.rows[k] == t.rows[k])
      // every requested slot is stored afterwards
      && (forall x :: x in xs ==> x in t'.rows.Values)
      // every new row is a requested slot whose times were not stored before
      && (forall k :: k in t'.rows && k !in t.rows ==> t'.rows[k] in xs && t'.rows[k] !in t.rows.Values)
      // the returned ids are exactly the new rows, each once
      && (forall k :: k in c' <==> k in t'.rows && k !in t.rows)
      && Distinct(c')
      // a duplicate-free catalogue stays duplicate-free
      && (NoDuplicateSlots(t) ==> NoDuplicateSlots(t'))
  {
    if xs != [] {
      var init, x := xs[..|xs| - 1], xs[|xs| - 1];
      assert xs == init + [x];
      AddAllSpec(t, init);
      var (t1, c1) := AddAll(t, init);
      AddIfAbsentSpec(t1, c1, x);
      var (t2, c2) := AddIfAbsent(t1, c1, x);
      assert AddAll(t, xs) == (t2, c2);
      assert forall y :: y in xs ==> y in init || y == x;
      forall k | k in t2.rows && k !in t.rows
        ensures t2.rows[k] in xs && t2.rows[k] !in t.rows.Values
      {
        if k !in t1.rows {
          assert t2.rows[k] == x && x !in t1.rows.Values;
          forall j | j in t.rows
            ensures t.rows[j] != x
          {
            assert t1.rows[j] == t.rows[j];
          }
        }
      }
    }
  }

  lemma AddIfAbsentUnfolds(t: Table<Schedule>, xs: seq<Schedule>, x: Schedule)
    ensures AddAll(t, xs + [x]) == AddIfAbsent(AddAll(t, xs).0, AddAll(t, xs).1, x)
  {
    assert (xs + [x])[..|xs|] == xs;
  }

  /** Asking again for slots that are all stored changes nothing and creates nothing. */
  lemma {:induction false} AddAllStoredIsNoop(t: Table<Schedule>, xs: seq<Schedule>)
    requires forall x :: x in xs ==> x in t.rows.Values
    ensures AddAll(t, xs) == (t, [])
  {
    if xs != [] {
      assert forall y :: y in xs[..|xs| - 1] ==> y in xs;
      AddAllStoredIsNoop(t, xs[..|xs| - 1]);
    }
  }

  /** Re-running the same generation adds nothing: the operation is idempotent. */
  lemma AddAllIdempotent(t: Table<Schedule>, xs: seq<Schedule>)
    ensures AddAll(AddAll(t, xs).0, xs) == (AddAll(t, xs).0, [])
  {
    AddAllSpec(t, xs);
    AddAllStoredIsNoop(AddAll(t, xs).0, xs);
  }

  /** One turn of the day loop: the slot at `cur` is the next one of the day, and adding it
      extends the fold by that slot. */
  lemma DayStep(base: Table<Schedule>, before: seq<Schedule>, today: seq<Schedule>, day: int, startTime: int,
                endTime: int, cur: int, endDateTime: int, t: Table<Schedule>, created: seq<nat>)
    requires cur < endDateTime
    requires today + WindowSlots(cur, endDateTime) == DaySlots(day, startTime, endTime)
    requires (t, created) == AddAll(base, before + today)
    ensures today + [Schedule(cur, cur + IntervalMinutes)] + WindowSlots(cur + IntervalMinutes, endDateTime)
      == DaySlots(day, startTime, endTime)
    ensures AddIfAbsent(t, created, Schedule(cur, cur + IntervalMinutes))
      == AddAll(base, before + (today + [Schedule(cur, cur + IntervalMinutes)]))
  {
    var slot := Schedule(cur, cur + IntervalMinutes);
    assert WindowSlots(cur, endDateTime) == [slot] + WindowSlots(cur + IntervalMinutes, endDateTime);
    assert today + [slot] + WindowSlots(cur + IntervalMinutes, endDateTime) == today + WindowSlots(cur, endDateTime);
    AddIfAbsentUnfolds(base, before + today, slot);
    assert before + today + [slot] == before + (today + [slot]);
  }

  /** One day of `insertIntoDB`: walks the day's window in 30-minute steps while the slot start is
      before `endTime`, creating each slot whose exact `(start, end)` pair is not stored yet. Carries
      on the processing of the slots `before` that the earlier days asked for. */
  method InsertDay(t0: Table<Schedule>, created0: seq<nat>, ghost base: Table<Schedule>, ghost before: seq<Schedule>,
                   day: int, startTime: int, endTime: int)
    returns (t: Table<Schedule>, created: seq<nat>)
    requires (t0, created0) == AddAll(base, before)
    ensures (t, created) == AddAll(base, before + DaySlots(day, startTime, endTime))
  {
    t, created := t0, created0;
    ghost var today: seq<Schedule> := [];
    assert before + today == before;
    var startDateTime := day * MinutesPerDay + startTime;
    var endDateTime := day * MinutesPerDay + endTime;
    while startDateTime < endDateTime
      invariant today + WindowSlots(startDateTime, endDateTime) == DaySlots(day, startTime, endTime)
      invariant (t, created) == AddAll(base, before + today)
      decreases endDateTime - startDateTime
    {
      var slot := Schedule(startDateTime, startDateTime + IntervalMinutes);
      DayStep(base, before, today, day, startTime, endTime, startDateTime, endDateTime, t, created);
      var step := AddIfAbsent(t, created, slot);
      t, created := step.0, step.1;
      today := today + [slot];
      startDateTime := startDateTime + IntervalMinutes;
    }
    assert WindowSlots(startDateTime, endDateTime) == [];
    assert today == DaySlots(day, startTime, endTime);
  }

  /** `insertIntoDB`: runs the day step for each day from `startDay` to `endDay` inclusive.
      Returns the store and the ids of the slots created. */
  method InsertIntoDB(s: Store, startDay: int, endDay: int, startTime: int, endTime: int)
    returns (s': Store, created: seq<nat>)
    ensures (s'.schedules, created) == AddAll(s.schedules, RangeSlots(startDay, endDay, startTime, endTime))
    ensures s' == s.(schedules := s'.schedules)
    ensures forall k :: k in created <==> k in s'.schedules.rows && k !in s.schedules.rows
    ensures forall k :: k in created ==>
      k in s'.schedules.rows && s'.schedules.rows[k].endDateTime == s'.schedules.rows[k].startDateTime + IntervalMinutes
    ensures NoDuplicateSlots(s.schedules) ==> NoDuplicateSlots(s'.schedules)
    ensures endDay < startDay ==> s' == s && created == []
  {
    var t := s.schedules;
    created := [];
    var day := startDay;
    while day <= endDay
      invariant startDay <= day && (day <= endDay + 1 || day == startDay)
      invariant (t, created) == AddAll(s.schedules, RangeSlots(startDay, day - 1, startTime, endTime))
      decreases endDay - day
    {
      t, created := InsertDay(t, created, s.schedules, RangeSlots(startDay, day - 1, startTime, endTime), day, startTime, endTime);
      assert RangeSlots(startDay, day, startTime, endTime)
        == RangeSlots(startDay, day - 1, startTime, endTime) + DaySlots(day, startTime, endTime);
      day := day + 1;
    }
    s' := s.(schedules := t);
    GeneratedSlots(s.schedules, startDay, endDay, startTime, endTime);
  }

  /** What a generation run leaves in the catalogue: only new 30-minute rows, returned once each,
      and no duplicate pair where there was none; an inverted day range changes nothing. */
  lemma GeneratedSlots(t: Table<Schedule>, startDay: int, endDay: int, startTime: int, endTime: int)
    ensures var (t', created) := AddAll(t, RangeSlots(startDay, endDay, startTime, endTime));
      && (forall k :: k in created <==> k in t'.rows && k !in t.rows)
      && (forall k :: k in created ==> k in t'.rows && t'.rows[k].endDateTime == t'.rows[k].startDateTime + IntervalMinutes)
      && (NoDuplicateSlots(t) ==> NoDuplicateSlots(t'))
      && (endDay < startDay ==> t' == t && created == [])
  {
    var xs := RangeSlots(startDay, endDay, startTime, endTime);
    AddAllSpec(t, xs);
    var (t', created) := AddAll(t, xs);
    forall k | k in created
      ensures k in t'.rows && t'.rows[k].endDateTime == t'.rows[k].startDateTime + IntervalMinutes
    {
      SlotsAreThirtyMinutes(startDay, endDay, startTime, endTime, t'.rows[k]);
    }
  }

  /** Slot generation writes only slot rows, which the booking invariant does not mention. */
  lemma SlotGenerationPreservesConsistency(s: Store, s': Store)
    requires Consistent(s)
    requires s' == s.(schedules := s'.schedules)
    ensures Consistent(s')
  {
  }

  // ---------------------------------------------------------------- slots open to a doctor

  /** The optional time filter of the catalogue query. */
  datatype TimeFilter = TimeFilter(startDateTime: Option<int>, endDateTime: Option<int>)

  /** The slot ids bound to any doctor whose e-mail is `email`. */
  function BoundTo(s: Store, email: string): (r: set<nat>)
    ensures forall id :: id in r <==> exists k :: k in s.doctorSchedules && k.scheduleId == id && DoctorHasEmail(s, k.doctorId, email)
  {
    set k | k in s.doctorSchedules && DoctorHasEmail(s, k.doctorId, email) :: k.scheduleId
  }

  /** The window condition applies only when both bounds are given. */
  predicate InWindow(f: TimeFilter, x: Schedule) {
    f.startDateTime.Some? && f.endDateTime.Some? ==>
      x.startDateTime >= f.startDateTime.value && x.endDateTime <= f.endDateTime.value
  }

  /** `schedulesForDoctor`: catalogue slots the calling doctor is not yet bound to, within the
      optional window; `total` counts the same selection. */
  function SchedulesForDoctor(s: Store, caller: Caller, filter: TimeFilter): (r: Listing)
    ensures forall id :: id in r.ids <==>
      id in s.schedules.rows
      && InWindow(filter, s.schedules.rows[id])
      && !(exists k :: k in s.doctorSchedules && k.scheduleId == id && DoctorHasEmail(s, k.doctorId, caller.email))
    ensures r.total == |r.ids|
  {
    var bound := BoundTo(s, caller.email);
    var ids := set id | id in s.schedules.rows && InWindow(filter, s.schedules.rows[id]) && id !in bound;
    Listing(ids, |ids|)
  }

  /** Slots a generation run creates are offered to every doctor, within the time filter: no
      binding can name a row that did not exist, provided every binding names a stored slot. */
  lemma NewSlotsAreOffered(s: Store, startDay: int, endDay: int, startTime: int, endTime: int,
                           caller: Caller, filter: TimeFilter, s': Store, created: seq<nat>, id: nat)
    requires forall k :: k in s.doctorSchedules ==> k.scheduleId in s.schedules.rows
    requires (s'.schedules, created) == AddAll(s.schedules, RangeSlots(startDay, endDay, startTime, endTime))
    requires s' == s.(schedules := s'.schedules)
    requires id in created
    ensures id in s'.schedules.rows
    ensures InWindow(filter, s'.schedules.rows[id]) ==> id in SchedulesForDoctor(s', caller, filter).ids
  {
    GeneratedSlots(s.schedules, startDay, endDay, startTime, endTime);
  }

  /** The query never offers a doctor a slot already bound to them. */
  lemma NeverOffersBoundSlot(s: Store, caller: Caller, filter: TimeFilter, k: ScheduleKey)
    requires k in s.doctorSchedules && DoctorHasEmail(s, k.doctorId, caller.email)
    ensures k.scheduleId !in SchedulesForDoctor(s, caller, filter).ids
  {
  }
}
