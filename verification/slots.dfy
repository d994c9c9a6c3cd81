/** The slot calendar: which hours exist on a day, which of them can still be
    booked, the annotated grid the booking page renders, and the two weeks of
    days the page offers. "Now" and the appointment table are parameters; the
    current date is always `now.date`. */
module Slots {
  import opened Civil
  import opened Models

  /** `SLOT_HOURS`: three morning and three afternoon sessions. */
  const SlotHours: seq<Hour> := [9, 10, 11, 14, 15, 16]

  /** `WEEKDAYS_WORK`: Monday (0) to Saturday (5). */
  const WorkWeekdays: set<int> := {0, 1, 2, 3, 4, 5}

  /** `is_sunday`: the practice is closed on Sundays, the one weekday that
      is not a work day. */
  predicate IsSunday(d: Date): (b: bool)
    ensures b <==> Weekday(d) !in WorkWeekdays
  {
    Weekday(d) == 6
  }

  /** A bookable instant, stated without the hour list: a whole hour in the
      09:00-12:00 or the 14:00-17:00 block of a day other than Sunday. */
  predicate OnGrid(t: DateTime) {
    && !IsSunday(t.date)
    && IsWholeHour(t)
    && (9 <= t.hour < 12 || 14 <= t.hour < 17)
  }

  /** `generate_candidate_slot_datetimes`: nothing on a Sunday, otherwise the
      six grid hours of d, earliest first. */
  function CandidateSlots(d: Date): (r: seq<DateTime>)
    ensures r == [] <==> IsSunday(d)
    ensures !IsSunday(d) ==> |r| == |SlotHours|
    ensures forall t :: t in r <==> t.date == d && OnGrid(t)
    ensures Ascending(r)
  {
    if IsSunday(d) then []
    else
      var r := seq(|SlotHours|, i requires 0 <= i < |SlotHours| => AtHour(d, SlotHours[i]));
      assert forall i :: 0 <= i < |r| ==> r[i] == DateTime(d, SlotHours[i], 0, 0, 0);
      assert forall t: DateTime :: t.date == d && OnGrid(t) ==> t == AtHour(d, t.hour);
      assert forall t: DateTime :: t.date == d && OnGrid(t) ==> t in r by {
        forall t: DateTime | t.date == d && OnGrid(t)
          ensures t in r
        {
          var i := if t.hour < 12 then t.hour - 9 else t.hour - 11;
          assert r[i] == t;
        }
      }
      r
  }

  /** A slot of day d that is gone for the day: d is today and the slot's
      instant is not after now. */
  predicate IsPast(d: Date, t: DateTime, now: DateTime) {
    d == now.date && AtOrBefore(t, now)
  }

  /** The per-slot test both slot listings apply: neither past nor booked. */
  predicate IsOpen(d: Date, t: DateTime, now: DateTime, store: Store) {
    !IsPast(d, t, now) && t !in store
  }

  /** `filter_slots_for_availability`: nothing for a day before today;
      otherwise the candidates that are neither past nor booked. The result
      is exactly the grid slots of d strictly after now with no appointment,
      earliest first (so an order-preserving subsequence of the candidates). */
  function AvailableSlots(d: Date, now: DateTime, store: Store): (r: seq<DateTime>)
    ensures DateBefore(d, now.date) ==> r == []
    ensures forall t :: t in r <==>
      !DateBefore(d, now.date) && t.date == d && OnGrid(t) && Before(now, t) && t !in store
    ensures forall t :: t in r ==> t in CandidateSlots(d)
    ensures Ascending(r)
  {
    if DateBefore(d, now.date) then []
    else
      var candidates := CandidateSlots(d);
      if candidates == [] then []
      else
        var r := Filter(candidates, t => IsOpen(d, t, now, store));
        FilterAscending(candidates, t => IsOpen(d, t, now, store));
        OpenIffFuture(d, now, store);
        r
  }

  /** For a day that is not in the past, the per-slot test of both listings
      is exactly "strictly after now and unbooked": on today the slots up to
      now are past, on a later day none is. */
  lemma OpenIffFuture(d: Date, now: DateTime, store: Store)
    requires !DateBefore(d, now.date)
    ensures forall t: DateTime :: t.date == d ==>
      (IsOpen(d, t, now, store) <==> Before(now, t) && t !in store)
  {
    forall t: DateTime | t.date == d
      ensures IsOpen(d, t, now, store) <==> Before(now, t) && t !in store
    {
      BeforeTrichotomy(t, now);
    }
  }

  /** One entry of the rendered grid. */
  datatype Slot = Slot(at: DateTime, available: bool)

  /** Each candidate tagged with the open test. */
  function Annotate(d: Date, candidates: seq<DateTime>, now: DateTime, store: Store): (r: seq<Slot>)
    ensures |r| == |candidates|
    ensures forall i :: 0 <= i < |r| ==> r[i].at == candidates[i]
    ensures forall i :: 0 <= i < |r| ==> r[i].available == IsOpen(d, candidates[i], now, store)
  {
    if candidates == [] then []
    else [Slot(candidates[0], IsOpen(d, candidates[0], now, store))]
         + Annotate(d, candidates[1..], now, store)
  }

  /** `slots_for_day`: nothing for a day before today or a Sunday; otherwise
      every candidate in order, available exactly when it is strictly after
      now and has no appointment. */
  function SlotsForDay(d: Date, now: DateTime, store: Store): (r: seq<Slot>)
    ensures r == [] <==> DateBefore(d, now.date) || IsSunday(d)
    ensures r != [] ==> |r| == |CandidateSlots(d)|
                        && forall i :: 0 <= i < |r| ==> r[i].at == CandidateSlots(d)[i]
    ensures forall i :: 0 <= i < |r| ==>
      (r[i].available <==> Before(now, r[i].at) && r[i].at !in store)
  {
    if DateBefore(d, now.date) || IsSunday(d) then []
    else
      var candidates := CandidateSlots(d);
      var r := Annotate(d, candidates, now, store);
      assert forall i :: 0 <= i < |r| ==> r[i].at in candidates;
      OpenIffFuture(d, now, store);
      r
  }

  /** The instants of the entries marked available, in grid order. */
  function AvailableTimes(slots: seq<Slot>): (r: seq<DateTime>)
    ensures forall t :: t in r <==> Slot(t, true) in slots
  {
    if slots == [] then []
    else
      assert forall x :: x in slots[1..] ==> x in slots;
      (if slots[0].available then [slots[0].at] else []) + AvailableTimes(slots[1..])
  }

  lemma {:induction false} AnnotateThenSelect(d: Date, candidates: seq<DateTime>, now: DateTime, store: Store)
    ensures AvailableTimes(Annotate(d, candidates, now, store))
            == Filter(candidates, t => IsOpen(d, t, now, store))
  {
    if candidates != [] {
      var a := Annotate(d, candidates, now, store);
      assert a[1..] == Annotate(d, candidates[1..], now, store);
      AnnotateThenSelect(d, candidates[1..], now, store);
    }
  }

  /** The two slot listings agree: for a day that is not in the past, the
      entries the grid marks available are exactly the available slots, in
      the same order. */
  lemma AvailableAgreesWithGrid(d: Date, now: DateTime, store: Store)
    requires !DateBefore(d, now.date)
    ensures AvailableTimes(SlotsForDay(d, now, store)) == AvailableSlots(d, now, store)
  {
    if !IsSunday(d) {
      AnnotateThenSelect(d, CandidateSlots(d), now, store);
    }
  }

  /** `week_monday`: the Monday on or before d, fewer than seven days earlier. */
  function WeekMonday(d: Date): (m: Date)
    ensures Weekday(m) == 0
    ensures m.ordinal <= d.ordinal < m.ordinal + 7
  {
    var m := AddDays(d, -Weekday(d));
    WeekdayAddDays(d, -Weekday(d));
    m
  }

  /** Two dates lie in the same Monday-to-Sunday week exactly when their
      week Mondays coincide; the Monday is the only one that close to d. */
  lemma {:induction false} WeekMondayUnique(d: Date, m: Date)
    requires Weekday(m) == 0
    ensures WeekMonday(d) == m <==> m.ordinal <= d.ordinal < m.ordinal + 7
  {
    var w := WeekMonday(d);
    if m.ordinal <= d.ordinal < m.ordinal + 7 {
      var n := w.ordinal - m.ordinal;
      assert -7 < n < 7;
      WeekdayAddDays(m, n);
      assert AddDays(m, n) == w;
      assert n % 7 == 0;
      assert n == 0;
    }
  }

  /** `mon_to_sat`: the six days from a Monday, kept when they are work days. */
  function MonToSat(mon: Date): (r: seq<Date>)
    requires Weekday(mon) == 0
    ensures |r| == 6
    ensures forall i :: 0 <= i < 6 ==> r[i] == AddDays(mon, i) && Weekday(r[i]) == i
    ensures AscendingDates(r)
  {
    var days := seq(6, i requires 0 <= i < 6 => AddDays(mon, i));
    assert forall i :: 0 <= i < 6 ==> days[i].ordinal == mon.ordinal + i;
    forall i | 0 <= i < 6
      ensures Weekday(days[i]) == i
    {
      WeekdayAddDays(mon, i);
    }
    var r := Filter(days, d => Weekday(d) in WorkWeekdays);
    assert r == days by {
      FilterKeepsAll(days, d => Weekday(d) in WorkWeekdays);
    }
    r
  }

  /** The six days from a Monday are exactly the non-Sunday days whose week
      starts on that Monday. */
  lemma MonToSatIsWeek(mon: Date)
    requires Weekday(mon) == 0
    ensures forall d :: d in MonToSat(mon) <==> WeekMonday(d) == mon && !IsSunday(d)
  {
    var days := MonToSat(mon);
    forall d: Date
      ensures d in days <==> WeekMonday(d) == mon && !IsSunday(d)
    {
      WeekMondayUnique(d, mon);
      if WeekMonday(d) == mon && !IsSunday(d) {
        var i := d.ordinal - mon.ordinal;
        WeekdayAddDays(mon, i);
        assert AddDays(mon, i) == d;
        assert days[i] == d;
      }
    }
  }

  /** The result of `days_for_this_and_next_week`. */
  datatype Weeks = Weeks(thisWeek: seq<Date>, nextWeek: seq<Date>)

  /** `days_for_this_and_next_week`: the Monday-to-Saturday days of today's
      week that are not before today, and all six Monday-to-Saturday days of
      the following week; never a Sunday. */
  function DaysForThisAndNextWeek(today: Date): (r: Weeks)
    ensures forall d :: d in r.thisWeek <==>
      WeekMonday(d) == WeekMonday(today) && !IsSunday(d) && !DateBefore(d, today)
    ensures AscendingDates(r.thisWeek)
    ensures |r.nextWeek| == 6
    ensures forall i :: 0 <= i < 6 ==> r.nextWeek[i] == AddDays(WeekMonday(today), 7 + i)
    ensures forall d :: d in r.thisWeek || d in r.nextWeek ==> !IsSunday(d) && !DateBefore(d, today)
    ensures IsSunday(today) ==> r.thisWeek == []
  {
    Weeks(ThisWeek(today), NextWeek(today))
  }

  /** The remaining days of today's week: exactly the non-Sunday days of
      that week not before today, ascending; none at all on a Sunday. */
  function ThisWeek(today: Date): (w: seq<Date>)
    ensures forall d :: d in w <==> WeekMonday(d) == WeekMonday(today) && !IsSunday(d) && !DateBefore(d, today)
    ensures AscendingDates(w)
    ensures IsSunday(today) ==> w == []
  {
    var thisMon := WeekMonday(today);
    var all := MonToSat(thisMon);
    var keep := d => !DateBefore(d, today);
    var w := Filter(all, keep);
    MonToSatIsWeek(thisMon);
    FilterAscendingDates(all, keep);
    assert IsSunday(today) ==> forall d :: d in all ==> DateBefore(d, today);
    assert |w| > 0 ==> w[0] in w;
    w
  }

  /** The following week: its six days from Monday + 7, none a Sunday and
      none before today. */
  function NextWeek(today: Date): (w: seq<Date>)
    ensures |w| == 6
    ensures forall i :: 0 <= i < 6 ==> w[i] == AddDays(WeekMonday(today), 7 + i)
    ensures forall d :: d in w ==> !IsSunday(d) && !DateBefore(d, today)
  {
    var thisMon := WeekMonday(today);
    var nextMon := AddDays(thisMon, 7);
    WeekdayAddDays(thisMon, 7);
    var w := MonToSat(nextMon);
    assert forall d :: d in w ==> !IsSunday(d) && !DateBefore(d, today) by {
      forall d | d in w
        ensures !IsSunday(d) && !DateBefore(d, today)
      {
        var i :| 0 <= i < 6 && w[i] == d;
      }
    }
    w
  }
}
