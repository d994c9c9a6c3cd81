/** The repository's test scenarios, stated over the model. "Now" is Monday
    2025-03-03 10:00 in the practice's zone (ordinal day 739313). */
module Scenarios {
  import opened Common
  import opened Civil
  import opened Models
  import opened Slots
  import opened Booking
  import opened Text

  const Monday := Date(739313)
  const FixedNow := AtHour(Monday, 10)

  function Day(offset: int): Date {
    AddDays(Monday, offset)
  }

  function Row(first: string, last: string, start: DateTime, code: string): Appointment {
    Appointment(first, last, start, Cbt, Online, code, FixedNow)
  }

  function Request(first: string, last: string, start: DateTime): BookingRequest {
    BookingRequest(first, last, "cbt", "online", At(start))
  }

  lemma DisplayNameExamples()
    ensures DisplayName(Row("Ada", "Lovelace", AtHour(Day(1), 10), "c1")) == "Ada L."
    ensures DisplayName(Row("Grace", "", AtHour(Day(2), 10), "c2")) == "Grace"
  {
  }

  lemma CandidateSlotsExamples()
    ensures Weekday(Monday) == 0 && IsSunday(Day(6)) && !IsSunday(Monday)
    ensures CandidateSlots(Day(6)) == []
    ensures |CandidateSlots(Monday)| == 6
    ensures forall i :: 0 <= i < 6 ==> CandidateSlots(Monday)[i].hour == SlotHours[i]
  {
  }

  /** At 10:00 on Monday only the slots after 10 are offered; a booking on
      Tuesday removes that slot and leaves at least one other. */
  lemma AvailableSlotsExamples()
    ensures forall t :: t in AvailableSlots(Monday, FixedNow, map[]) ==> t.hour > 10
    ensures
      var booked := AtHour(Day(1), 9);
      var store := map[booked := Row("Book", "Ed", booked, "c1")];
      var avail := AvailableSlots(Day(1), FixedNow, store);
      booked !in avail && 1 <= |avail| < |CandidateSlots(Day(1))|
  {
    var booked := AtHour(Day(1), 9);
    var store := map[booked := Row("Book", "Ed", booked, "c1")];
    var other := AtHour(Day(1), 10);
    assert OnGrid(other) && Before(FixedNow, other) && other !in store;
    assert other in AvailableSlots(Day(1), FixedNow, store);
    assert CandidateSlots(Day(1))[0] == booked;
    BookedCandidateShrinksOffer(Day(1), FixedNow, store, booked);
  }

  /** A filter that rejects some element returns fewer elements. */
  lemma {:induction false} FilterDrops(ts: seq<DateTime>, keep: DateTime -> bool, x: DateTime)
    requires x in ts && !keep(x)
    ensures |Filter(ts, keep)| < |ts|
  {
    if ts[0] != x {
      FilterDrops(ts[1..], keep, x);
    }
  }

  /** A booked candidate is never offered, so the day offers fewer slots
      than it has. */
  lemma BookedCandidateShrinksOffer(d: Date, now: DateTime, store: Store, t: DateTime)
    requires t in CandidateSlots(d) && t in store
    ensures |AvailableSlots(d, now, store)| < |CandidateSlots(d)|
  {
    if !DateBefore(d, now.date) {
      FilterDrops(CandidateSlots(d), u => IsOpen(d, u, now, store), t);
    }
  }

  lemma SlotsForDayExamples()
    ensures
      var slots := SlotsForDay(Monday, FixedNow, map[]);
      && |slots| == 6
      && !slots[0].available && !slots[1].available && slots[2].available
      && slots[0].at.hour == 9 && slots[1].at.hour == 10 && slots[2].at.hour == 11
    ensures
      var taken := AtHour(Monday, 16);
      var slots := SlotsForDay(Monday, FixedNow, map[taken := Row("Taken", "Slot", taken, "c1")]);
      |slots| == 6 && slots[5].at == taken && !slots[5].available
  {
  }

  /** The week lists when today is a Monday, as the tests pin "now": only
      work days, none before today, and next week's none before today + 7. */
  lemma WeeksFromMonday(today: Date)
    requires Weekday(today) == 0
    ensures
      var w := DaysForThisAndNextWeek(today);
      && (forall d :: d in w.thisWeek || d in w.nextWeek ==> Weekday(d) in WorkWeekdays)
      && (forall d :: d in w.thisWeek ==> !DateBefore(d, today))
      && (forall d :: d in w.nextWeek ==> !DateBefore(d, AddDays(today, 7)))
  {
    var w := DaysForThisAndNextWeek(today);
    assert WeekMonday(today) == today;
    forall d | d in w.nextWeek
      ensures !DateBefore(d, AddDays(today, 7))
    {
      var i :| 0 <= i < |w.nextWeek| && w.nextWeek[i] == d;
    }
  }

  lemma FormOkFor(first: string, last: string, start: DateTime)
    requires first != "" && !IsSpace(first[0]) && !IsSpace(first[|first| - 1])
    requires |first| <= 80 && '\0' !in first
    requires last != "" && !IsSpace(last[0]) && !IsSpace(last[|last| - 1])
    requires |last| <= 80 && '\0' !in last
    ensures FormOk(Request(first, last, start))
  {
    StripTrimmed(first);
    StripTrimmed(last);
  }

  /** The request and the empty table are parameters pinned by the requires,
      for the same reason as in `BookTakenExample`. */
  lemma BookSuccessExample(req: BookingRequest, empty: Store)
    requires req == Request("John", "Doe", AtHour(Day(1), 11)) && empty == map[]
    ensures
      var o := Book(req, FixedNow, empty, Session(None), "code1");
      o.result.Booked? && AtHour(Day(1), 11) in o.store
  {
    var start := AtHour(Day(1), 11);
    FormOkFor("John", "Doe", start);
    assert OnGrid(start) && Before(FixedNow, start);
    assert start !in empty && "code1" !in Codes(empty);
  }

  lemma BookInvalidTimeExample()
    ensures Book(Request("A", "B", AtHour(Day(2), 13)), FixedNow, map[], Session(None), "c").result
            == Rejected(InvalidTime)
  {
    FormOkFor("A", "B", AtHour(Day(2), 13));
    assert !IsSunday(Day(2)) && !OnGrid(AtHour(Day(2), 13));
  }

  lemma BookExpiredExample()
    ensures Book(Request("A", "B", AtHour(Monday, 10)), FixedNow, map[], Session(None), "c").result
            == Rejected(Expired)
  {
    FormOkFor("A", "B", AtHour(Monday, 10));
    assert OnGrid(AtHour(Monday, 10)) && AtOrBefore(AtHour(Monday, 10), FixedNow);
  }

  lemma BookSundayExample()
    ensures Book(Request("A", "B", AtHour(Day(6), 11)), FixedNow, map[], Session(None), "c").result
            == Rejected(ClosedDay)
  {
    FormOkFor("A", "B", AtHour(Day(6), 11));
    assert IsSunday(Day(6));
  }

  /** The scenario's table, one row at the 14:00 slot, is a parameter pinned
      by the requires; stating it as a literal inside the ensures makes the
      verifier unfold the whole booking flow over that literal. */
  lemma BookTakenExample(store: Store)
    requires store == map[AtHour(Day(1), 14) := Row("First", "User", AtHour(Day(1), 14), "c1")]
    ensures Book(Request("Second", "User", AtHour(Day(1), 14)), FixedNow, store, Session(None), "c2").result
            == Rejected(AlreadyTaken)
  {
    var slot := AtHour(Day(1), 14);
    FormOkFor("Second", "User", slot);
    assert OnGrid(slot) && Before(FixedNow, slot);
  }

  lemma CancelMismatchExample()
    ensures
      var start := AtHour(Day(2), 10);
      var store := map[start := Row("Will", "Err", start, "ABC123")];
      var o := Cancel("ABC123", Submit(Some("WRONG")), store);
      o.result.CodeMismatch? && o.store == store
  {
    var start := AtHour(Day(2), 10);
    var store := map[start := Row("Will", "Err", start, "ABC123")];
    StripTrimmed("WRONG");
    assert store[start].cancelCode == "ABC123";
  }

  lemma CancelSuccessExample()
    ensures
      var start := AtHour(Day(2), 10);
      var store := map[start := Row("Can", "Sil", start, "ABC123")];
      var o := Cancel("ABC123", Submit(Some("ABC123")), store);
      o.result.Cancelled? && o.store == map[] && !CancelCheck(Some("ABC123"), o.store)
  {
    var start := AtHour(Day(2), 10);
    var store := map[start := Row("Can", "Sil", start, "ABC123")];
    StripTrimmed("ABC123");
    assert store[start].cancelCode == "ABC123";
    var o := Cancel("ABC123", Submit(Some("ABC123")), store);
    assert o.store.Keys == {};
  }

  lemma CancelCheckExample()
    ensures
      var start := AtHour(Day(1), 10);
      var store := map[start := Row("X", "Y", start, "ABC123")];
      CancelCheck(Some("ABC123"), store) && !CancelCheck(Some("nope"), store)
  {
    var start := AtHour(Day(1), 10);
    var a := Row("X", "Y", start, "ABC123");
    StripTrimmed("ABC123");
    StripTrimmed("nope");
    CheckOneRow(a, "ABC123");
    CheckOneRow(a, "nope");
  }

  /** The probe over a table of one row finds exactly that row's code. */
  lemma CheckOneRow(a: Appointment, probe: string)
    ensures CancelCheck(Some(probe), map[a.start := a]) <==> Strip(probe) == a.cancelCode
  {
    var store := map[a.start := a];
    assert store.Keys == {a.start};
  }
}
