# Therapy booking: slot calendar, booking and cancellation, in Dafny

This project models the core of a single-practitioner therapy booking web
application. The model covers three parts:

- **Slot calendar.** Each Monday to Saturday has a fixed grid of six one-hour
  sessions (09, 10, 11, 14, 15 and 16 o'clock, Europe/Istanbul). Sundays have
  none. A slot is offered only when it is strictly in the future and has no
  appointment. The booking page renders the whole grid with each entry marked
  available or not, for this week's remaining work days and all of next
  week's.
- **Booking.** A submission is checked in a fixed order: form, parse, Sunday,
  grid membership, strictly after now. It is then stored with one atomic
  insert into a table whose `start_datetime` and `cancel_code` columns are
  both unique. On success the client's session remembers the new code so the
  confirmation page reveals it exactly once.
- **Lookup and cancellation.** The cancellation code is the only credential.
  The appointments page finds an appointment by code. The cancel page deletes
  the appointment only when the typed-in confirmation code matches. A probe
  reports whether a code exists.

The model is purely functional. "Now", the appointment table (a map from
start instant to appointment), the client's session and the freshly generated
cancellation code are parameters. Every flow returns its outcome together with
the new table and session.

Modules, one file each:

- `common.dfy` `Common`: `Option`.
- `civil.dfy` `Civil`: dates as ordinal day numbers (0 = Monday convention of
  `date.weekday()`), civil date-times, chronological order, day arithmetic,
  order-preserving filters.
- `text.dfy` `Text`: Python's `str.strip()`.
- `models.dfy` `Models`: the `Appointment` record, choices, `display_name`, the
  table with its uniqueness invariants, ordered enumeration, lookup by code.
- `slots.dfy` `Slots`: the slot calendar functions of `core/views.py`.
- `booking.dfy` `Booking`: the `book` POST branch, `confirm`, `appointments`,
  `cancel`, `cancel_lookup`, `cancel_check`.
- `scenarios.dfy` `Scenarios`: the repository's test scenarios, restated as
  lemmas. "Now" is Monday 2025-03-03 10:00.

The table invariant `Models.Valid` states three things:

- every row sits under its own start instant, so no two rows share a start;
- no two rows share a cancellation code;
- both names fit the 80-character columns.

Booking and cancelling preserve it.

A note on one test: `core/tests.py:144` expects every next-week day to be at
least today + 7. That only holds because the test fixes "now" on a Monday.
`Slots.DaysForThisAndNextWeek` states the general fact: next week starts on
this week's Monday + 7. `Scenarios.WeeksFromMonday` proves the test's claim
for a Monday.

## Model

| member | source | states |
|---|---|---|
| Civil.Weekday | core/views.py:19-20 | `date.weekday()`: a number 0..6, with day 1 (0001-01-01) a Monday |
| Civil.BeforeIffMicros | core/views.py:37 | comparing two date-times field by field (`dt <= now`) agrees, in both directions, with comparing the instants they denote |
| Civil.WeekdayAddDays | core/views.py:63-73 | adding n days to a date moves its weekday forward by n modulo 7 |
| Civil.EndTime | core/views.py:168 | a session's end is exactly one hour (3600 s) after its start, and strictly after it |
| Civil.Filter | core/views.py:35-42 | the slot loop and the day-list comprehensions keep exactly the elements passing their test, never more than they were given |
| Civil.FilterAppend | core/views.py:73-76 | filtering is element by element, left to right: a concatenation filters to the concatenated parts and one element is kept exactly when it passes, so the kept elements stay in their order and multiplicity |
| Civil.FilterKeepsAll | core/views.py:73 | a test every element passes keeps the list as it is |
| Civil.FilterAscending | core/views.py:35-42 | filtering an ascending list of instants leaves it ascending |
| Civil.FilterAscendingDates | core/views.py:76 | filtering an ascending list of days leaves it ascending |
| Text.Strip | core/views.py:93-98 | `strip()` yields the text between the leading and trailing whitespace: empty exactly for all-whitespace input, otherwise starting and ending with a non-space |
| Text.StripIdempotent | core/views.py:93-94 | stripping the already-cleaned form value again changes nothing |
| Text.StripTrimmed | core/views.py:195-196 | a code with no surrounding whitespace is compared unchanged |
| Models.ParseTherapy | core/models.py:9-28 | a therapy value is accepted exactly when it is the stored value of one of cbt, couples, mindfulness |
| Models.ParseFormat | core/models.py:15-33 | a format value is accepted exactly when it is the stored value of face_to_face or online |
| Models.ChoicesRoundTrip | core/models.py:9-33 | every choice reads back as itself from its stored value; the defaults cbt and face_to_face are choices |
| Models.DisplayName | core/models.py:44-49 | "First L.": the first name, then a space, the last name's first character and a full stop; just the first name when the last name is empty |
| Models.DisplayNameShowsOnlyInitial | core/models.py:44-49 | for one first name, two display names are equal exactly when the last names' initials are (both absent or the same letter): only the initial is revealed |
| Models.Valid | core/models.py:20-35 | the states the table's constraints allow: each row under its own start (unique `start_datetime`), no two rows with one `cancel_code`, names of at most 80 characters |
| Models.InsertUnique | core/models.py:22-35 | the atomic insert is rejected exactly when the start instant or the cancellation code is already present; otherwise it adds exactly that row, keeps every other row, and keeps the table valid |
| Models.InsertKeepsValid | core/models.py:35 | inserting a row whose start and code are both new keeps codes unique |
| Models.Delete | core/views.py:200 | deleting one appointment removes exactly its key, keeps the others, and keeps the table valid |
| Models.SortedStarts | core/models.py:38-39 | the start instants of the table, strictly ascending, each exactly once |
| Models.Enumerate | core/models.py:38-39 | enumerating the table yields every row exactly once, in strictly ascending `start_datetime` order |
| Models.FirstWithCode | core/views.py:184 | `.first()` returns the earliest row of the queryset carrying the code (no earlier row carries it), absent exactly when none does |
| Models.FindByCode | core/views.py:184 | lookup by code is absent exactly when no row has the code; in a valid table it returns the one row with that code |
| Models.FindByCodeUnique | core/models.py:35 | because codes are unique, a row found by code is the row stored under its start, and the only one with that code |
| Slots.IsSunday | core/views.py:19-20 | Sunday (weekday 6) is exactly the weekday outside `WEEKDAYS_WORK` |
| Slots.IsPast | core/views.py:37 | a slot is past when its day is today and it is at or before now |
| Slots.IsOpen | core/views.py:55-59 | the per-slot test both listings share: neither past nor booked |
| Slots.OpenIffFuture | core/views.py:36-40 | for a day not before today, a slot passes the test exactly when it is strictly after now and unbooked |
| Slots.CandidateSlots | core/views.py:19-25 | empty exactly on Sundays; otherwise six slots, exactly the whole hours of that day in the 09-12 and 14-17 blocks, strictly ascending |
| Slots.AvailableSlots | core/views.py:27-42 | empty for a day before today; otherwise exactly the grid slots of that day strictly after now with no appointment, ascending, all among the candidates |
| Slots.Annotate | core/views.py:53-60 | one entry per candidate, in order, tagged with the not-past-and-not-booked test |
| Slots.SlotsForDay | core/views.py:44-61 | empty exactly for a past day or a Sunday; otherwise one entry per candidate in order, available exactly when strictly after now and unbooked |
| Slots.AnnotateThenSelect | core/views.py:36-59 | selecting the available entries of the annotated grid gives exactly the filtered list, in order |
| Slots.AvailableAgreesWithGrid | core/views.py:27-61 | for a day not in the past, the instants `slots_for_day` marks available are exactly `filter_slots_for_availability`'s list, same order |
| Slots.WeekMonday | core/views.py:63-64 | the week's Monday is a Monday at most six days before the date |
| Slots.WeekMondayUnique | core/views.py:63-64 | a Monday m is a date's week Monday exactly when the date lies in m .. m+6 |
| Slots.MonToSat | core/views.py:71-73 | the six days from a Monday, in order, with weekdays 0..5 (the work-day filter drops none) |
| Slots.DaysForThisAndNextWeek | core/views.py:66-78 | this week is exactly the days in today's week that are not Sundays and not before today (empty on a Sunday), ascending; next week is the six days Monday+7 .. Saturday+7; no Sunday and no past day in either |
| Slots.ThisWeek | core/views.py:68-76 | `this_week`: exactly the non-Sunday days of today's week not before today, ascending, and none on a Sunday |
| Slots.NextWeek | core/views.py:69-77 | `next_week`: the six days from this week's Monday + 7, in order, none a Sunday and none before today |
| Booking.NameFieldOk | core/forms.py:15-16 | a name field validates exactly when its stripped value is non-empty, at most 80 characters and free of U+0000 |
| Booking.FormOk | core/forms.py:15-20 | the form validates exactly when both names do, both choices are among the stored values, and the start is neither blank nor holds U+0000 |
| Booking.CheckRequest | core/views.py:92-121 | each check's failure is reported exactly when every earlier check passed and it fails; none fails exactly for a valid form naming a grid slot strictly after now |
| Booking.Book | core/views.py:83-136 | a failure changes neither table nor session; AlreadyTaken comes only from the insert, after all checks pass; success is exactly a checked slot free in the table with a new code, and it adds exactly that appointment (stripped names, chosen type and format) and sets the one-shot flag to its code |
| Booking.BookableIffOffered | core/views.py:108-121 | with a valid form and a new code, a booking succeeds exactly when its slot is in the availability list for that day at the same now |
| Booking.SameSlotBookedOnce | core/views.py:123-134 | of two bookings for one instant applied in turn, at most one succeeds; after a success a valid second one is AlreadyTaken and changes nothing |
| Booking.Confirm | core/views.py:166-175 | unknown code: not found, session unchanged; otherwise the appointment with that code and its end, the code revealed exactly when the session flag equals it, and a reveal clears the flag |
| Booking.CodeRevealedOnce | core/views.py:136-175 | after a booking the first confirmation visit reveals the code and the second does not; both show the booked appointment |
| Booking.Appointments | core/views.py:177-188 | the stripped code is echoed; an appointment is shown exactly when the code is non-empty and some row has it, with its end one hour later |
| Booking.BookThenLookUp | core/views.py:183-184 | looking up the code of a fresh booking finds that booking |
| Booking.Cancel | core/views.py:190-206 | unknown code: not found; otherwise every outcome carries the row with that code; GET or mismatched stripped confirmation: nothing changes; matching: exactly that appointment is deleted, the rest stays, the table stays valid, and the code is gone |
| Booking.Routable | core/urls.py:7-9 | a code the `<str:code>` route segment can carry: non-empty and without '/' |
| Booking.CancelLookup | core/views.py:208-214 | as written: a blank code is refused; a code holding '/' is a server error; otherwise it redirects to the cancel page of exactly the stripped code |
| Booking.CancelLookupSlashFails | core/views.py:214 | the typed-in code "ab/cd" makes the lookup a server error |
| Booking.CancelLookupCorrected | core/views.py:208-214 | as intended: a blank code is refused, a code the route cannot carry is answered as unknown, and it never fails |
| Booking.CancelLookupCorrectedAgrees | core/views.py:208-214 | the corrected lookup only redirects to routes that exist, agrees with the original wherever the original works, and answers "unknown" exactly where the original fails |
| Booking.CancelCheck | core/views.py:216-219 | the probe is true exactly when some row carries the stripped code |
| Booking.CancelThenCheck | core/views.py:194-219 | the probe finds a code before a successful cancellation and not after it |
| Scenarios.DisplayNameExamples | core/tests.py:29-46 | "Ada Lovelace" displays as "Ada L.", "Grace" with no last name as "Grace" |
| Scenarios.CandidateSlotsExamples | core/tests.py:67-81 | the fixed Monday is not a Sunday, the Sunday after it has no slots, and the Monday's hours are 9, 10, 11, 14, 15, 16 |
| Scenarios.AvailableSlotsExamples | core/tests.py:84-106 | at 10:00 only later slots are offered today; tomorrow's booked 09:00 is not offered, and at least one but fewer than all are |
| Scenarios.BookedCandidateShrinksOffer | core/views.py:39-40 | a booked candidate makes the offered list shorter than the candidate list |
| Scenarios.SlotsForDayExamples | core/tests.py:109-130 | at 10:00 the 09 and 10 entries are unavailable and 11 available; a booking at 16 makes that entry unavailable |
| Scenarios.WeeksFromMonday | core/tests.py:133-144 | when today is a Monday, both lists hold only work days, none before today, and next week none before today + 7 |
| Scenarios.BookSuccessExample | core/tests.py:156-173 | booking tomorrow 11:00 at 10:00 succeeds and stores the appointment |
| Scenarios.BookInvalidTimeExample | core/tests.py:176-190 | 13:00 is not on the grid: InvalidTime |
| Scenarios.BookExpiredExample | core/tests.py:193-206 | booking 10:00 at exactly 10:00 is Expired |
| Scenarios.BookSundayExample | core/tests.py:209-222 | a Sunday booking is ClosedDay |
| Scenarios.BookTakenExample | core/tests.py:225-245 | booking an occupied slot is AlreadyTaken |
| Scenarios.CancelMismatchExample | core/tests.py:314-329 | a wrong confirmation code is CodeMismatch and the appointment stays |
| Scenarios.CancelSuccessExample | core/tests.py:332-348 | the matching code deletes the appointment and the probe then fails |
| Scenarios.CancelCheckExample | core/tests.py:298-311 | the probe is true for an existing code and false for "nope" |

## Left out

- HTTP glue has no content the model can state. This covers `render`, `redirect`, flash messages, `JsonResponse`, and the GET branch of `book`, which only renders. The 30-day `appointment_code` cookie that is set on booking and cleared on cancel is also left out. A 404 from `get_object_or_404` becomes a not-found result.
- The `ui_therapy_type` / `ui_format` aliases in `book` (core/views.py:86-89) are left out. They copy one request key to another before form validation. The model receives the choice fields as already named.
- `datetime.fromisoformat` is a library parser. The parsed start is an input: blank, holding U+0000, unparseable, or a civil date-time in the practice's zone. A naive time gets the practice zone, as the source does.
- Start times submitted with a UTC offset other than +03:00 are left out. The source checks Sunday on the date in the submitted offset, while its grid comparison uses instants. Modelling both needs zone conversion, which is a library call.
- `ist_now` and the clock are replaced by the `now` parameter. The source reads the clock twice in `filter_slots_for_availability` and `slots_for_day`. The model uses one `now` per request, so a midnight crossing between the two reads is not modelled.
- `generate_cancel_code` (`secrets.token_urlsafe(6)`) is random. Its result is the `code` parameter of `Booking.Book`. The source does not retry a code collision: the insert fails and the user sees the "already booked" message. The model does the same, so a code that is not new gives AlreadyTaken.
- Real concurrency and `transaction.atomic` are reduced to one atomic insert. Two racing bookings are modelled as one applied after the other (`Booking.SameSlotBookedOnce`). Interleavings inside the database are not modelled.
- Most of `core/forms.py` is left out: the choice labels and the rendering of the form. What is kept is each field's cleaning. Names are stripped, required, at most 80 characters and free of U+0000. Choices must be among the stored values. The start must be non-blank and free of U+0000.
- The redirect to `confirm/<code>/` after a booking needs a code without '/'. `token_urlsafe` uses only letters, digits, '-' and '_', so this always holds. The model's `code` parameter is not restricted to that alphabet.
- The appointment `id`, the choice labels, `__str__`, `created_at`'s separate UTC clock read, and the 50-character limit on `cancel_code` are left out. The model identifies a row by its start instant, and `created_at` is the request's `now`.
- Date range limits are left out: Python dates stop at years 1 and 9999, and model dates are unbounded integers.

## Findings

| source | as written | input that shows it | evidently intended | confidence | as-written member | corrected member |
|---|---|---|---|---|---|---|
| core/views.py:214 | `cancel_lookup` redirects to `cancel` with the stripped code as typed; reversing `cancel/<str:code>/` fails for a code holding '/' (NoReverseMatch, HTTP 500) | `?code=ab/cd` | a code no appointment can have (generated codes never hold '/') is answered as unknown instead of failing | not executed | Booking.CancelLookup, Booking.CancelLookupSlashFails | Booking.CancelLookupCorrected, Booking.CancelLookupCorrectedAgrees |
