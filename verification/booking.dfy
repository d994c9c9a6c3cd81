/** The request flows over the appointment table: submitting a booking,
    the confirmation page with its one-shot code reveal, lookup by code,
    cancellation behind a typed-in confirmation code, and the existence probe.
    Each flow is a function from its inputs (the request's fields, "now", the
    table, the client's session) to its outcome and the new table and session. */
module Booking {
  import opened Common
  import opened Civil
  import opened Text
  import opened Models
  import opened Slots

  /** The submitted `start` field after the form's stripping: blank, text
      holding a U+0000 character (which the form field refuses), other text
      `datetime.fromisoformat` rejects, or a civil date-time in the
      practice's zone. */
  datatype StartInput = Blank | WithNull | NotIso | At(time: DateTime)

  /** A booking submission, its fields as sent. */
  datatype BookingRequest = BookingRequest(
    firstName: string,
    lastName: string,
    therapy: string,
    format: string,
    start: StartInput)

  /** Each way a submission is turned away, in the order they are checked. */
  datatype BookingError =
    | InvalidForm   // a field fails the form's validation: the page is shown again
    | Unparseable   // "Invalid time selection."
    | ClosedDay     // "Selected date is not available (Sunday)."
    | InvalidTime   // "Selected time is not valid."
    | Expired       // "This time is no longer available."
    | AlreadyTaken  // "That time slot was just booked by someone else."

  datatype BookingResult = Booked(appointment: Appointment) | Rejected(error: BookingError)

  /** The client's session; `code_to_show` is the only key these flows use. */
  datatype Session = Session(codeToShow: Option<string>)

  datatype BookOutcome = BookOutcome(result: BookingResult, store: Store, session: Session)

  /** A required name field after cleaning: stripped, non-empty, at most 80
      characters, and free of U+0000 (the field's null-character validator). */
  predicate NameFieldOk(raw: string) {
    var v := Strip(raw);
    v != "" && |v| <= MaxNameLength && '\0' !in v
  }

  /** The booking form validates: both names, both choices, and a start
      that is neither blank nor holds U+0000. */
  predicate FormOk(req: BookingRequest) {
    && NameFieldOk(req.firstName)
    && NameFieldOk(req.lastName)
    && ParseTherapy(req.therapy).Some?
    && ParseFormat(req.format).Some?
    && !req.start.Blank? && !req.start.WithNull?
  }

  function Reject(e: BookingError, store: Store, session: Session): BookOutcome {
    BookOutcome(Rejected(e), store, session)
  }

  /** The checks the POST branch of `book` makes before touching the table,
      in its order; the first failure wins. None means every check passed:
      a valid form naming a grid slot strictly after now. */
  function CheckRequest(req: BookingRequest, now: DateTime): (e: Option<BookingError>)
    ensures e == Some(InvalidForm) <==> !FormOk(req)
    ensures e == Some(Unparseable) <==> FormOk(req) && req.start.NotIso?
    ensures e == Some(ClosedDay) <==>
      FormOk(req) && req.start.At? && IsSunday(req.start.time.date)
    ensures e == Some(InvalidTime) <==>
      FormOk(req) && req.start.At? && !IsSunday(req.start.time.date) && !OnGrid(req.start.time)
    ensures e == Some(Expired) <==>
      FormOk(req) && req.start.At? && OnGrid(req.start.time) && AtOrBefore(req.start.time, now)
    ensures e.None? <==>
      FormOk(req) && req.start.At? && OnGrid(req.start.time) && Before(now, req.start.time)
    ensures e != Some(AlreadyTaken)
  {
    if !FormOk(req) then Some(InvalidForm)
    else if req.start.NotIso? then Some(Unparseable)
    else
      var t := req.start.time;
      if IsSunday(t.date) then Some(ClosedDay)
      else if t !in CandidateSlots(t.date) then Some(InvalidTime)
      else if AtOrBefore(t, now) then
        Some(Expired)
      else
        assert Before(now, t) by { BeforeTrichotomy(now, t); }
        None
  }

  /** The POST branch of `book`. `code` is the cancellation code the model's
      default generator supplies for the new row. Every failure leaves the
      table and the session as they were; the only failure found by the
      insert itself is AlreadyTaken. A success is exactly a checked request
      for a slot free in the table with a code no row has; it adds that one
      row and marks its code to be shown once. */
  function Book(req: BookingRequest, now: DateTime, store: Store, session: Session, code: string)
    : (r: BookOutcome)
    ensures r.result.Rejected? ==> r.store == store && r.session == session
    ensures r.result.Rejected? && r.result.error != AlreadyTaken ==>
      CheckRequest(req, now) == Some(r.result.error)
    ensures r.result == Rejected(AlreadyTaken) <==>
      && CheckRequest(req, now).None?
      && (req.start.time in store || code in Codes(store))
    ensures r.result.Booked? <==>
      && FormOk(req) && req.start.At? && OnGrid(req.start.time) && Before(now, req.start.time)
      && req.start.time !in store && code !in Codes(store)
    ensures r.result.Booked? ==>
      var a := r.result.appointment;
      && a.start == req.start.time && a.cancelCode == code && a.createdAt == now
      && a.firstName == Strip(req.firstName) && a.lastName == Strip(req.lastName)
      && TherapyValue(a.therapy) == req.therapy && FormatValue(a.format) == req.format
      && r.store == store[a.start := a]
      && r.session == Session(Some(code))
    ensures Valid(store) ==> Valid(r.store)
  {
    match CheckRequest(req, now)
    case Some(e) => Reject(e, store, session)
    case None =>
      var a := Appointment(Strip(req.firstName), Strip(req.lastName), req.start.time,
                           ParseTherapy(req.therapy).value, ParseFormat(req.format).value,
                           code, now);
      match InsertUnique(store, a)
      case None => Reject(AlreadyTaken, store, session)
      case Some(s) => BookOutcome(Booked(a), s, Session(Some(code)))
  }

  /** A booking succeeds exactly on a slot the availability listing offers
      for that day at the same "now", given a valid form and a fresh code. */
  lemma BookableIffOffered(req: BookingRequest, now: DateTime, store: Store, session: Session,
                           code: string)
    requires FormOk(req) && req.start.At? && code !in Codes(store)
    ensures Book(req, now, store, session, code).result.Booked? <==>
      req.start.time in AvailableSlots(req.start.time.date, now, store)
  {
    var t := req.start.time;
    if Before(now, t) {
      assert !DateBefore(t.date, now.date);
    }
  }

  /** Two submissions for the same instant, one after the other against the
      table the first one leaves: at most one is booked; once the first is
      booked, a valid second one is turned away as taken and changes nothing. */
  lemma SameSlotBookedOnce(req1: BookingRequest, req2: BookingRequest, now: DateTime,
                           store: Store, session1: Session, session2: Session,
                           code1: string, code2: string)
    requires req1.start == req2.start
    ensures
      var o1 := Book(req1, now, store, session1, code1);
      var o2 := Book(req2, now, o1.store, session2, code2);
      && !(o1.result.Booked? && o2.result.Booked?)
      && (o1.result.Booked? && FormOk(req2) ==>
            o2.result == Rejected(AlreadyTaken) && o2.store == o1.store)
  {
  }

  /** What the confirmation page shows. */
  datatype ConfirmPage = ConfirmPage(appointment: Appointment, end: DateTime, showCode: bool)

  datatype ConfirmOutcome = ConfirmOutcome(page: Option<ConfirmPage>, session: Session)

  /** `confirm`: not found (and nothing changes) for an unknown code; otherwise
      the appointment, and the code is revealed exactly when the session's
      one-shot flag holds this code, which the visit then consumes. */
  function Confirm(code: string, store: Store, session: Session): (r: ConfirmOutcome)
    ensures r.page.None? <==> code !in Codes(store)
    ensures r.page.None? ==> r.session == session
    ensures r.page.Some? ==>
      && r.page.value.appointment in store.Values
      && r.page.value.appointment.cancelCode == code
      && Micros(r.page.value.end) == Micros(r.page.value.appointment.start) + 3600 * 1000000
      && (r.page.value.showCode <==> session.codeToShow == Some(code))
      && (r.page.value.showCode ==> r.session.codeToShow.None?)
      && (!r.page.value.showCode ==> r.session == session)
  {
    match FindByCode(store, code)
    case None => ConfirmOutcome(None, session)
    case Some(a) =>
      var show := session.codeToShow == Some(a.cancelCode);
      var session' := if show then Session(None) else session;
      ConfirmOutcome(Some(ConfirmPage(a, EndTime(a.start), show)), session')
  }

  /** The code is revealed once: the first confirmation visit after a
      booking shows it, the next visit with the session that visit leaves
      does not, and both visits show the booked appointment. */
  lemma CodeRevealedOnce(req: BookingRequest, now: DateTime, store: Store, session: Session,
                         code: string)
    requires Valid(store)
    requires Book(req, now, store, session, code).result.Booked?
    ensures
      var o := Book(req, now, store, session, code);
      var first := Confirm(code, o.store, o.session);
      var second := Confirm(code, o.store, first.session);
      && first.page.Some? && first.page.value.showCode
      && first.page.value.appointment == o.result.appointment
      && second.page.Some? && !second.page.value.showCode
      && second.page.value.appointment == o.result.appointment
  {
    var o := Book(req, now, store, session, code);
    var a := o.result.appointment;
    assert a.start in o.store && o.store[a.start].cancelCode == code;
  }

  /** A query-string parameter as received: absent parameters read as "". */
  function Param(p: Option<string>): string {
    if p.Some? then p.value else ""
  }

  /** What the appointments page shows. */
  datatype LookupPage = LookupPage(code: string, appointment: Option<Appointment>, end: Option<DateTime>)

  /** `appointments`: the stripped `code` parameter; no query at all for an
      empty code; otherwise the row carrying that code, if any, with its end. */
  function Appointments(codeParam: Option<string>, store: Store): (r: LookupPage)
    ensures r.code == Strip(Param(codeParam))
    ensures r.appointment.Some? <==> r.code != "" && r.code in Codes(store)
    ensures r.appointment.Some? ==>
      r.appointment.value in store.Values && r.appointment.value.cancelCode == r.code
    ensures r.end.Some? <==> r.appointment.Some?
    ensures r.end.Some? ==> Micros(r.end.value) == Micros(r.appointment.value.start) + 3600 * 1000000
  {
    var code := Strip(Param(codeParam));
    var a := if code != "" then FindByCode(store, code) else None;
    LookupPage(code, a, if a.Some? then Some(EndTime(a.value.start)) else None)
  }

  /** Booking and then looking the code up finds the booked appointment. */
  lemma BookThenLookUp(req: BookingRequest, now: DateTime, store: Store, session: Session,
                       code: string)
    requires Valid(store)
    requires code != "" && Strip(code) == code
    requires Book(req, now, store, session, code).result.Booked?
    ensures
      var o := Book(req, now, store, session, code);
      Appointments(Some(code), o.store).appointment == Some(o.result.appointment)
  {
    var o := Book(req, now, store, session, code);
    var a := o.result.appointment;
    assert a.start in o.store && o.store[a.start].cancelCode == code;
  }

  /** GET shows the form; POST carries the typed-in confirmation code. */
  datatype CancelRequest = ShowForm | Submit(confirmCode: Option<string>)

  datatype CancelResult =
    | CancelNotFound                     // 404 for an unknown code
    | CancelForm(appointment: Appointment)
    | CodeMismatch(appointment: Appointment)  // "Reference code does not match."
    | Cancelled(appointment: Appointment)

  datatype CancelOutcome = CancelOutcome(result: CancelResult, store: Store)

  /** `cancel`: an unknown code is not found; a GET or a confirmation code
      that differs from the appointment's (after stripping) changes nothing;
      a matching one deletes exactly that appointment and nothing else. */
  function Cancel(code: string, req: CancelRequest, store: Store): (r: CancelOutcome)
    ensures r.result.CancelNotFound? <==> code !in Codes(store)
    ensures r.result.CancelForm? <==> code in Codes(store) && req.ShowForm?
    ensures !r.result.CancelNotFound? ==>
      r.result.appointment in store.Values && r.result.appointment.cancelCode == code
    ensures !r.result.Cancelled? ==> r.store == store
    ensures r.result.Cancelled? <==>
      code in Codes(store) && req.Submit? && Strip(Param(req.confirmCode)) == code
    ensures r.result.Cancelled? ==>
      && r.result.appointment in store.Values && r.result.appointment.cancelCode == code
      && r.store.Keys == store.Keys - {r.result.appointment.start}
      && forall t :: t in r.store ==> r.store[t] == store[t]
    ensures Valid(store) ==> Valid(r.store)
    ensures Valid(store) && r.result.Cancelled? ==> |r.store| == |store| - 1 && code !in Codes(r.store)
  {
    match FindByCode(store, code)
    case None => CancelOutcome(CancelNotFound, store)
    case Some(a) =>
      match req
      case ShowForm => CancelOutcome(CancelForm(a), store)
      case Submit(confirmCode) =>
        if Strip(Param(confirmCode)) != a.cancelCode then CancelOutcome(CodeMismatch(a), store)
        else
          CancelOutcome(Cancelled(a), Delete(store, a.start))
  }

  /** A value the `<str:code>` segment of the `confirm/` and `cancel/` routes
      can carry: Django's `str` converter matches `[^/]+`. */
  predicate Routable(code: string) {
    code != "" && '/' !in code
  }

  /** Where `cancel_lookup` sends the client. */
  datatype LookupRedirect =
    | AskForCode        // "Please enter a reference code." and back to the appointments page
    | ToCancel(code: string)
    | ServerError       // reversing the cancel route fails (NoReverseMatch): HTTP 500
    | UnknownCode       // the cancel page's "not found", without visiting it

  /** `cancel_lookup` as written: a blank code is refused; otherwise it
      redirects to the cancel page of the stripped code, and reversing that
      route fails for a code holding '/'. */
  function CancelLookup(codeParam: Option<string>): (r: LookupRedirect)
    ensures r.AskForCode? <==> AllSpace(Param(codeParam))
    ensures r.ServerError? <==> !AllSpace(Param(codeParam)) && '/' in Strip(Param(codeParam))
    ensures r.ToCancel? <==> Routable(Strip(Param(codeParam)))
    ensures r.ToCancel? ==> r.code == Strip(Param(codeParam))
    ensures !r.UnknownCode?
  {
    var code := Strip(Param(codeParam));
    if code == "" then AskForCode
    else if '/' in code then ServerError
    else ToCancel(code)
  }

  /** A typed-in code with a slash turns the lookup into a server error. */
  lemma CancelLookupSlashFails()
    ensures CancelLookup(Some("ab/cd")) == ServerError
  {
    StripTrimmed("ab/cd");
  }

  /** `cancel_lookup` as evidently intended: a code the route cannot carry
      is answered as an unknown code. No generated code holds '/'
      (`token_urlsafe` uses letters, digits, '-' and '_'). */
  function CancelLookupCorrected(codeParam: Option<string>): (r: LookupRedirect)
    ensures r.AskForCode? <==> AllSpace(Param(codeParam))
    ensures r.ToCancel? <==> Routable(Strip(Param(codeParam)))
    ensures r.ToCancel? ==> r.code == Strip(Param(codeParam))
    ensures !r.ServerError?
  {
    var code := Strip(Param(codeParam));
    if code == "" then AskForCode
    else if '/' in code then UnknownCode
    else ToCancel(code)
  }

  /** The corrected lookup never fails, only ever redirects to a route that
      exists, and agrees with the original wherever the original works. */
  lemma CancelLookupCorrectedAgrees(codeParam: Option<string>)
    ensures CancelLookupCorrected(codeParam).ToCancel? ==> Routable(CancelLookupCorrected(codeParam).code)
    ensures !CancelLookup(codeParam).ServerError? ==> CancelLookupCorrected(codeParam) == CancelLookup(codeParam)
    ensures CancelLookup(codeParam).ServerError? <==> CancelLookupCorrected(codeParam).UnknownCode?
  {
  }

  /** `cancel_check`: whether some row carries the stripped code (the probe
      queries even for an empty code). */
  function CancelCheck(codeParam: Option<string>, store: Store): (ok: bool)
    ensures ok <==> exists t :: t in store && store[t].cancelCode == Strip(Param(codeParam))
  {
    Strip(Param(codeParam)) in Codes(store)
  }

  /** After a successful cancellation the probe no longer finds the code,
      while it did find it before. */
  lemma CancelThenCheck(code: string, confirmCode: string, store: Store)
    requires Valid(store)
    requires Strip(code) == code
    requires Cancel(code, Submit(Some(confirmCode)), store).result.Cancelled?
    ensures CancelCheck(Some(code), store)
    ensures !CancelCheck(Some(code), Cancel(code, Submit(Some(confirmCode)), store).store)
  {
    var o := Cancel(code, Submit(Some(confirmCode)), store);
    assert code !in Codes(o.store);
  }
}
