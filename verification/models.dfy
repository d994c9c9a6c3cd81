/** The `Appointment` record, its choice enumerations, and the appointment
    table with its two storage-level uniqueness constraints (start instant
    and cancellation code) and its default ordering by start instant. */
module Models {
  import opened Common
  import opened Civil

  /** `max_length` of both name columns. */
  const MaxNameLength := 80

  datatype TherapyType = Cbt | Couples | Mindfulness

  datatype SessionFormat = FaceToFace | Online

  const DefaultTherapy: TherapyType := Cbt
  const DefaultFormat: SessionFormat := FaceToFace

  /** The value stored in the `therapy_type` column for each choice. */
  function TherapyValue(t: TherapyType): string {
    match t
    case Cbt => "cbt"
    case Couples => "couples"
    case Mindfulness => "mindfulness"
  }

  /** The value stored in the `session_format` column for each choice. */
  function FormatValue(f: SessionFormat): string {
    match f
    case FaceToFace => "face_to_face"
    case Online => "online"
  }

  /** Choice validation: a submitted string is accepted exactly when it is
      the stored value of one of the choices. */
  function ParseTherapy(s: string): (r: Option<TherapyType>)
    ensures r.Some? ==> TherapyValue(r.value) == s
    ensures r.None? ==> forall t :: TherapyValue(t) != s
  {
    if s == "cbt" then Some(Cbt)
    else if s == "couples" then Some(Couples)
    else if s == "mindfulness" then Some(Mindfulness)
    else None
  }

  function ParseFormat(s: string): (r: Option<SessionFormat>)
    ensures r.Some? ==> FormatValue(r.value) == s
    ensures r.None? ==> forall f :: FormatValue(f) != s
  {
    if s == "face_to_face" then Some(FaceToFace)
    else if s == "online" then Some(Online)
    else None
  }

  /** Every choice survives being stored and read back, and the default is
      one of the choices. */
  lemma ChoicesRoundTrip(t: TherapyType, f: SessionFormat)
    ensures ParseTherapy(TherapyValue(t)) == Some(t)
    ensures ParseFormat(FormatValue(f)) == Some(f)
    ensures ParseTherapy("cbt") == Some(DefaultTherapy)
    ensures ParseFormat("face_to_face") == Some(DefaultFormat)
  {
  }

  datatype Appointment = Appointment(
    firstName: string,
    lastName: string,
    start: DateTime,
    therapy: TherapyType,
    format: SessionFormat,
    cancelCode: string,
    createdAt: DateTime)

  predicate NamesFit(a: Appointment) {
    |a.firstName| <= MaxNameLength && |a.lastName| <= MaxNameLength
  }

  /** The initial of a last name, absent for an empty one. */
  function Initial(last: string): Option<char> {
    if last == "" then None else Some(last[0])
  }

  /** "First L." when there is a last name, else just the first name. */
  function DisplayName(a: Appointment): (r: string)
    ensures |r| >= |a.firstName| && r[..|a.firstName|] == a.firstName
    ensures a.lastName == "" ==> r == a.firstName
    ensures a.lastName != "" ==> r[|a.firstName|..] == " " + [a.lastName[0]] + "."
  {
    if a.lastName != "" then a.firstName + " " + [a.lastName[0]] + "."
    else a.firstName
  }

  /** For a fixed first name the display name reveals the last name's initial
      and nothing more: two display names agree exactly when the initials do. */
  lemma DisplayNameShowsOnlyInitial(a: Appointment, b: Appointment)
    requires a.firstName == b.firstName
    ensures DisplayName(a) == DisplayName(b) <==> Initial(a.lastName) == Initial(b.lastName)
  {
    var f := a.firstName;
    if a.lastName != "" && b.lastName != "" && DisplayName(a) == DisplayName(b) {
      assert DisplayName(a)[|f| + 1] == a.lastName[0];
      assert DisplayName(b)[|f| + 1] == b.lastName[0];
    }
    if (a.lastName == "") != (b.lastName == "") {
      assert |DisplayName(a)| != |DisplayName(b)|;
    }
  }

  /** The appointment table, keyed by the unique `start_datetime` column. */
  type Store = map<DateTime, Appointment>

  /** The cancellation codes in use. */
  function Codes(s: Store): set<string> {
    set t | t in s :: s[t].cancelCode
  }

  predicate CodesUnique(s: Store) {
    forall t1, t2 :: t1 in s && t2 in s && s[t1].cancelCode == s[t2].cancelCode ==> t1 == t2
  }

  /** What the table's constraints guarantee of every reachable state: each
      row sits under its own start instant (so no two rows share a start),
      no two rows share a cancellation code, and the names fit their columns. */
  predicate Valid(s: Store) {
    && (forall t :: t in s ==> s[t].start == t && NamesFit(s[t]))
    && CodesUnique(s)
  }

  /** The single atomic insert: it is rejected, leaving nothing changed, when
      either unique column would be duplicated; otherwise it adds exactly one row. */
  function InsertUnique(s: Store, a: Appointment): (r: Option<Store>)
    ensures r.Some? <==> a.start !in s && a.cancelCode !in Codes(s)
    ensures r.Some? ==> r.value.Keys == s.Keys + {a.start} && r.value[a.start] == a
    ensures r.Some? ==> forall t :: t in s ==> r.value[t] == s[t]
    ensures r.Some? ==> |r.value| == |s| + 1
    ensures r.Some? && Valid(s) && NamesFit(a) ==> Valid(r.value)
  {
    if a.start in s || a.cancelCode in Codes(s) then None
    else
      InsertKeepsValid(s, a);
      Some(s[a.start := a])
  }

  lemma InsertKeepsValid(s: Store, a: Appointment)
    requires a.start !in s && a.cancelCode !in Codes(s)
    ensures Valid(s) && NamesFit(a) ==> Valid(s[a.start := a])
  {
    var s' := s[a.start := a];
    if Valid(s) && NamesFit(a) {
      forall t1, t2 | t1 in s' && t2 in s' && s'[t1].cancelCode == s'[t2].cancelCode
        ensures t1 == t2
      {
        if t1 != a.start && t2 != a.start {
          assert s[t1].cancelCode == s[t2].cancelCode;
        }
      }
    }
  }

  /** Deleting one row keeps the table valid and touches no other row. */
  function Delete(s: Store, t: DateTime): (r: Store)
    ensures r.Keys == s.Keys - {t}
    ensures forall u :: u in r ==> r[u] == s[u]
    ensures Valid(s) ==> Valid(r)
  {
    s - {t}
  }

  predicate IsEarliest(m: DateTime, keys: set<DateTime>) {
    m in keys && forall k :: k in keys ==> AtOrBefore(m, k)
  }

  lemma {:induction false} EarliestExists(keys: set<DateTime>)
    requires keys != {}
    ensures exists m :: IsEarliest(m, keys)
    decreases |keys|
  {
    var x :| x in keys;
    if keys == {x} {
      assert IsEarliest(x, keys);
    } else {
      var rest := keys - {x};
      EarliestExists(rest);
      var m :| IsEarliest(m, rest);
      BeforeTrichotomy(x, m);
      if Before(x, m) {
        forall k | k in keys
          ensures AtOrBefore(x, k)
        {
          if k != x {
            assert AtOrBefore(m, k);
            if Before(m, k) { BeforeTransitive(x, m, k); }
          }
        }
        assert IsEarliest(x, keys);
      } else {
        assert IsEarliest(m, keys);
      }
    }
  }

  /** The earliest of a non-empty set of instants (unique, as the order is total). */
  function Earliest(keys: set<DateTime>): (m: DateTime)
    requires keys != {}
    ensures IsEarliest(m, keys)
  {
    EarliestExists(keys);
    var m :| IsEarliest(m, keys);
    m
  }

  /** The instants of a set, earliest first. */
  function SortedStarts(keys: set<DateTime>): (r: seq<DateTime>)
    ensures Ascending(r)
    ensures forall t :: t in r <==> t in keys
    ensures |r| == |keys|
    decreases |keys|
  {
    if keys == {} then []
    else
      var m := Earliest(keys);
      var rest := SortedStarts(keys - {m});
      assert forall i :: 0 <= i < |rest| ==> Before(m, rest[i]) by {
        forall i | 0 <= i < |rest|
          ensures Before(m, rest[i])
        {
          assert rest[i] in keys - {m};
          assert AtOrBefore(m, rest[i]);
        }
      }
      [m] + rest
  }

  /** The table as a queryset with the model's default ordering:
      every row once, in ascending `start_datetime` order. */
  function Enumerate(s: Store): (r: seq<Appointment>)
    ensures |r| == |s|
    ensures forall a :: a in r <==> a in s.Values
    ensures Valid(s) ==> Ascending(Starts(r))
  {
    var ks := SortedStarts(s.Keys);
    var r := RowsAt(s, ks);
    RowsAtCoversTable(s, ks);
    RowsAtStarts(s, ks);
    r
  }

  /** The rows of s under the given keys, in the keys' order. */
  function RowsAt(s: Store, ks: seq<DateTime>): seq<Appointment>
    requires forall t :: t in ks ==> t in s
  {
    seq(|ks|, i requires 0 <= i < |ks| => s[ks[i]])
  }

  lemma RowsAtCoversTable(s: Store, ks: seq<DateTime>)
    requires forall t :: t in ks <==> t in s
    ensures forall a :: a in RowsAt(s, ks) <==> a in s.Values
  {
    var r := RowsAt(s, ks);
    forall a | a in s.Values
      ensures a in r
    {
      var t :| t in s && s[t] == a;
      var i :| 0 <= i < |ks| && ks[i] == t;
      assert r[i] == a;
    }
  }

  lemma RowsAtStarts(s: Store, ks: seq<DateTime>)
    requires forall t :: t in ks ==> t in s
    ensures Valid(s) ==> Starts(RowsAt(s, ks)) == ks
  {
  }

  function Starts(rows: seq<Appointment>): seq<DateTime> {
    seq(|rows|, i requires 0 <= i < |rows| => rows[i].start)
  }

  /** The first appointment of a sequence that carries the given code. */
  function FirstWithCode(rows: seq<Appointment>, code: string): (r: Option<Appointment>)
    ensures r.Some? ==> r.value in rows && r.value.cancelCode == code
    ensures r.Some? ==> exists i :: 0 <= i < |rows| && rows[i] == r.value
                                    && forall j :: 0 <= j < i ==> rows[j].cancelCode != code
    ensures r.None? <==> forall a :: a in rows ==> a.cancelCode != code
  {
    if rows == [] then None
    else if rows[0].cancelCode == code then Some(rows[0])
    else
      var r := FirstWithCode(rows[1..], code);
      assert r.Some? ==> exists i :: 0 <= i < |rows| && rows[i] == r.value
                                     && forall j :: 0 <= j < i ==> rows[j].cancelCode != code by {
        if r.Some? {
          var k :| 0 <= k < |rows[1..]| && rows[1..][k] == r.value
                   && forall j :: 0 <= j < k ==> rows[1..][j].cancelCode != code;
          assert rows[k + 1] == r.value;
          assert forall j :: 0 <= j < k + 1 ==> rows[j].cancelCode != code by {
            forall j | 0 <= j < k + 1
              ensures rows[j].cancelCode != code
            {
              if j > 0 {
                assert rows[j] == rows[1..][j - 1];
              }
            }
          }
        }
      }
      r
  }

  /** `Appointment.objects.filter(cancel_code=code).first()`: absent exactly when
      no row carries the code; in a valid table it is the one row that does. */
  function FindByCode(s: Store, code: string): (r: Option<Appointment>)
    ensures r.None? <==> code !in Codes(s)
    ensures r.Some? ==> r.value in s.Values && r.value.cancelCode == code
    ensures r.Some? && Valid(s) ==> r.value.start in s && s[r.value.start] == r.value
    ensures Valid(s) ==> forall t :: t in s && s[t].cancelCode == code ==> r == Some(s[t])
  {
    var r := FirstWithCode(Enumerate(s), code);
    FindByCodeAbsent(s, code, r);
    FindByCodeUnique(s, code, r);
    r
  }

  lemma FindByCodeAbsent(s: Store, code: string, r: Option<Appointment>)
    requires r == FirstWithCode(Enumerate(s), code)
    ensures r.None? <==> code !in Codes(s)
  {
    var e := Enumerate(s);
    if r.None? {
      forall t | t in s
        ensures s[t].cancelCode != code
      {
        assert s[t] in s.Values;
        assert s[t] in e;
      }
    } else {
      assert r.value in s.Values;
    }
  }

  /** In a valid table a row found by its code is the row under its start,
      and the only row with that code. */
  lemma FindByCodeUnique(s: Store, code: string, r: Option<Appointment>)
    requires r.Some? ==> r.value in s.Values && r.value.cancelCode == code
    requires r.None? <==> code !in Codes(s)
    ensures r.Some? && Valid(s) ==> r.value.start in s && s[r.value.start] == r.value
    ensures Valid(s) ==> forall t :: t in s && s[t].cancelCode == code ==> r == Some(s[t])
  {
    if r.Some? && Valid(s) {
      var u :| u in s && s[u] == r.value;
      assert u == r.value.start;
      forall t | t in s && s[t].cancelCode == code
        ensures r == Some(s[t])
      {
        assert s[t].cancelCode == s[u].cancelCode;
      }
    }
  }
}
