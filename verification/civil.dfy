/** Civil dates and times in the practice's fixed time zone (Europe/Istanbul,
    a constant UTC+03:00 offset, so no daylight-saving gaps or folds exist).

    A date is its proleptic-Gregorian ordinal day number, the same numbering
    Python's `date.toordinal()` uses: day 1 is Monday 0001-01-01. A date-time
    carries the civil fields Python's `datetime` keeps, each in its range. */
module Civil {

  type Hour = h: int | 0 <= h < 24
  type Minute = m: int | 0 <= m < 60
  type Second = s: int | 0 <= s < 60
  type Micro = u: int | 0 <= u < 1000000

  datatype Date = Date(ordinal: int)

  datatype DateTime = DateTime(date: Date, hour: Hour, minute: Minute, second: Second, micro: Micro)

  /** Python's `date.weekday()`: 0 is Monday, 6 is Sunday, and day 1
      (0001-01-01) is a Monday. */
  function Weekday(d: Date): (w: int)
    ensures 0 <= w < 7
    ensures d.ordinal == 1 ==> w == 0
  {
    (d.ordinal + 6) % 7
  }

  /** `d + timedelta(days=n)` */
  function AddDays(d: Date, n: int): Date {
    Date(d.ordinal + n)
  }

  predicate DateBefore(a: Date, b: Date) {
    a.ordinal < b.ordinal
  }

  /** The hour that starts a slot: minute, second and microsecond all zero. */
  function AtHour(d: Date, h: Hour): DateTime {
    DateTime(d, h, 0, 0, 0)
  }

  predicate IsWholeHour(t: DateTime) {
    t.minute == 0 && t.second == 0 && t.micro == 0
  }

  /** Strict chronological order of two date-times in the same zone: the
      fields compared from the most significant to the least. */
  predicate Before(a: DateTime, b: DateTime) {
    || a.date.ordinal < b.date.ordinal
    || (a.date.ordinal == b.date.ordinal && a.hour < b.hour)
    || (a.date.ordinal == b.date.ordinal && a.hour == b.hour && a.minute < b.minute)
    || (a.date.ordinal == b.date.ordinal && a.hour == b.hour && a.minute == b.minute
        && a.second < b.second)
    || (a.date.ordinal == b.date.ordinal && a.hour == b.hour && a.minute == b.minute
        && a.second == b.second && a.micro < b.micro)
  }

  /** Python's `a <= b` on two aware datetimes of the same zone. */
  predicate AtOrBefore(a: DateTime, b: DateTime) {
    Before(a, b) || a == b
  }

  /** Strictly increasing, hence also free of duplicates. */
  predicate Ascending(ts: seq<DateTime>) {
    forall i, j :: 0 <= i < j < |ts| ==> Before(ts[i], ts[j])
  }

  predicate AscendingDates(ds: seq<Date>) {
    forall i, j :: 0 <= i < j < |ds| ==> DateBefore(ds[i], ds[j])
  }

  /** `Before` is a strict total order: exactly one of a < b, a == b, b < a. */
  lemma BeforeTrichotomy(a: DateTime, b: DateTime)
    ensures Before(a, b) || a == b || Before(b, a)
    ensures !(Before(a, b) && Before(b, a))
    ensures !Before(a, a)
  {
  }

  lemma BeforeTransitive(a: DateTime, b: DateTime, c: DateTime)
    requires Before(a, b) && Before(b, c)
    ensures Before(a, c)
  {
  }

  /** Adding n days moves the weekday forward by n, modulo 7. */
  lemma {:induction false} WeekdayAddDays(d: Date, n: int)
    ensures Weekday(AddDays(d, n)) == (Weekday(d) + n) % 7
  {
    var a := d.ordinal + 6;
    var q := a / 7;
    var w := a % 7;
    assert a == 7 * q + w;
    assert a + n == 7 * q + (w + n);
    ModShift(a + n, q, w + n);
  }

  /** Euclidean modulus is unchanged by removing a multiple of 7. */
  lemma ModShift(x: int, q: int, y: int)
    requires x == 7 * q + y
    ensures x % 7 == y % 7
  {
    var k := y / 7;
    var r := y % 7;
    assert y == 7 * k + r && 0 <= r < 7;
    assert x == 7 * (q + k) + r;
  }

  /** Microseconds since the start of ordinal day 0: the instant as one number. */
  function Micros(t: DateTime): int {
    (((t.date.ordinal * 24 + t.hour) * 60 + t.minute) * 60 + t.second) * 1000000 + t.micro
  }

  /** The field-by-field order agrees with the order of instants, in both directions. */
  lemma {:induction false} BeforeIffMicros(a: DateTime, b: DateTime)
    ensures Before(a, b) <==> Micros(a) < Micros(b)
  {
    var da := a.date.ordinal * 24 + a.hour;
    var db := b.date.ordinal * 24 + b.hour;
    assert a.date.ordinal < b.date.ordinal ==> da < db;
    assert a.date.ordinal > b.date.ordinal ==> da > db;
    var ma := (da * 60 + a.minute) * 60 + a.second;
    var mb := (db * 60 + b.minute) * 60 + b.second;
    assert da < db ==> ma < mb;
    assert da > db ==> ma > mb;
    assert ma < mb ==> Micros(a) < Micros(b);
    assert ma > mb ==> Micros(a) > Micros(b);
  }

  /** End of a one-hour session starting at t (`t + timedelta(hours=1)`). */
  function EndTime(t: DateTime): (e: DateTime)
    ensures Micros(e) == Micros(t) + 3600 * 1000000
    ensures Before(t, e)
  {
    if t.hour < 23 then t.(hour := t.hour + 1)
    else t.(date := AddDays(t.date, 1), hour := 0)
  }

  /** The elements of s that satisfy keep. Membership is stated here; the
      order of the kept elements is pinned by `FilterAppend`. */
  function Filter<T(==,!new)>(s: seq<T>, keep: T -> bool): (r: seq<T>)
    ensures forall x :: x in r <==> x in s && keep(x)
    ensures |r| <= |s|
  {
    if s == [] then []
    else
      assert forall x :: x in s[1..] ==> x in s;
      (if keep(s[0]) then [s[0]] else []) + Filter(s[1..], keep)
  }

  /** Filtering works element by element, left to right: filtering a
      concatenation concatenates the filtered parts. With `FilterSingle` this
      determines the result, so the kept elements appear in their original
      order and multiplicity. */
  lemma {:induction false} FilterAppend<T(!new)>(a: seq<T>, b: seq<T>, keep: T -> bool)
    ensures Filter(a + b, keep) == Filter(a, keep) + Filter(b, keep)
  {
    if a == [] {
      assert a + b == b;
    } else {
      assert (a + b)[0] == a[0];
      assert (a + b)[1..] == a[1..] + b;
      FilterAppend(a[1..], b, keep);
    }
  }

  /** A single element is kept exactly when it passes the test. */
  lemma FilterSingle<T(!new)>(x: T, keep: T -> bool)
    ensures Filter([x], keep) == if keep(x) then [x] else []
  {
    assert [x][1..] == [];
  }

  /** Filtering with a test every element passes changes nothing. */
  lemma {:induction false} FilterKeepsAll<T(!new)>(s: seq<T>, keep: T -> bool)
    requires forall x :: x in s ==> keep(x)
    ensures Filter(s, keep) == s
  {
    if s != [] {
      assert forall x :: x in s[1..] ==> x in s;
      FilterKeepsAll(s[1..], keep);
    }
  }

  /** Filtering an ascending list of instants leaves it ascending. */
  lemma {:induction false} FilterAscending(ts: seq<DateTime>, keep: DateTime -> bool)
    requires Ascending(ts)
    ensures Ascending(Filter(ts, keep))
  {
    if ts != [] {
      var rest := Filter(ts[1..], keep);
      FilterAscending(ts[1..], keep);
      assert forall t :: t in rest ==> Before(ts[0], t) by {
        forall t | t in rest
          ensures Before(ts[0], t)
        {
          var j :| 0 <= j < |ts[1..]| && ts[1..][j] == t;
        }
      }
    }
  }

  /** Filtering an ascending list of dates leaves it ascending. */
  lemma {:induction false} FilterAscendingDates(ds: seq<Date>, keep: Date -> bool)
    requires AscendingDates(ds)
    ensures AscendingDates(Filter(ds, keep))
  {
    if ds != [] {
      var rest := Filter(ds[1..], keep);
      FilterAscendingDates(ds[1..], keep);
      assert forall d :: d in rest ==> DateBefore(ds[0], d) by {
        forall d | d in rest
          ensures DateBefore(ds[0], d)
        {
          var j :| 0 <= j < |ds[1..]| && ds[1..][j] == d;
        }
      }
    }
  }
}
