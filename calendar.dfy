/** Calendar date-times (Python's `datetime`, JavaScript's `Date` read in UTC)
    and the fixed-width text forms the journal prints them in. */
module Calendar {
  import opened Wrappers
  import opened Text

  /** The fields of a date-time, to the microsecond. */
  datatype Moment = Moment(year: int, month: int, day: int,
                           hour: int, minute: int, second: int, microsecond: int)

  predicate IsLeapYear(y: int) {
    y % 4 == 0 && (y % 100 != 0 || y % 400 == 0)
  }

  function DaysInMonth(y: int, m: int): (d: int)
    requires 1 <= m <= 12
    ensures 28 <= d <= 31
  {
    if m == 2 then (if IsLeapYear(y) then 29 else 28)
    else if m == 4 || m == 6 || m == 9 || m == 11 then 30
    else 31
  }

  /** The range of Python's `datetime` (years 1 to 9999). */
  predicate ValidMoment(t: Moment) {
    && 1 <= t.year <= 9999
    && 1 <= t.month <= 12
    && 1 <= t.day <= DaysInMonth(t.year, t.month)
    && 0 <= t.hour < 24
    && 0 <= t.minute < 60
    && 0 <= t.second < 60
    && 0 <= t.microsecond < 1000000
  }

  type DateTime = t: Moment | ValidMoment(t) witness Moment(1, 1, 1, 0, 0, 0, 0)

  /** `strftime('%Y-%m-%d')`: four-digit year, two-digit month and day. */
  function DateString(t: DateTime): (s: string)
    ensures |s| == 10 && s[4] == '-' && s[7] == '-'
  {
    ZeroPadValue(t.year, 4);
    ZeroPadValue(t.month, 2);
    ZeroPadValue(t.day, 2);
    ZeroPad(t.year, 4) + "-" + ZeroPad(t.month, 2) + "-" + ZeroPad(t.day, 2)
  }

  /** Reads a `YYYY-MM-DD` text back into year, month and day. */
  function ParseDate(s: string): Option<(int, int, int)>
  {
    if |s| == 10 && s[4] == '-' && s[7] == '-'
       && AllDigits(s[..4]) && AllDigits(s[5..7]) && AllDigits(s[8..])
    then Some((ParseNat(s[..4]), ParseNat(s[5..7]), ParseNat(s[8..])))
    else None
  }

  /** The date text determines the calendar day it was printed from. */
  lemma DateStringRoundTrip(t: DateTime)
    ensures ParseDate(DateString(t)) == Some((t.year, t.month, t.day))
  {
    var s := DateString(t);
    ZeroPadValue(t.year, 4);
    ZeroPadValue(t.month, 2);
    ZeroPadValue(t.day, 2);
    assert s[..4] == ZeroPad(t.year, 4);
    assert s[5..7] == ZeroPad(t.month, 2);
    assert s[8..] == ZeroPad(t.day, 2);
  }

  /** Two-digit clock field (`%H`, `%M`, `%S`). */
  function Two(n: nat): (s: string)
    requires n < 100
    ensures |s| == 2 && AllDigits(s) && ParseNat(s) == n
  {
    ZeroPadValue(n, 2);
    ZeroPad(n, 2)
  }

  /** `datetime.isoformat()` of a naive date-time: `YYYY-MM-DDTHH:MM:SS`,
      followed by `.ffffff` when the microseconds are not zero. */
  function IsoFormat(t: DateTime): (s: string)
    ensures |s| == (if t.microsecond == 0 then 19 else 26)
    ensures s[..10] == DateString(t) && s[10] == 'T'
  {
    ZeroPadValue(t.microsecond, 6);
    var clock := Two(t.hour) + ":" + Two(t.minute) + ":" + Two(t.second);
    var fraction := if t.microsecond == 0 then "" else "." + ZeroPad(t.microsecond, 6);
    var s := DateString(t) + "T" + clock + fraction;
    assert s[..10] == DateString(t);
    s
  }

  /** A number that orders date-times chronologically (see InstantOrder). */
  function Instant(t: Moment): int {
    ((((((t.year * 12 + (t.month - 1)) * 31 + (t.day - 1)) * 24 + t.hour) * 60
       + t.minute) * 60 + t.second) * 1000000) + t.microsecond
  }

  /** Chronological order: field by field, most significant first. */
  predicate Earlier(a: Moment, b: Moment) {
    || a.year < b.year
    || (a.year == b.year && a.month < b.month)
    || (a.year == b.year && a.month == b.month && a.day < b.day)
    || (a.year == b.year && a.month == b.month && a.day == b.day && a.hour < b.hour)
    || (a.year == b.year && a.month == b.month && a.day == b.day && a.hour == b.hour
        && a.minute < b.minute)
    || (a.year == b.year && a.month == b.month && a.day == b.day && a.hour == b.hour
        && a.minute == b.minute && a.second < b.second)
    || (a.year == b.year && a.month == b.month && a.day == b.day && a.hour == b.hour
        && a.minute == b.minute && a.second == b.second && a.microsecond < b.microsecond)
  }

  /** Comparing instants is comparing date-times chronologically. */
  lemma InstantOrder(a: DateTime, b: DateTime)
    ensures Earlier(a, b) <==> Instant(a) < Instant(b)
    ensures Instant(a) == Instant(b) <==> a == b
  {
  }
}
