/**
  Naive (timezone-less) date-times as Python's `datetime` orders them, and the
  values `datetime.fromisoformat` yields for an expiry date.  Parsing itself is
  not modelled: a parsed value is an input.
 */
module Clock {

  /** Microseconds in one day: Python datetimes resolve to the microsecond. */
  const MicrosPerDay: int := 86_400_000_000

  datatype Date = Date(year: int, month: int, day: int)

  /** A naive date-time: a calendar date and the microseconds elapsed since its midnight. */
  datatype Instant = Instant(date: Date, micro: int)

  predicate IsLeapYear(y: int) {
    y % 4 == 0 && (y % 100 != 0 || y % 400 == 0)
  }

  function DaysInMonth(y: int, m: int): (n: int)
    requires 1 <= m <= 12
    ensures 28 <= n <= 31
    ensures n == 29 <==> m == 2 && IsLeapYear(y)
  {
    if m == 2 then (if IsLeapYear(y) then 29 else 28)
    else if m == 4 || m == 6 || m == 9 || m == 11 then 30
    else 31
  }

  /** The dates Python's `date` can represent. */
  predicate ValidDate(d: Date) {
    && 1 <= d.year <= 9999
    && 1 <= d.month <= 12
    && 1 <= d.day <= DaysInMonth(d.year, d.month)
  }

  predicate ValidInstant(t: Instant) {
    ValidDate(t.date) && 0 <= t.micro < MicrosPerDay
  }

  /** Calendar order: year, then month, then day. */
  predicate DateBefore(a: Date, b: Date) {
    || a.year < b.year
    || (a.year == b.year && a.month < b.month)
    || (a.year == b.year && a.month == b.month && a.day < b.day)
  }

  /** A date's position on a day line that keeps calendar order (gaps are harmless). */
  function DayIndex(d: Date): int {
    (d.year * 13 + d.month) * 32 + d.day
  }

  /** An instant's position on a microsecond line: its day's position, then the time of day. */
  function Timeline(t: Instant): int {
    DayIndex(t.date) * MicrosPerDay + t.micro
  }

  /**
    Python's `<` on two naive datetimes.  On valid instants it is the order
    of their positions on the microsecond time line.
   */
  function Before(a: Instant, b: Instant): (r: bool)
    ensures ValidInstant(a) && ValidInstant(b) ==> (r <==> Timeline(a) < Timeline(b))
  {
    TimelineOrder(a, b);
    DateBefore(a.date, b.date) || (a.date == b.date && a.micro < b.micro)
  }

  /** Calendar order of valid dates is the order of their day positions. */
  lemma DayIndexOrder(a: Date, b: Date)
    requires ValidDate(a) && ValidDate(b)
    ensures DateBefore(a, b) <==> DayIndex(a) < DayIndex(b)
    ensures a == b <==> DayIndex(a) == DayIndex(b)
  {
  }

  /** Lexicographic order on (date, microsecond) is the numeric order of `Timeline`. */
  lemma TimelineOrder(a: Instant, b: Instant)
    ensures ValidInstant(a) && ValidInstant(b) ==>
              ((DateBefore(a.date, b.date) || (a.date == b.date && a.micro < b.micro))
               <==> Timeline(a) < Timeline(b))
  {
    if ValidInstant(a) && ValidInstant(b) {
      DayIndexOrder(a.date, b.date);
      var da, db := DayIndex(a.date), DayIndex(b.date);
      if da < db {
        assert db * MicrosPerDay - da * MicrosPerDay == (db - da) * MicrosPerDay;
        assert (db - da) * MicrosPerDay >= MicrosPerDay;
      } else if db < da {
        assert da * MicrosPerDay - db * MicrosPerDay == (da - db) * MicrosPerDay;
        assert (da - db) * MicrosPerDay >= MicrosPerDay;
      }
    }
  }

  /** The instant a date-only ISO string parses to: 00:00:00 of that day. */
  function Midnight(d: Date): (t: Instant)
    ensures t.date == d
    ensures ValidDate(d) ==> ValidInstant(t)
    ensures forall u: Instant :: u.date == d && ValidInstant(u) ==> !Before(u, t)
  {
    Instant(d, 0)
  }

  /**
    What `datetime.fromisoformat` returns for an expiry string: a date alone
    ("2028-01-15", which is midnight), a naive date-time, or a date-time with a
    UTC offset (an "aware" datetime, which Python refuses to order against a
    naive one).
   */
  datatype ParsedDate =
    | DateOnly(date: Date)
    | Naive(at: Instant)
    | Aware(at: Instant, offsetMinutes: int)
  {
    /** The naive instant this value denotes, when it is naive. */
    function AsNaive(): (t: Instant)
      requires !Aware?
      ensures DateOnly? ==> t == Midnight(date)
      ensures Naive? ==> t == at
    {
      match this
      case DateOnly(d) => Midnight(d)
      case Naive(t) => t
    }
  }

  /** `Before` is a strict total order on instants: irreflexive, transitive and total. */
  lemma BeforeIsStrictTotalOrder(a: Instant, b: Instant, c: Instant)
    ensures !Before(a, a)
    ensures Before(a, b) && Before(b, c) ==> Before(a, c)
    ensures a != b ==> Before(a, b) || Before(b, a)
    ensures !(Before(a, b) && Before(b, a))
  {
  }

  /**
    A date-only expiry compared with a valid "now": the expiry lies strictly
    before now exactly when now is on a later day, or on the expiry day itself
    at any instant after midnight.
   */
  lemma DateOnlyExpiryBoundary(d: Date, now: Instant)
    requires ValidInstant(now)
    ensures Before(DateOnly(d).AsNaive(), now) <==>
              DateBefore(d, now.date) || (now.date == d && now.micro > 0)
    ensures now == Midnight(d) ==> !Before(DateOnly(d).AsNaive(), now)
  {
  }
}
