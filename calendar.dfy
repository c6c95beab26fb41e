/** Calendar dates as Python's `datetime.date` has them (proleptic
    Gregorian, years 1 to 9999), their successor, and the inclusive day
    range `pd.date_range(start, end)` enumerates. */
module Calendar {

  const MinYear := 1
  const MaxYear := 9999

  datatype Date = Date(year: int, month: int, day: int)

  /** The latest date `datetime.date` can represent; it has no successor. */
  const LastDate := Date(MaxYear, 12, 31)

  predicate IsLeapYear(y: int) {
    y % 4 == 0 && (y % 100 != 0 || y % 400 == 0)
  }

  function DaysInMonth(y: int, m: int): (n: int)
    requires 1 <= m <= 12
    ensures 28 <= n <= 31
    ensures n == 29 <==> m == 2 && IsLeapYear(y)
  {
    if m == 2 then (if IsLeapYear(y) then 29 else 28)
    else if m == 4 || m == 6 || m == 9 || m == 11 then 30
    else 31
  }

  predicate Valid(d: Date) {
    MinYear <= d.year <= MaxYear && 1 <= d.month <= 12
    && 1 <= d.day <= DaysInMonth(d.year, d.month)
  }

  /** Chronological order, which is the lexicographic order of
      (year, month, day), as Python compares dates. */
  predicate Before(a: Date, b: Date) {
    a.year < b.year
    || (a.year == b.year && (a.month < b.month || (a.month == b.month && a.day < b.day)))
  }

  predicate AtOrBefore(a: Date, b: Date) {
    a == b || Before(a, b)
  }

  lemma BeforeTransitive(a: Date, b: Date, c: Date)
    requires Before(a, b) && Before(b, c)
    ensures Before(a, c)
  {
  }

  /** The following calendar day: the next day of the month, else the first
      of the next month, else January 1st of the next year. It is a valid
      date later than `d`. */
  function NextDay(d: Date): (r: Date)
    requires Valid(d) && d != LastDate
    ensures Valid(r) && Before(d, r)
  {
    if d.day < DaysInMonth(d.year, d.month) then Date(d.year, d.month, d.day + 1)
    else if d.month < 12 then Date(d.year, d.month + 1, 1)
    else Date(d.year + 1, 1, 1)
  }

  /** No valid date lies strictly between a date and its successor. */
  lemma NextDayNoGap(d: Date, x: Date)
    requires Valid(d) && d != LastDate && Valid(x) && Before(d, x)
    ensures AtOrBefore(NextDay(d), x)
  {
  }

  /** Every valid date before a valid date has a successor. */
  lemma NotLastBefore(a: Date, b: Date)
    requires Valid(b) && Before(a, b)
    ensures a != LastDate
  {
  }

  /** `pd.date_range(start, end)` with its default daily frequency: every
      calendar day from `start` to `end`, both included, one day apart;
      empty when `end` is before `start`. */
  function DateRange(start: Date, end: Date): (r: seq<Date>)
    requires Valid(start) && Valid(end)
    ensures r == [] <==> Before(end, start)
    ensures r != [] ==> r[0] == start && r[|r| - 1] == end
    ensures forall k :: 0 <= k < |r| ==>
      Valid(r[k]) && AtOrBefore(start, r[k]) && AtOrBefore(r[k], end)
    ensures forall k :: 0 <= k < |r| - 1 ==> r[k] != LastDate && r[k + 1] == NextDay(r[k])
    decreases end.year - start.year, 12 - start.month, 31 - start.day
  {
    if Before(end, start) then []
    else if start == end then [start]
    else
      NotLastBefore(start, end);
      [start] + DateRange(NextDay(start), end)
  }

  predicate StrictlyAscending(s: seq<Date>) {
    forall p, q :: 0 <= p < q < |s| ==> Before(s[p], s[q])
  }

  /** Dates in the range strictly increase, so none occurs twice. */
  lemma {:induction false} DateRangeAscending(start: Date, end: Date)
    requires Valid(start) && Valid(end)
    ensures StrictlyAscending(DateRange(start, end))
    decreases end.year - start.year, 12 - start.month, 31 - start.day
  {
    if !Before(end, start) && start != end {
      NotLastBefore(start, end);
      var next := NextDay(start);
      DateRangeAscending(next, end);
      var rest := DateRange(next, end);
      assert DateRange(start, end) == [start] + rest;
      AscendingCons(start, rest);
    }
  }

  lemma AscendingCons(d: Date, rest: seq<Date>)
    requires StrictlyAscending(rest) && (rest != [] ==> Before(d, rest[0]))
    ensures StrictlyAscending([d] + rest)
  {
    var r := [d] + rest;
    forall p, q | 0 <= p < q < |r| ensures Before(r[p], r[q]) {
      assert r[q] == rest[q - 1];
      if p == 0 {
        if q > 1 {
          BeforeTransitive(d, rest[0], rest[q - 1]);
        }
      } else {
        assert r[p] == rest[p - 1];
      }
    }
  }

  /** The range misses no day: every valid date from `start` to `end` is
      in it. */
  lemma {:induction false} DateRangeComplete(start: Date, end: Date, x: Date)
    requires Valid(start) && Valid(end) && Valid(x)
    requires AtOrBefore(start, x) && AtOrBefore(x, end)
    ensures x in DateRange(start, end)
    decreases end.year - start.year, 12 - start.month, 31 - start.day
  {
    if x != start {
      NotLastBefore(start, end);
      var next := NextDay(start);
      NextDayNoGap(start, x);
      DateRangeComplete(next, end, x);
      assert DateRange(start, end) == [start] + DateRange(next, end);
    }
  }

  /** Membership in the range is exactly "a valid date from `start` to
      `end`". */
  lemma DateRangeMembership(start: Date, end: Date, x: Date)
    requires Valid(start) && Valid(end)
    ensures x in DateRange(start, end) <==> Valid(x) && AtOrBefore(start, x) && AtOrBefore(x, end)
  {
    if Valid(x) && AtOrBefore(start, x) && AtOrBefore(x, end) {
      DateRangeComplete(start, end, x);
    }
  }
}
