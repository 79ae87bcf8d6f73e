/** Civil dates, points in time and the calendar periods the `by_date`
    scope filters on. Time zones are left out: a point in time is a civil
    date and the seconds since its midnight. */
module Calendar {
  import opened RubyCore

  datatype Date = Date(year: int, month: int, day: int)

  /** A point in time: a date and the number of seconds since its midnight. */
  datatype Stamp = Stamp(date: Date, second: int)

  const SecondsPerDay := 86400

  /** The proleptic Gregorian leap-year rule. */
  predicate IsLeapYear(y: int)
  {
    y % 4 == 0 && (y % 100 != 0 || y % 400 == 0)
  }

  function DaysInMonth(y: int, m: int): (n: int)
    requires 1 <= m <= 12
    ensures 28 <= n <= 31
    ensures n == 28 <==> m == 2 && !IsLeapYear(y)
    ensures n == 29 <==> m == 2 && IsLeapYear(y)
    ensures n == 30 <==> m in {4, 6, 9, 11}
  {
    if m == 2 then (if IsLeapYear(y) then 29 else 28)
    else if m == 4 || m == 6 || m == 9 || m == 11 then 30
    else 31
  }

  predicate ValidDate(d: Date)
  {
    1 <= d.month <= 12 && 1 <= d.day <= DaysInMonth(d.year, d.month)
  }

  predicate ValidStamp(t: Stamp)
  {
    ValidDate(t.date) && 0 <= t.second < SecondsPerDay
  }

  /** `a <= b` on points in time: compare year, month, day, then second. */
  predicate AtOrBefore(a: Stamp, b: Stamp)
  {
    a.date.year < b.date.year
    || (a.date.year == b.date.year
        && (a.date.month < b.date.month
            || (a.date.month == b.date.month
                && (a.date.day < b.date.day
                    || (a.date.day == b.date.day && a.second <= b.second)))))
  }

  /** Ruby's `DateTime.new(y, m, d)`: a negative month counts back from the
      end of the year (-1 is December), a negative day from the end of the
      month (-1 is its last day); anything else out of range raises
      ArgumentError, modelled as None. */
  function Civil(y: int, m: int, d: int): (r: Option<Date>)
    ensures r.Some? <==>
      var mo := if m < 0 then m + 13 else m;
      1 <= mo <= 12 && (1 <= d <= DaysInMonth(y, mo) || -DaysInMonth(y, mo) <= d <= -1)
    ensures r.Some? ==> ValidDate(r.value) && r.value.year == y
    ensures 1 <= m <= 12 && 1 <= d <= DaysInMonth(y, m) ==> r == Some(Date(y, m, d))
    ensures m == 0 || m > 12 || m < -12 || d == 0 ==> r.None?
    ensures r.Some? && m > 0 ==> r.value.month == m
    ensures r.Some? && m < 0 ==> r.value.month == m + 13
    ensures r.Some? && d > 0 ==> r.value.day == d
    ensures r.Some? && d < 0 ==> r.value.day == DaysInMonth(y, r.value.month) + d + 1
  {
    var month := if m < 0 then m + 13 else m;
    if !(1 <= month <= 12) then None
    else
      var last := DaysInMonth(y, month);
      var day := if d < 0 then last + d + 1 else d;
      if 1 <= day <= last then Some(Date(y, month, day)) else None
  }

  /** The units `beginning_of_<unit>` and `end_of_<unit>` are asked for. */
  datatype Period = Day | Month | Year

  /** `beginning_of_day`, `beginning_of_month`, `beginning_of_year`. */
  function Beginning(t: Stamp, p: Period): (b: Stamp)
    requires ValidStamp(t)
    ensures ValidStamp(b) && AtOrBefore(b, t) && SameUnit(b, t, p)
    ensures b.second == 0
  {
    match p
    case Day => Stamp(t.date, 0)
    case Month => Stamp(Date(t.date.year, t.date.month, 1), 0)
    case Year => Stamp(Date(t.date.year, 1, 1), 0)
  }

  /** `end_of_day`, `end_of_month`, `end_of_year`, to the last second. */
  function End(t: Stamp, p: Period): (e: Stamp)
    requires ValidStamp(t)
    ensures ValidStamp(e) && AtOrBefore(t, e) && SameUnit(e, t, p)
    ensures e.second == SecondsPerDay - 1
  {
    match p
    case Day => Stamp(t.date, SecondsPerDay - 1)
    case Month =>
      Stamp(Date(t.date.year, t.date.month, DaysInMonth(t.date.year, t.date.month)), SecondsPerDay - 1)
    case Year => Stamp(Date(t.date.year, 12, 31), SecondsPerDay - 1)
  }

  /** `a` and `b` fall in the same day, month or year. */
  predicate SameUnit(a: Stamp, b: Stamp, p: Period)
  {
    match p
    case Day => a.date == b.date
    case Month => a.date.year == b.date.year && a.date.month == b.date.month
    case Year => a.date.year == b.date.year
  }

  /** `lo <= t <= hi`, the test of a Ruby range used as a `where` value. */
  predicate Within(t: Stamp, lo: Stamp, hi: Stamp)
  {
    AtOrBefore(lo, t) && AtOrBefore(t, hi)
  }

  /** The closed interval from the beginning to the end of a period holds
      exactly the points in time of that calendar day, month or year. */
  lemma PeriodBoundsMeanSameUnit(anchor: Stamp, t: Stamp, p: Period)
    requires ValidStamp(anchor) && ValidStamp(t)
    ensures Within(t, Beginning(anchor, p), End(anchor, p)) <==> SameUnit(t, anchor, p)
  {
  }

  /** Examples of `DateTime.new`: a day past the end of the month raises,
      negative arguments count from the end of the year and the month. */
  lemma CivilExamples()
    ensures Civil(2020, 2, 29) == Some(Date(2020, 2, 29))
    ensures Civil(2021, 2, 29).None?
    ensures Civil(2020, 2, 31).None?
    ensures Civil(2020, -1, 5) == Some(Date(2020, 12, 5))
    ensures Civil(2021, 2, -1) == Some(Date(2021, 2, 28))
    ensures Civil(2020, 4, -31).None?
  {
  }

  /** AtOrBefore is a total order. */
  lemma AtOrBeforeTotalOrder(a: Stamp, b: Stamp, c: Stamp)
    ensures AtOrBefore(a, a)
    ensures AtOrBefore(a, b) || AtOrBefore(b, a)
    ensures AtOrBefore(a, b) && AtOrBefore(b, a) ==> a == b
    ensures AtOrBefore(a, b) && AtOrBefore(b, c) ==> AtOrBefore(a, c)
  {
  }
}
