/** getServiceDays (src/utils/scheduler.ts): the Sundays, Wednesdays and
    Saturdays of a month, in calendar order. */
module ServiceDayCalculator {
  import opened Calendar

  /** The first day of the month that `new Date(year, month)` denotes: years
      0..99 are read as 1900..1999, then a month outside 0..11 carries into
      the year (floor division, as JavaScript's Date does). */
  function MonthStart(month: int, year: int): (start: Date)
    ensures ValidDate(start) && start.day == 1
    ensures start.month == month % 12
    ensures 0 <= month < 12 && (year < 0 || 99 < year) ==> start == Date(year, month, 1)
    ensures 0 <= month < 12 && 0 <= year <= 99 ==> start == Date(1900 + year, month, 1)
    ensures (0 <= year <= 99 ==> start.year == 1900 + year + month / 12)
         && (year < 0 || 99 < year ==> start.year == year + month / 12)
  {
    var fullYear := if 0 <= year <= 99 then 1900 + year else year;
    Date(fullYear + month / 12, month % 12, 1)
  }

  /** Months past December or before January carry into the year, and a
      two-digit year is read in the 1900s. */
  lemma MonthStartCarry()
    ensures MonthStart(12, 2023) == Date(2024, 0, 1)
    ensures MonthStart(-1, 2024) == Date(2023, 11, 1)
    ensures MonthStart(1, 24) == Date(1924, 1, 1)
  {
  }

  /** Sunday (0), Wednesday (3) or Saturday (6). */
  predicate IsServiceWeekday(w: DayOfWeek) {
    w == 0 || w == 3 || w == 6
  }

  predicate IsServiceDay(d: Date) {
    IsServiceWeekday(Weekday(d))
  }

  /** `d` is a real day of the month that begins at `start`. */
  predicate InMonthOf(d: Date, start: Date) {
    d.year == start.year && d.month == start.month && ValidDate(d)
  }

  /** Calendar order on dates of valid form. */
  predicate Precedes(a: Date, b: Date) {
    a.year < b.year ||
    (a.year == b.year && (a.month < b.month || (a.month == b.month && a.day < b.day)))
  }

  predicate Chronological(s: seq<Date>) {
    forall i, j :: 0 <= i < j < |s| ==> Precedes(s[i], s[j])
  }

  /** eachDayOfInterval from the start to the end of the month. */
  function MonthDays(start: Date): (r: seq<Date>)
    requires ValidDate(start) && start.day == 1
    ensures |r| == DaysInMonth(start.year, start.month)
    ensures forall i :: 0 <= i < |r| ==> r[i] == Date(start.year, start.month, i + 1)
  {
    seq(DaysInMonth(start.year, start.month), i => Date(start.year, start.month, i + 1))
  }

  /** The filter on the weekday; it keeps calendar order. */
  function KeepServiceDays(days: seq<Date>): (r: seq<Date>)
    ensures forall d :: d in r <==> d in days && IsServiceDay(d)
    ensures Chronological(days) ==> Chronological(r)
  {
    if days == [] then []
    else
      var rest := KeepServiceDays(days[1..]);
      assert forall d :: d in days[1..] ==> d in days;
      assert Chronological(days) ==> forall d :: d in rest ==> Precedes(days[0], d);
      if IsServiceDay(days[0]) then [days[0]] + rest else rest
  }

  function ServiceDays(month: int, year: int): (r: seq<Date>)
    ensures forall d :: d in r <==> InMonthOf(d, MonthStart(month, year)) && IsServiceDay(d)
    ensures Chronological(r)
  {
    var start := MonthStart(month, year);
    var all := MonthDays(start);
    assert forall d :: InMonthOf(d, start) ==> d == all[d.day - 1];
    assert Chronological(all);
    KeepServiceDays(all)
  }

  /** Every month has a Sunday within its first week, so there is always a
      service day. */
  lemma ServiceDaysNonEmpty(month: int, year: int)
    ensures |ServiceDays(month, year)| > 0
  {
    var start := MonthStart(month, year);
    var sunday := FirstSunday(start);
    assert InMonthOf(sunday, start) && IsServiceDay(sunday);
    assert sunday in ServiceDays(month, year);
  }

  /** The first Sunday of the month beginning at `start` falls within its
      first seven days. */
  function FirstSunday(start: Date): (sunday: Date)
    requires ValidDate(start) && start.day == 1
    ensures sunday.year == start.year && sunday.month == start.month
    ensures ValidDate(sunday) && sunday.day <= 7 && Weekday(sunday) == 0
  {
    var w: int := Weekday(start);
    var offset := (7 - w) % 7;
    assert (w + offset) % 7 == 0;
    WeekdayInMonth(start.year, start.month, 1 + offset);
    Date(start.year, start.month, 1 + offset)
  }

  /** The service days of February 2024 (a leap February starting on a Thursday). */
  const February2024: seq<Date> :=
    [Date(2024, 1, 3), Date(2024, 1, 4), Date(2024, 1, 7), Date(2024, 1, 10),
     Date(2024, 1, 11), Date(2024, 1, 14), Date(2024, 1, 17), Date(2024, 1, 18),
     Date(2024, 1, 21), Date(2024, 1, 24), Date(2024, 1, 25), Date(2024, 1, 28)]

  lemma ServiceDaysFebruary2024()
    ensures ServiceDays(1, 2024) == February2024
  {
    forall d ensures d in ServiceDays(1, 2024) <==> d in February2024 {
      February2024Member(d);
    }
    assert Chronological(February2024);
    ChronologicalUnique(ServiceDays(1, 2024), February2024);
  }

  lemma February2024Member(d: Date)
    ensures d in ServiceDays(1, 2024) <==> d in February2024
  {
    var start := MonthStart(1, 2024);
    assert start == Date(2024, 1, 1);
    if InMonthOf(d, start) {
      assert Weekday(start) == 4;
      WeekdayInMonth(2024, 1, d.day);
      FebruaryServiceDay(d.day);
      assert d == Date(2024, 1, d.day);
    }
  }

  /** The February 2024 days whose weekday, counted from Thursday the 1st,
      is Sunday, Wednesday or Saturday. */
  lemma FebruaryServiceDay(day: int)
    requires 1 <= day <= 29
    ensures IsServiceWeekday((3 + day) % 7) <==> day in {3, 4, 7, 10, 11, 14, 17, 18, 21, 24, 25, 28}
  {
  }

  /** A chronological sequence is determined by its elements. */
  lemma {:induction false} ChronologicalUnique(a: seq<Date>, b: seq<Date>)
    requires Chronological(a) && Chronological(b)
    requires forall d :: d in a <==> d in b
    ensures a == b
  {
    if a != [] {
      assert a[0] in b;
    }
    if b != [] {
      assert b[0] in a;
    }
    if a != [] && b != [] {
      if a[0] != b[0] {
        assert false;
      }
      forall d ensures d in a[1..] <==> d in b[1..] {
        if d in a[1..] {
          var i :| 1 <= i < |a| && a[i] == d;
          assert Precedes(a[0], a[i]) && d in a && d in b;
          var j :| 0 <= j < |b| && b[j] == d;
          assert j != 0;
        }
        if d in b[1..] {
          var j :| 1 <= j < |b| && b[j] == d;
          assert Precedes(b[0], b[j]) && d in b && d in a;
          var i :| 0 <= i < |a| && a[i] == d;
          assert i != 0;
        }
      }
      ChronologicalUnique(a[1..], b[1..]);
    }
  }
}
