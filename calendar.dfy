/** Proleptic Gregorian calendar arithmetic: what the scheduler obtains from
    JavaScript's Date and from date-fns (getDay, startOfMonth, endOfMonth,
    eachDayOfInterval), written out over integers. */
module Calendar {

  /** A calendar day. As in JavaScript's Date, `month` is 0-based
      (0 = January, 11 = December) and `day` is the day of the month, from 1. */
  datatype Date = Date(year: int, month: int, day: int)

  /** 0 = Sunday, 1 = Monday, ..., 6 = Saturday, as `getDay` numbers them. */
  type DayOfWeek = d: int | 0 <= d < 7

  predicate IsLeapYear(year: int) {
    year % 4 == 0 && (year % 100 != 0 || year % 400 == 0)
  }

  function DaysInMonth(year: int, month: int): (n: int)
    requires 0 <= month < 12
    ensures 28 <= n <= 31
    ensures n == 29 <==> month == 1 && IsLeapYear(year)
  {
    if month == 1 then (if IsLeapYear(year) then 29 else 28)
    else if month == 3 || month == 5 || month == 8 || month == 10 then 30
    else 31
  }

  predicate ValidDate(d: Date) {
    0 <= d.month < 12 && 1 <= d.day <= DaysInMonth(d.year, d.month)
  }

  /** Day number of 1 March of `year`: 365 days a year plus one for every
      leap February before it (every 4th year, except every 100th, except
      every 400th), shifted so that day 0 is 1970-01-01. */
  function MarchFirst(year: int): int {
    365 * year + year / 4 - year / 100 + year / 400 - 719468
  }

  /** Days from 1 March to the first of the month `mp` months later (0..11). */
  function MonthOffset(mp: int): int
    requires 0 <= mp < 12
  {
    (153 * mp + 2) / 5
  }

  /** Days since 1970-01-01 (negative before it). Like JavaScript's
      `new Date(year, month, day)`, a month outside 0..11 carries into the
      year and a day outside the month runs into the neighbouring months. */
  function DayNumber(d: Date): int {
    var year, month := d.year + d.month / 12, d.month % 12;
    var marchYear := if month < 2 then year - 1 else year;
    var mp := if month < 2 then month + 10 else month - 2;
    MarchFirst(marchYear) + MonthOffset(mp) + d.day - 1
  }

  /** The day of the week, as `getDay` computes it: 1970-01-01 was a Thursday. */
  function Weekday(d: Date): (w: DayOfWeek)
    ensures d == Date(1970, 0, 1) ==> w == 4
    ensures d == Date(1970, 0, 4) ==> w == 0
  {
    assert MarchFirst(1969) + MonthOffset(10) == 0;
    (DayNumber(d) + 4) % 7
  }

  /** The calendar day after `d`. */
  function NextDay(d: Date): Date
    requires ValidDate(d)
  {
    if d.day < DaysInMonth(d.year, d.month) then Date(d.year, d.month, d.day + 1)
    else if d.month < 11 then Date(d.year, d.month + 1, 1)
    else Date(d.year + 1, 0, 1)
  }

  /** A March-based year has 366 days exactly when the February it ends with
      is a leap February. */
  lemma MarchYearLength(year: int)
    ensures MarchFirst(year + 1) - MarchFirst(year) == if IsLeapYear(year + 1) then 366 else 365
  {
    FloorDivStep(year, 4);
    FloorDivStep(year, 100);
    FloorDivStep(year, 400);
  }

  /** Floor division by `k` steps up by one exactly at the multiples of `k`. */
  lemma FloorDivStep(n: int, k: int)
    requires k == 4 || k == 100 || k == 400
    ensures (n + 1) / k - n / k == if (n + 1) % k == 0 then 1 else 0
  {
    var q, r := n / k, n % k;
    assert n == k * q + r && 0 <= r < k;
    if r < k - 1 {
      assert n + 1 == k * q + (r + 1);
    } else {
      assert n + 1 == k * (q + 1);
    }
  }

  /** Day numbers are consecutive: the day after `d` is numbered one more.
      Together with DayNumberEpoch this pins DayNumber (and hence Weekday)
      down to the proleptic Gregorian calendar. */
  lemma DayNumberNext(d: Date)
    requires ValidDate(d)
    ensures ValidDate(NextDay(d))
    ensures DayNumber(NextDay(d)) == DayNumber(d) + 1
  {
    if d.day < DaysInMonth(d.year, d.month) {
      InRangeMonth(d.year, d.month);
    } else if d.month < 11 {
      DayNumberNextMonth(d.year, d.month);
    } else {
      InRangeMonth(d.year, d.month);
      InRangeMonth(d.year + 1, 0);
    }
  }

  /** The first of the next month follows the last day of this one. */
  lemma DayNumberNextMonth(year: int, month: int)
    requires 0 <= month < 11
    ensures DayNumber(Date(year, month + 1, 1)) == DayNumber(Date(year, month, DaysInMonth(year, month))) + 1
  {
    InRangeMonth(year, month);
    InRangeMonth(year, month + 1);
    var last := DaysInMonth(year, month);
    if month == 0 {
      assert DayNumber(Date(year, month, last)) == MarchFirst(year - 1) + 306 + 30;
      assert DayNumber(Date(year, month + 1, 1)) == MarchFirst(year - 1) + 337;
    } else if month == 1 {
      assert DayNumber(Date(year, month, last)) == MarchFirst(year - 1) + 337 + last - 1;
      assert DayNumber(Date(year, month + 1, 1)) == MarchFirst(year);
      MarchYearLength(year - 1);
    } else {
      assert DayNumber(Date(year, month, last)) == MarchFirst(year) + MonthOffset(month - 2) + last - 1;
      assert DayNumber(Date(year, month + 1, 1)) == MarchFirst(year) + MonthOffset(month - 1);
      MonthOffsetStep(year, month - 2);
    }
  }

  /** From March to November, the offsets of consecutive months differ by
      the length of the earlier one. */
  lemma MonthOffsetStep(year: int, mp: int)
    requires 0 <= mp < 9
    ensures MonthOffset(mp + 1) - MonthOffset(mp) == DaysInMonth(year, mp + 2)
  {
  }

  /** For a month in 0..11 nothing carries into the year. */
  lemma InRangeMonth(year: int, month: int)
    requires 0 <= month < 12
    ensures month / 12 == 0 && month % 12 == month
  {
  }

  lemma DayNumberEpoch()
    ensures DayNumber(Date(1970, 0, 1)) == 0
    ensures Weekday(Date(1970, 0, 1)) == 4
  {
  }

  /** Consecutive days have consecutive weekdays. */
  lemma WeekdayNext(d: Date)
    requires ValidDate(d)
    ensures ValidDate(NextDay(d))
    ensures Weekday(NextDay(d)) == (Weekday(d) + 1) % 7
  {
    DayNumberNext(d);
    ModShift(DayNumber(d) + 4, 1);
  }

  /** Within a month, the weekday advances by one per day. */
  lemma WeekdayInMonth(year: int, month: int, day: int)
    requires 1 <= day
    ensures Weekday(Date(year, month, day)) == (Weekday(Date(year, month, 1)) + day - 1) % 7
  {
    assert DayNumber(Date(year, month, day)) == DayNumber(Date(year, month, 1)) + day - 1;
    ModShift(DayNumber(Date(year, month, 1)) + 4, day - 1);
  }

  lemma ModShift(a: int, j: nat)
    ensures (a + j) % 7 == (a % 7 + j) % 7
  {
    var q := a / 7;
    assert a == 7 * q + a % 7;
    assert a + j == 7 * q + (a % 7 + j);
  }

  /** Decimal digits of `n`, without leading zeros. */
  function Decimal(n: nat): (s: string)
    ensures |s| >= 1
    ensures forall i :: 0 <= i < |s| ==> '0' <= s[i] <= '9'
  {
    if n < 10 then [Digit(n)] else Decimal(n / 10) + [Digit(n % 10)]
  }

  function Digit(n: nat): (c: char)
    requires n < 10
    ensures '0' <= c <= '9' && c as int - '0' as int == n
  {
    ('0' as int + n) as char
  }

  /** `s` left-padded with '0' to at least `width` characters. */
  function ZeroPad(s: string, width: nat): (r: string)
    ensures |r| == if |s| < width then width else |s|
    decreases width - |s|
  {
    if |s| < width then ZeroPad(['0'] + s, width) else s
  }

  /** The text of a field of `width` digits holding `n`. */
  function Field(n: nat, width: nat): string {
    ZeroPad(Decimal(n), width)
  }

  /** The ISO 8601 calendar-date text "YYYY-MM-DD" of `d` (years outside
      0..9999 in the expanded six-digit form with a sign). */
  function IsoDate(d: Date): (r: string)
    ensures 0 <= d.year <= 9999 && 0 <= d.month < 12 && 0 <= d.day < 100 ==>
              |r| == 10 && r[4] == '-' && r[7] == '-'
  {
    var yearText :=
      if 0 <= d.year <= 9999 then Field(d.year, 4)
      else if d.year < 0 then "-" + Field(-d.year, 6)
      else "+" + Field(d.year, 6);
    var monthText := if 0 <= d.month then Field(d.month + 1, 2) else "";
    var dayText := if 0 <= d.day then Field(d.day, 2) else "";
    if 0 <= d.year <= 9999 && 0 <= d.month < 12 && 0 <= d.day < 100 then
      DecimalLength(d.year, 4, Pow10(4));
      DecimalLength(d.month + 1, 2, Pow10(2));
      DecimalLength(d.day, 2, Pow10(2));
      yearText + "-" + monthText + "-" + dayText
    else yearText + "-" + monthText + "-" + dayText
  }

  /** The number a string of decimal digits spells. */
  function DigitsValue(s: string): nat {
    if s == [] then 0
    else DigitsValue(s[..|s| - 1]) * 10 + (if '0' <= s[|s| - 1] <= '9' then s[|s| - 1] as int - '0' as int else 0)
  }

  /** Decimal spells `n`. */
  lemma {:induction false} DecimalValue(n: nat)
    ensures DigitsValue(Decimal(n)) == n
  {
    if n >= 10 {
      DecimalValue(n / 10);
      var s := Decimal(n);
      assert s[..|s| - 1] == Decimal(n / 10);
      assert s[|s| - 1] == Digit(n % 10);
    }
  }

  /** A leading '0' does not change the number spelled. */
  lemma {:induction false} LeadingZeroValue(s: string)
    ensures DigitsValue(['0'] + s) == DigitsValue(s)
  {
    if s != [] {
      var t := ['0'] + s;
      assert t[..|t| - 1] == ['0'] + s[..|s| - 1];
      LeadingZeroValue(s[..|s| - 1]);
    }
  }

  /** Padding with zeros does not change the number spelled. */
  lemma {:induction false} ZeroPadValue(s: string, width: nat)
    ensures DigitsValue(ZeroPad(s, width)) == DigitsValue(s)
    decreases width - |s|
  {
    if |s| < width {
      ZeroPadValue(['0'] + s, width);
      LeadingZeroValue(s);
    }
  }

  /** A number below 10^k has at most k digits. */
  lemma {:induction false} DecimalLength(n: nat, k: nat, bound: nat)
    requires 1 <= k && bound == Pow10(k) && n < bound
    ensures |Decimal(n)| <= k
    decreases k
  {
    if n >= 10 {
      assert Pow10(1) == 10;
      assert k >= 2;
      var smaller := Pow10(k - 1);
      assert bound == 10 * smaller;
      assert n / 10 < smaller;
      DecimalLength(n / 10, k - 1, smaller);
    }
  }

  function Pow10(k: nat): nat {
    if k == 0 then 1 else 10 * Pow10(k - 1)
  }

  /** A date of a four-digit year is ten characters: year, month and day
      fields at fixed positions, separated by '-'. */
  lemma IsoDateLayout(d: Date)
    requires ValidDate(d) && 0 <= d.year <= 9999
    ensures |IsoDate(d)| == 10
    ensures IsoDate(d)[..4] == Field(d.year, 4)
    ensures IsoDate(d)[5..7] == Field(d.month + 1, 2)
    ensures IsoDate(d)[8..] == Field(d.day, 2)
  {
    DecimalLength(d.year, 4, Pow10(4));
    DecimalLength(d.month + 1, 2, Pow10(2));
    DecimalLength(d.day, 2, Pow10(2));
    var y, m, dd := Field(d.year, 4), Field(d.month + 1, 2), Field(d.day, 2);
    assert IsoDate(d) == y + "-" + m + "-" + dd;
  }

  /** Different valid dates with four-digit years have different texts, so
      an entry's date text names at most one day. */
  lemma IsoDateInjective(a: Date, b: Date)
    requires ValidDate(a) && 0 <= a.year <= 9999
    requires ValidDate(b) && 0 <= b.year <= 9999
    requires IsoDate(a) == IsoDate(b)
    ensures a == b
  {
    IsoDateLayout(a);
    IsoDateLayout(b);
    FieldValue(a.year, 4);
    FieldValue(b.year, 4);
    FieldValue(a.month + 1, 2);
    FieldValue(b.month + 1, 2);
    FieldValue(a.day, 2);
    FieldValue(b.day, 2);
  }

  lemma FieldValue(n: nat, width: nat)
    ensures DigitsValue(Field(n, width)) == n
  {
    ZeroPadValue(Decimal(n), width);
    DecimalValue(n);
  }

  /** The text is the one a date input yields: year, month counted from 1,
      and day, each zero-padded. */
  lemma IsoDateExample()
    ensures IsoDate(Date(2024, 1, 3)) == "2024-02-03"
  {
    assert Field(2024, 4) == "2024" by {
      assert Decimal(2024) == "2024" by {
        assert Decimal(202) == "202" by { assert Decimal(20) == "20"; }
      }
    }
    OneDigitField(2);
    OneDigitField(3);
  }

  /** A year below 1000 is padded to four digits. */
  lemma IsoDatePaddedYear()
    ensures IsoDate(Date(987, 11, 25)) == "0987-12-25"
  {
    assert Field(987, 4) == "0987" by {
      assert Decimal(987) == "987" by { assert Decimal(98) == "98"; }
    }
    TwoDigitField(12);
    TwoDigitField(25);
  }

  lemma OneDigitField(n: nat)
    requires n < 10
    ensures Field(n, 2) == ['0', Digit(n)]
  {
    assert Decimal(n) == [Digit(n)];
    assert ZeroPad([Digit(n)], 2) == ZeroPad(['0', Digit(n)], 2);
  }

  lemma TwoDigitField(n: nat)
    requires 10 <= n < 100
    ensures Field(n, 2) == [Digit(n / 10), Digit(n % 10)]
  {
    assert Decimal(n / 10) == [Digit(n / 10)];
    assert Decimal(n) == [Digit(n / 10)] + [Digit(n % 10)];
  }
}
