/** Calendar arithmetic: two formulas for the day of the week and one for the seconds since 1970,
    against counting days. */
module Calendar {

  // ----------------------------------------------------------------- counting days

  predicate IsLeap(year: int) {
    (year % 4 == 0 && year % 100 != 0) || year % 400 == 0
  }

  /** The length of a month of the Gregorian calendar. */
  function MonthLength(year: int, month: int): (n: nat)
    ensures 28 <= n <= 31
  {
    if month == 2 then (if IsLeap(year) then 29 else 28)
    else if month == 4 || month == 6 || month == 9 || month == 11 then 30
    else 31
  }

  function YearLength(year: int): nat {
    if IsLeap(year) then 366 else 365
  }

  /** The days of the years from 1 up to, not including, `year`. */
  function DaysBeforeYear(year: nat): nat {
    if year <= 1 then 0 else DaysBeforeYear(year - 1) + YearLength(year - 1)
  }

  /** The days of the months of a year before `month`. */
  function DaysBeforeMonth(year: int, month: nat): nat {
    if month <= 1 then 0 else DaysBeforeMonth(year, month - 1) + MonthLength(year, month - 1)
  }

  /** The number of a day; 1 January of year 1 has number 1 and is a Monday. */
  function DayNumber(year: nat, month: nat, day: int): int {
    DaysBeforeYear(year) + DaysBeforeMonth(year, month) + day
  }

  predicate ValidDate(year: int, month: int, day: int) {
    1 <= year && 1 <= month <= 12 && 1 <= day <= MonthLength(year, month)
  }

  lemma {:induction false} DaysBeforeYearClosed(year: nat)
    requires year >= 1
    ensures var p := year - 1;
      DaysBeforeYear(year) == 365 * p + p / 4 - p / 100 + p / 400
    decreases year
  {
    hide IsLeap;
    if year > 1 {
      DaysBeforeYearClosed(year - 1);
      var n := year - 1;
      LeapQuotients(n);
    }
  }

  function LeapYears(n: nat): int {
    n / 4 - n / 100 + n / 400
  }

  lemma LeapQuotients(n: nat)
    requires n >= 1
    ensures LeapYears(n) == LeapYears(n - 1) + (if IsLeap(n) then 1 else 0)
  {
    QuotientStep(n - 1, 4);
    QuotientStep(n - 1, 100);
    QuotientStep(n - 1, 400);
    Multiples(n);
  }

  lemma Multiples(n: nat)
    ensures n % 400 == 0 ==> n % 100 == 0
    ensures n % 100 == 0 ==> n % 4 == 0
  {
    if n % 400 == 0 {
      MultipleOf100(n, 4 * (n / 400));
    }
    if n % 100 == 0 {
      MultipleOf4(n, 25 * (n / 100));
    }
  }

  lemma MultipleOf100(n: nat, k: nat)
    requires n == 100 * k
    ensures n % 100 == 0
  {
  }

  lemma MultipleOf4(n: nat, k: nat)
    requires n == 4 * k
    ensures n % 4 == 0
  {
  }

  /** A quotient grows by one exactly when the divisor divides the next number. */
  lemma QuotientStep(n: nat, k: int)
    requires k == 4 || k == 100 || k == 400
    ensures (n + 1) / k == n / k + (if (n + 1) % k == 0 then 1 else 0)
  {
  }

  lemma DaysBeforeMonthClosed(year: int, month: nat)
    requires 1 <= month <= 12
    ensures DaysBeforeMonth(year, month) ==
      [0, 31, 59, 90, 120, 151, 181, 212, 243, 273, 304, 334][month - 1]
      + (if month > 2 && IsLeap(year) then 1 else 0)
  {
    MonthsUnrolled(year);
  }

  lemma MonthsUnrolled(year: int)
    ensures DaysBeforeMonth(year, 1) == 0 && DaysBeforeMonth(year, 2) == 31
    ensures var f := if IsLeap(year) then 29 else 28;
      && DaysBeforeMonth(year, 3) == 31 + f && DaysBeforeMonth(year, 4) == 62 + f
      && DaysBeforeMonth(year, 5) == 92 + f && DaysBeforeMonth(year, 6) == 123 + f
      && DaysBeforeMonth(year, 7) == 153 + f && DaysBeforeMonth(year, 8) == 184 + f
      && DaysBeforeMonth(year, 9) == 215 + f && DaysBeforeMonth(year, 10) == 245 + f
      && DaysBeforeMonth(year, 11) == 276 + f && DaysBeforeMonth(year, 12) == 306 + f
      && DaysBeforeMonth(year, 13) == 337 + f
  {
    hide IsLeap;
    assert DaysBeforeMonth(year, 3) == DaysBeforeMonth(year, 2) + MonthLength(year, 2);
    assert DaysBeforeMonth(year, 5) == DaysBeforeMonth(year, 4) + MonthLength(year, 4);
    assert DaysBeforeMonth(year, 7) == DaysBeforeMonth(year, 6) + MonthLength(year, 6);
    assert DaysBeforeMonth(year, 9) == DaysBeforeMonth(year, 8) + MonthLength(year, 8);
    assert DaysBeforeMonth(year, 11) == DaysBeforeMonth(year, 10) + MonthLength(year, 10);
    assert DaysBeforeMonth(year, 13) == DaysBeforeMonth(year, 12) + MonthLength(year, 12);
  }

  // ----------------------------------------------------------------- day of the week

  /** Zeller's sum of `get_day_of_week`, with January and February counted to the year before. */
  function ZellerSum(year: nat, month: nat, day: nat): int
    requires year >= 1
  {
    var y := if month <= 2 then year - 1 else year;
    var m := if month <= 2 then month + 12 else month;
    var t0 := y / 100;
    var t1 := y - t0 * 100;
    t0 / 4 - 2 * t0 + (t1 + t1 / 4) + 13 * (m + 1) / 5 + day - 1
  }

  /** What the year part of the sum is, up to sevens. */
  lemma CenturySplit(y: nat)
    ensures var t0 := y / 100;
      var t1 := y - t0 * 100;
      t0 / 4 - 2 * t0 + (t1 + t1 / 4) == y + y / 4 - y / 100 + y / 400 - 126 * t0
  {
    var t0 := y / 100;
    var t1 := y - t0 * 100;
    assert y / 4 == 25 * t0 + t1 / 4;
    assert y / 400 == t0 / 4;
  }

  lemma Sevens(a: int, b: int, k: int)
    requires a == b + 7 * k
    ensures a % 7 == b % 7
  {
  }

  lemma MonthTerm(year: nat, month: nat)
    requires year >= 1 && 1 <= month <= 12
    ensures month > 2 ==>
      (DaysBeforeMonth(year, month) - (13 * (month + 1) / 5) - (if IsLeap(year) then 1 else 0)) % 7
      == (59 - 10) % 7
    ensures month <= 2 ==>
      (DaysBeforeMonth(year, month) - (13 * (month + 13) / 5)) % 7 == (0 - 36) % 7
  {
    DaysBeforeMonthClosed(year, month);
  }

  lemma EarlyMonths(year: nat, month: nat, day: nat)
    requires year >= 1 && 1 <= month <= 2
    ensures ZellerSum(year, month, day) % 7 == DayNumber(year, month, day) % 7
  {
    hide DaysBeforeMonth, DaysBeforeYear, IsLeap;
    var p := year - 1;
    MonthTerm(year, month);
    DaysBeforeYearClosed(year);
    CenturySplit(p);
    var q := (DaysBeforeMonth(year, month) - 13 * (month + 13) / 5 + 36) / 7;
    Sevens(ZellerSum(year, month, day), DayNumber(year, month, day),
           -52 * p - 18 * (p / 100) - q + 5);
  }

  lemma LaterMonths(year: nat, month: nat, day: nat)
    requires year >= 1 && 3 <= month <= 12
    ensures ZellerSum(year, month, day) % 7 == DayNumber(year, month, day) % 7
  {
    hide DaysBeforeMonth, DaysBeforeYear, IsLeap;
    MonthTerm(year, month);
    DaysBeforeYearClosed(year);
    CenturySplit(year);
    LeapQuotients(year);
    var leap := if IsLeap(year) then 1 else 0;
    var q := (DaysBeforeMonth(year, month) - 13 * (month + 1) / 5 - leap) / 7;
    Sevens(ZellerSum(year, month, day), DayNumber(year, month, day),
           -52 * (year - 1) - 18 * (year / 100) - q);
  }

  /** Zeller's sum is the number of the day up to sevens. */
  lemma ZellerCountsDays(year: nat, month: nat, day: nat)
    requires year >= 1 && 1 <= month <= 12
    ensures ZellerSum(year, month, day) % 7 == DayNumber(year, month, day) % 7
  {
    hide ZellerSum, DayNumber;
    if month <= 2 {
      EarlyMonths(year, month, day);
    } else {
      LaterMonths(year, month, day);
    }
  }

  /** `get_day_of_week`: 0 for Sunday. */
  method GetDayOfWeek(year: nat, month: nat, day: nat) returns (w: int)
    requires ValidDate(year, month, day)
    ensures w == DayNumber(year, month, day) % 7
  {
    hide DaysBeforeMonth, DaysBeforeYear, IsLeap, DayNumber, ValidDate;
    ValidParts(year, month, day);
    var y, m, d: int := year, month, day;
    if m == 1 || m == 2 {
      y := y - 1;
      m := m + 12;
    }
    var t0 := y / 100;
    var t1 := y - t0 * 100;
    w := t0 / 4 - 2 * t0 + (t1 + t1 / 4) + 13 * (m + 1) / 5 + d - 1;
    assert w == ZellerSum(year, month, day);
    ZellerCountsDays(year, month, day);
    ghost var sum := w;
    while w < 0
      invariant w % 7 == sum % 7
      decreases -w
    {
      Sevens(w + 7, w, 1);
      w := w + 7;
    }
    w := w % 7;
  }

  /** The leap test of `_KnlGetWeek`, which leaves out every year divisible by 100. */
  predicate LeapForWeek(year: int) {
    (year % 4 == 0 || year % 400 == 0) && year % 100 != 0
  }

  const BYTE: int := 256
  const DELTA: seq<int> := [0, 3, 3, 6, 1, 4, 6, 2, 5, 0, 3, 5]

  /** C's remainder, which takes the sign of the dividend. */
  function Remainder(n: int, k: int): int
    requires k > 0
  {
    if n >= 0 then n % k else -((-n) % k)
  }

  function WeekSum(year: nat, month: nat, day: int): int
    requires year >= 1 && 1 <= month <= 12
  {
    var prev := year - 1;
    day - 1 + year + DELTA[month - 1] + prev / 4 - prev / 100 + prev / 400
    + (if month > 2 && LeapForWeek(year) then 1 else 0)
  }

  function WeekOf(year: nat, month: nat, day: int): int
    requires year >= 1 && 1 <= month <= 12
  {
    Remainder(WeekSum(year, month, day), 7)
  }

  /** `_KnlGetWeek`. */
  method GetWeek(year: nat, month: nat, day: int) returns (week: int)
    requires year >= 1 && 1 <= month <= 12
    ensures week == WeekOf(year, month, day)
    ensures ValidDate(year, month, day) && !(year % 400 == 0 && month > 2) ==>
      week == DayNumber(year, month, day) % 7
  {
    hide DaysBeforeMonth, DaysBeforeYear, ValidDate;
    var prev := year - 1;
    week := day - 1 + year + DELTA[month - 1] + prev / 4 - prev / 100 + prev / 400;
    if month > 2 && ((year % 4 == 0 || year % 400 == 0) && year % 100 != 0) {
      week := week + 1;
    }
    week := Remainder(week, 7);
    if ValidDate(year, month, day) {
      ValidParts(year, month, day);
      WeekRightIff(year, month, day);
    }
  }

  lemma DeltaTerm(year: int, month: nat)
    requires 1 <= month <= 12
    ensures (DaysBeforeMonth(year, month) - DELTA[month - 1]
             - (if month > 2 && IsLeap(year) then 1 else 0)) % 7 == 0
  {
    DaysBeforeMonthClosed(year, month);
  }

  /** The two formulas agree, and `_KnlGetWeek` counts days, exactly outside the months from March
      on of years divisible by 400. */
  lemma WeekRightIff(year: nat, month: nat, day: nat)
    requires ValidDate(year, month, day)
    ensures WeekOf(year, month, day) == DayNumber(year, month, day) % 7
            <==> !(year % 400 == 0 && month > 2)
  {
    hide DaysBeforeMonth, DaysBeforeYear, ValidDate;
    assert 1 <= year && 1 <= month <= 12 by { ValidParts(year, month, day); }
    DaysBeforeYearClosed(year);
    DeltaTerm(year, month);
    Multiples(year);
    var leap := if month > 2 && IsLeap(year) then 1 else 0;
    var k := DaysBeforeMonth(year, month) - DELTA[month - 1] - leap;
    var q := k / 7;
    assert k == 7 * q;
    var prev := year - 1;
    var sum := day - 1 + year + DELTA[month - 1] + prev / 4 - prev / 100 + prev / 400;
    NotNegative(prev);
    Sevens(DayNumber(year, month, day), sum + leap, 52 * prev + q);
    OneOff(sum);
  }

  lemma ValidParts(year: int, month: int, day: int)
    requires ValidDate(year, month, day)
    ensures 1 <= year && 1 <= month <= 12 && 1 <= day <= MonthLength(year, month)
  {
  }

  lemma NotNegative(prev: nat)
    ensures prev / 4 - prev / 100 + prev / 400 >= 0
  {
  }

  lemma OneOff(n: int)
    ensures (n + 1) % 7 != n % 7
  {
  }

  // ----------------------------------------------------------------------- timestamps

  const SECONDS_PER_MINUTE: int := 60
  const SECONDS_PER_HOUR: int := 3600
  const SECONDS_PER_DAY: int := 86400

  /** A date and a time of day. */
  datatype Moment = Moment(year: int, month: int, day: int, hour: int, minute: int, second: int)

  /** What the source checks: the day is not among it. */
  predicate Accepted(m: Moment) {
    && 1970 <= m.year < 2038 && 1 <= m.month <= 12
    && 0 <= m.hour <= 23 && 0 <= m.minute <= 59 && 0 <= m.second <= 59
  }

  predicate Valid(m: Moment) {
    Accepted(m) && ValidDate(m.year, m.month, m.day)
  }

  function TimeOfDay(m: Moment): int {
    m.hour * SECONDS_PER_HOUR + m.minute * SECONDS_PER_MINUTE + m.second
  }

  /** Seconds from the start of 1970 to the moment, by counting days. */
  function SecondsSince1970(m: Moment): int
    requires m.year >= 0 && m.month >= 0
  {
    (DayNumber(m.year, m.month, m.day) - DayNumber(1970, 1, 1)) * SECONDS_PER_DAY + TimeOfDay(m)
  }

  /** The expression of section 4.16 of IEEE Std 1003.1-2017, Base Definitions, with the year since
      1900 and the day of the year. */
  function PosixSeconds(m: Moment): int
    requires m.year >= 1970 && m.month >= 0
  {
    var year := m.year - 1900;
    var yday := DaysBeforeMonth(m.year, m.month) + m.day - 1;
    m.second + m.minute * 60 + m.hour * 3600 + yday * 86400
    + (year - 70) * 31536000 + ((year - 69) / 4) * 86400
    - ((year - 1) / 100) * 86400 + ((year + 299) / 400) * 86400
  }

  lemma DaysBefore1970()
    ensures DaysBeforeYear(1970) == 719162 && DayNumber(1970, 1, 1) == 719163
  {
    DaysBeforeYearClosed(1970);
    DaysBeforeMonthClosed(1970, 1);
  }

  /** The two ways of counting seconds agree from 1970 on. */
  lemma PosixCountsDays(m: Moment)
    requires m.year >= 1970 && 1 <= m.month <= 12
    ensures PosixSeconds(m) == SecondsSince1970(m)
  {
    hide DaysBeforeMonth, DaysBeforeYear;
    DaysBefore1970();
    DaysBeforeYearClosed(m.year);
    EpochQuotients(m.year);
  }

  lemma EpochQuotients(year: int)
    requires year >= 1970
    ensures (year - 1969) / 4 == (year - 1) / 4 - 492
    ensures (year - 1901) / 100 == (year - 1) / 100 - 19
    ensures (year - 1601) / 400 == (year - 1) / 400 - 4
  {
  }

  /** The year part of the source's sum. */
  lemma YearPart(year: int)
    requires year >= 1970
    ensures (LeapYears(year - 1) - 477) * 366 + (year - 1 - LeapYears(year - 1) - 1492) * 365
            == DaysBeforeYear(year) - DaysBeforeYear(1970)
  {
    hide DaysBeforeYear;
    DaysBefore1970();
    DaysBeforeYearClosed(year);
  }

  /** The terms that the source adds up. */
  lemma SecondsTerms(m: Moment)
    requires m.year >= 1970 && 1 <= m.month <= 12
    ensures var leapYears := LeapYears(m.year - 1);
      var otherYears := m.year - 1 - leapYears;
      SecondsSince1970(m) ==
        m.second + m.minute * SECONDS_PER_MINUTE + m.hour * SECONDS_PER_HOUR
        + (m.day - 1) * SECONDS_PER_DAY
        + (leapYears - 477) * 366 * SECONDS_PER_DAY + (otherYears - 1492) * 365 * SECONDS_PER_DAY
        + DaysBeforeMonth(m.year, m.month) * SECONDS_PER_DAY
  {
    hide DaysBeforeMonth, DaysBeforeYear, LeapYears;
    YearPart(m.year);
    DaysBefore1970();
    assert DaysBeforeMonth(1970, 1) == 0 by { MonthsUnrolled(1970); }
  }

  const MONTHS: seq<int> := [31, 28, 31, 30, 31, 30, 31, 31, 30, 31, 30, 31]
  const MONTHS_LEAP: seq<int> := [31, 29, 31, 30, 31, 30, 31, 31, 30, 31, 30, 31]

  /** The leap test of `KnlGetDateTime`. */
  predicate LeapForDate(year: int) {
    year % 4 == 0 || (year > 100 && year % 400 == 0)
  }

  /** It is the calendar's own up to, not including, the year 2100. */
  lemma LeapForDateRight(year: int)
    requires 1970 <= year < 2100
    ensures LeapForDate(year) <==> IsLeap(year)
  {
  }

  lemma MonthTables(year: int, i: int)
    requires 0 <= i < 12
    ensures MonthLength(year, i + 1) == if IsLeap(year) then MONTHS_LEAP[i] else MONTHS[i]
  {
  }

  class DateTime {
    var timestamp: int
    var offset: int
    var year: int
    var month: int
    var day: int
    var leap: bool
    var week: int
    var hour: int
    var minute: int
    var second: int

    /** `KnlGetDateTime`; the day and the week are stored as eight bits. */
    method Fill(offset: int, m: Moment) returns (ok: bool)
      modifies this
      ensures ok <==> Accepted(m)
      ensures !ok ==> unchanged(this)
      ensures ok ==>
        && timestamp == SecondsSince1970(m) - offset && this.offset == offset
        && Moment(year, month, m.day, hour, minute, second) == m && day == m.day % BYTE
        && (leap <==> IsLeap(m.year))
        && week == WeekOf(m.year, m.month, m.day) % BYTE
    {
      hide IsLeap, DaysBeforeYear, DayNumber, SecondsSince1970, WeekOf, LeapForDate, MonthLength;
      if m.year < 1970 || m.year >= 2038 || m.month < 1 || m.month > 12 || m.hour < 0 || m.hour > 23
         || m.minute < 0 || m.minute > 59 || m.second < 0 || m.second > 59 {
        return false;
      }
      var t := -offset;
      t := t + m.second;
      t := t + m.minute * SECONDS_PER_MINUTE;
      t := t + m.hour * SECONDS_PER_HOUR;
      t := t + (m.day - 1) * SECONDS_PER_DAY;
      var prev := m.year - 1;
      var leapYears := prev / 4 - prev / 100 + prev / 400;
      var otherYears := prev - leapYears;
      t := t + (leapYears - 477) * 366 * SECONDS_PER_DAY;
      t := t + (otherYears - 1492) * 365 * SECONDS_PER_DAY;
      SecondsTerms(m);
      LeapForDateRight(m.year);
      var isLeap := LeapForDate(m.year);
      var table := if isLeap then MONTHS_LEAP else MONTHS;
      ghost var start := t;
      var i := 0;
      while i < m.month - 1
        invariant 0 <= i <= m.month - 1
        invariant t == start + DaysBeforeMonth(m.year, i + 1) * SECONDS_PER_DAY
      {
        MonthTables(m.year, i);
        t := t + table[i] * SECONDS_PER_DAY;
        i := i + 1;
      }
      timestamp, this.offset := t, offset;
      year, month, day := m.year, m.month, m.day % BYTE;
      leap := isLeap;
      var w := GetWeek(m.year, m.month, m.day);
      week := w % BYTE;
      hour, minute, second := m.hour, m.minute, m.second;
      ok := true;
    }
  }

  // -------------------------------------------------------------------- order of dates

  lemma {:induction false} YearsGrow(a: nat, b: nat)
    requires 1 <= a < b
    ensures DaysBeforeYear(a) + YearLength(a) <= DaysBeforeYear(b)
    decreases b
  {
    if a < b - 1 {
      YearsGrow(a, b - 1);
    }
  }

  lemma {:induction false} MonthsGrow(year: int, a: nat, b: nat)
    requires 1 <= a < b
    ensures DaysBeforeMonth(year, a) + MonthLength(year, a) <= DaysBeforeMonth(year, b)
    decreases b
  {
    if a < b - 1 {
      MonthsGrow(year, a, b - 1);
    }
  }

  lemma MonthsFillYear(year: int)
    ensures DaysBeforeMonth(year, 13) == YearLength(year)
  {
    MonthsUnrolled(year);
  }

  predicate EarlierDate(a: Moment, b: Moment) {
    a.year < b.year
    || (a.year == b.year && (a.month < b.month || (a.month == b.month && a.day < b.day)))
  }

  /** Day numbers are in the order of dates. */
  lemma DaysInOrder(a: Moment, b: Moment)
    requires ValidDate(a.year, a.month, a.day) && ValidDate(b.year, b.month, b.day)
    requires EarlierDate(a, b)
    ensures DayNumber(a.year, a.month, a.day) < DayNumber(b.year, b.month, b.day)
  {
    hide DaysBeforeMonth, DaysBeforeYear, IsLeap;
    if a.year < b.year {
      YearsGrow(a.year, b.year);
      MonthsFillYear(a.year);
      MonthsGrow(a.year, a.month, 13);
    } else if a.month < b.month {
      MonthsGrow(a.year, a.month, b.month);
    }
  }

  predicate Earlier(a: Moment, b: Moment) {
    EarlierDate(a, b)
    || (a.year == b.year && a.month == b.month && a.day == b.day
        && (a.hour < b.hour
            || (a.hour == b.hour
                && (a.minute < b.minute || (a.minute == b.minute && a.second < b.second)))))
  }

  lemma TimeOfDayRange(m: Moment)
    requires Accepted(m)
    ensures 0 <= TimeOfDay(m) < SECONDS_PER_DAY
  {
  }

  lemma SecondsGrow(a: Moment, b: Moment)
    requires Valid(a) && Valid(b) && Earlier(a, b)
    ensures SecondsSince1970(a) < SecondsSince1970(b)
  {
    hide DaysBeforeMonth, DaysBeforeYear, ValidDate, DayNumber;
    if EarlierDate(a, b) {
      DaysInOrder(a, b);
      TimeOfDayRange(a);
      TimeOfDayRange(b);
    }
  }

  /** At a fixed offset the timestamp orders valid moments: it is strictly increasing, and so two
      moments have the same timestamp only if they are the same. */
  lemma TimestampsInOrder(a: Moment, b: Moment)
    requires Valid(a) && Valid(b)
    ensures Earlier(a, b) <==> SecondsSince1970(a) < SecondsSince1970(b)
    ensures SecondsSince1970(a) == SecondsSince1970(b) ==> a == b
  {
    hide SecondsSince1970;
    if Earlier(a, b) {
      SecondsGrow(a, b);
    } else if Earlier(b, a) {
      SecondsGrow(b, a);
    }
  }

  /** For valid moments and offsets of at most a day the timestamp is an int32. */
  lemma TimestampFits(m: Moment, offset: int)
    requires Valid(m) && -SECONDS_PER_DAY <= offset <= SECONDS_PER_DAY
    ensures -0x8000_0000 <= SecondsSince1970(m) - offset < 0x8000_0000
  {
    hide DaysBeforeYear;
    DaysBefore1970();
    DaysBeforeYearClosed(m.year);
    DaysBeforeMonthClosed(m.year, m.month);
    TimeOfDayRange(m);
  }
}
