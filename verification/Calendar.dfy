/** mbedtls_platform_gmtime_r of net/mbedtls_platform_nt4.c, against the proleptic Gregorian calendar. */
module Calendar {
  import opened CTypes

  // ---- The calendar ------------------------------------------------------

  datatype Date = Date(year: int, month: int, day: int)

  predicate IsLeap(y: int) {
    y % 4 == 0 && (y % 100 != 0 || y % 400 == 0)
  }

  function DaysInMonth(y: int, m: int): (n: int) {
    if m == 2 then (if IsLeap(y) then 29 else 28)
    else if m == 4 || m == 6 || m == 9 || m == 11 then 30 else 31
  }

  predicate RealDate(d: Date) {
    1 <= d.month <= 12 && 1 <= d.day <= DaysInMonth(d.year, d.month)
  }

  /** The days of a year before one of its months. */
  function DaysBeforeMonth(y: int, m: int): (n: int)
    requires 1 <= m <= 12
    decreases m
  {
    if m == 1 then 0 else DaysBeforeMonth(y, m - 1) + DaysInMonth(y, m - 1)
  }

  /** The days from the start of year 0 to the start of a year: 365 each and one for every leap year between. */
  function DaysBeforeYear(y: int): (n: int) {
    365 * y + (y + 3) / 4 - (y + 99) / 100 + (y + 399) / 400
  }

  /** Days since 1970-01-01. */
  function DaysFromCivil(d: Date): (n: int)
    requires 1 <= d.month <= 12
  {
    DaysBeforeYear(d.year) - DaysBeforeYear(1970) + DaysBeforeMonth(d.year, d.month) + d.day - 1
  }

  function NextDate(d: Date): (e: Date) {
    if d.day < DaysInMonth(d.year, d.month) then d.(day := d.day + 1)
    else if d.month < 12 then Date(d.year, d.month + 1, 1)
    else Date(d.year + 1, 1, 1)
  }

  /** What three floored divisions make of a step by one. */
  lemma StepQuotient(y: int, k: int)
    requires k > 0
    ensures (y + 1 + (k - 1)) / k == (y + (k - 1)) / k + if y % k == 0 then 1 else 0
  {
    var q, r := y / k, y % k;
    assert y == q * k + r;
    if r == 0 {
      DivUnique(y + (k - 1), k, q, k - 1);
      assert (q + 1) * k == q * k + k;
      DivUnique(y + 1 + (k - 1), k, q + 1, 0);
    } else {
      assert (q + 1) * k == q * k + k;
      DivUnique(y + (k - 1), k, q + 1, r - 1);
      DivUnique(y + 1 + (k - 1), k, q + 1, r);
    }
  }

  lemma CenturyYears(y: int)
    ensures y % 400 == 0 ==> y % 100 == 0
    ensures y % 100 == 0 ==> y % 4 == 0
  {
  }

  /** The closed form counts the days of every year, leap years included. */
  lemma YearLength(y: int)
    ensures DaysBeforeYear(y + 1) == DaysBeforeYear(y) + if IsLeap(y) then 366 else 365
  {
    StepQuotient(y, 4);
    StepQuotient(y, 100);
    StepQuotient(y, 400);
    CenturyYears(y);
  }

  /** The first day of each month in a common year, by adding up the months. */
  lemma MonthStarts(y: int)
    ensures DaysBeforeMonth(y, 1) == 0 && DaysBeforeMonth(y, 2) == 31
    ensures
      var l := if IsLeap(y) then 1 else 0;
      && DaysBeforeMonth(y, 3) == 59 + l && DaysBeforeMonth(y, 4) == 90 + l && DaysBeforeMonth(y, 5) == 120 + l
      && DaysBeforeMonth(y, 6) == 151 + l && DaysBeforeMonth(y, 7) == 181 + l && DaysBeforeMonth(y, 8) == 212 + l
      && DaysBeforeMonth(y, 9) == 243 + l && DaysBeforeMonth(y, 10) == 273 + l && DaysBeforeMonth(y, 11) == 304 + l
      && DaysBeforeMonth(y, 12) == 334 + l
  {
    hide IsLeap;
    assert DaysBeforeMonth(y, 3) == 31 + DaysInMonth(y, 2);
    assert DaysBeforeMonth(y, 5) == DaysBeforeMonth(y, 4) + 30;
    assert DaysBeforeMonth(y, 7) == DaysBeforeMonth(y, 6) + 30;
    assert DaysBeforeMonth(y, 9) == DaysBeforeMonth(y, 8) + 31;
    assert DaysBeforeMonth(y, 11) == DaysBeforeMonth(y, 10) + 31;
  }

  /** The date after a real date is real and one day later. */
  lemma NextDateIsNextDay(d: Date)
    requires RealDate(d)
    ensures RealDate(NextDate(d)) && DaysFromCivil(NextDate(d)) == DaysFromCivil(d) + 1
  {
    hide DaysBeforeYear, IsLeap;
    MonthStarts(d.year);
    YearLength(d.year);
  }

  lemma {:induction false} YearsInOrder(a: int, b: int)
    requires a <= b
    ensures DaysBeforeYear(a) + 365 * (b - a) <= DaysBeforeYear(b)
    decreases b - a
  {
    hide DaysBeforeYear, IsLeap;
    if a < b {
      YearsInOrder(a, b - 1);
      YearLength(b - 1);
    }
  }

  lemma {:induction false} MonthsInOrder(y: int, m: int, n: int)
    requires 1 <= m < n <= 12
    ensures DaysBeforeMonth(y, m) + DaysInMonth(y, m) <= DaysBeforeMonth(y, n)
    decreases n
  {
    assert DaysInMonth(y, n - 1) >= 0;
    hide DaysInMonth;
    if m < n - 1 {
      MonthsInOrder(y, m, n - 1);
    }
  }

  /** A real date lies within its year. */
  lemma DayOfYear(d: Date)
    requires RealDate(d)
    ensures 0 <= DaysBeforeMonth(d.year, d.month) + d.day - 1 < if IsLeap(d.year) then 366 else 365
  {
    hide IsLeap;
    MonthStarts(d.year);
  }

  lemma YearsApart(d: Date, e: Date)
    requires RealDate(d) && RealDate(e) && d.year < e.year
    ensures DaysFromCivil(d) < DaysFromCivil(e)
  {
    hide DaysBeforeYear, IsLeap, DaysBeforeMonth, DaysInMonth;
    DayOfYear(d);
    DayOfYear(e);
    YearLength(d.year);
    YearsInOrder(d.year + 1, e.year);
  }

  lemma MonthsApart(d: Date, e: Date)
    requires RealDate(d) && RealDate(e) && d.year == e.year && d.month < e.month
    ensures DaysFromCivil(d) < DaysFromCivil(e)
  {
    hide DaysBeforeYear, DaysBeforeMonth, DaysInMonth;
    MonthsInOrder(d.year, d.month, e.month);
  }

  /** Different real dates are different days. */
  lemma DatesAreDistinct(d: Date, e: Date)
    requires RealDate(d) && RealDate(e) && DaysFromCivil(d) == DaysFromCivil(e)
    ensures d == e
  {
    hide DaysBeforeYear, DaysBeforeMonth, DaysInMonth;
    if d.year < e.year {
      YearsApart(d, e);
    } else if e.year < d.year {
      YearsApart(e, d);
    } else if d.month < e.month {
      MonthsApart(d, e);
    } else if e.month < d.month {
      MonthsApart(e, d);
    }
  }

  // ---- Days to dates, as the code does it --------------------------------

  const ERA := 146097

  /** The era's first year is year 0, counted from March. */
  function EraOf(z: int): (era: int) {
    TruncDiv(if z >= 0 then z else z - 146096, ERA)
  }

  function YearOfEra(doe: int): (yoe: int) {
    (doe - doe / 1460 + doe / 36524 - doe / 146096) / 365
  }

  function DayOfMarchYear(doe: int, yoe: int): (doy: int) {
    doe - (365 * yoe + yoe / 4 - yoe / 100)
  }

  /** The date a day number stands for. */
  function CivilFromDays(days: int): (d: Date) {
    var z := days + 719468;
    var era := EraOf(z);
    var doe := z - era * ERA;
    var yoe := YearOfEra(doe);
    var doy := DayOfMarchYear(doe, yoe);
    var mp := (5 * doy + 2) / 153;
    var day := doy - (153 * mp + 2) / 5 + 1;
    var month := if mp < 10 then mp + 3 else mp - 9;
    Date(yoe + era * 400 + if month <= 2 then 1 else 0, month, day)
  }

  /** The truncating division rounds down, below zero too. */
  lemma EraIsFloor(z: int)
    ensures 0 <= z - EraOf(z) * ERA < ERA
  {
    if z < 0 {
      var q, r := (146096 - z) / ERA, (146096 - z) % ERA;
      assert 146096 - z == q * ERA + r;
    } else {
      assert z == z / ERA * ERA + z % ERA;
    }
  }

  /** A day of an era as century, four-year span, year of the span and day of the year, the leap day last. */
  predicate Placed(doe: int, c: int, q: int, s: int, r: int) {
    && 0 <= c < 4 && 0 <= q < 25 && 0 <= s < 4 && 0 <= r <= 365
    && doe == 36524 * c + 1461 * q + 365 * s + r
    && (r == 365 ==> s == 3 && (q < 24 || c == 3))
  }

  lemma Place(doe: int) returns (c: int, q: int, s: int, r: int)
    requires 0 <= doe < ERA
    ensures Placed(doe, c, q, s, r)
  {
    c := if doe >= 109572 then 3 else doe / 36524;
    var inCentury := doe - 36524 * c;
    q := inCentury / 1461;
    var inSpan := inCentury - 1461 * q;
    s := if inSpan >= 1095 then 3 else inSpan / 365;
    r := inSpan - 365 * s;
  }

  /** The three corrections take away exactly the leap days before the day. */
  lemma YearFound(doe: int, c: int, q: int, s: int, r: int)
    requires Placed(doe, c, q, s, r)
    ensures YearOfEra(doe) == 100 * c + 4 * q + s
  {
    var last := c == 3 && q == 24 && s == 3 && r == 365;
    var e := if 24 * c + q + 365 * s + r >= 1460 then 1 else 0;
    DivUnique(doe, 1460, 25 * c + q + e, 24 * c + q + 365 * s + r - 1460 * e);
    if last {
      assert doe == 146096;
    } else {
      DivUnique(doe, 36524, c, 1461 * q + 365 * s + r);
      DivUnique(doe, 146096, 0, doe);
    }
    DivUnique(doe - doe / 1460 + doe / 36524 - doe / 146096, 365, 100 * c + 4 * q + s, r - e);
  }

  lemma DayFound(doe: int, c: int, q: int, s: int, r: int)
    requires Placed(doe, c, q, s, r)
    ensures DayOfMarchYear(doe, 100 * c + 4 * q + s) == r
  {
    var y := 100 * c + 4 * q + s;
    DivUnique(y, 4, 25 * c + q, s);
    DivUnique(y, 100, c, 4 * q + s);
  }

  /** The first of March of a year, in days from the start of year 0. */
  lemma FirstOfMarch(era: int, c: int, q: int, s: int)
    requires 0 <= c < 4 && 0 <= q < 25 && 0 <= s < 4
    ensures
      var y := 400 * era + 100 * c + 4 * q + s;
      && DaysBeforeYear(y) + 59 + (if IsLeap(y) then 1 else 0) == ERA * era + 36524 * c + 1461 * q + 365 * s + 60
      && (IsLeap(y) <==> s == 0 && (q > 0 || c == 0))
  {
    var y := 400 * era + 100 * c + 4 * q + s;
    var i, j, k := if s > 0 then 1 else 0, if 4 * q + s > 0 then 1 else 0, if 100 * c + 4 * q + s > 0 then 1 else 0;
    DivUnique(y, 4, 100 * era + 25 * c + q, s);
    DivUnique(y, 100, 4 * era + c, 4 * q + s);
    DivUnique(y, 400, era, 100 * c + 4 * q + s);
    DivUnique(y + 3, 4, 100 * era + 25 * c + q + i, s + 3 - 4 * i);
    DivUnique(y + 99, 100, 4 * era + c + j, 4 * q + s + 99 - 100 * j);
    DivUnique(y + 399, 400, era + k, 100 * c + 4 * q + s + 399 - 400 * k);
  }

  /** The month rule on every day of a year counted from March: months of 31, 30, 31, 30 and 31 days, over and over. */
  lemma MonthFound(r: int) returns (mp: int, start: int)
    requires 0 <= r <= 365
    ensures mp == (5 * r + 2) / 153 && start == (153 * mp + 2) / 5 && 0 <= mp < 12
    ensures
      start == match mp
        case 0 => 0 case 1 => 31 case 2 => 61 case 3 => 92 case 4 => 122 case 5 => 153
        case 6 => 184 case 7 => 214 case 8 => 245 case 9 => 275 case 10 => 306 case _ => 337
    ensures
      start <= r && (mp < 11 ==> r < match mp
        case 0 => 31 case 1 => 61 case 2 => 92 case 3 => 122 case 4 => 153 case 5 => 184
        case 6 => 214 case 7 => 245 case 8 => 275 case 9 => 306 case _ => 337)
  {
    mp := (5 * r + 2) / 153;
    start := (153 * mp + 2) / 5;
  }

  /** The leap day ends the March year before a leap year. */
  lemma NextIsLeap(era: int, c: int, q: int, s: int)
    requires 0 <= c < 4 && 0 <= q < 25 && 0 <= s < 4
    ensures IsLeap(400 * era + 100 * c + 4 * q + s + 1) <==> s == 3 && (q < 24 || c == 3)
  {
    if s < 3 {
      FirstOfMarch(era, c, q, s + 1);
    } else if q < 24 {
      FirstOfMarch(era, c, q + 1, 0);
    } else if c < 3 {
      FirstOfMarch(era, c + 1, 0, 0);
    } else {
      FirstOfMarch(era + 1, 0, 0, 0);
    }
  }

  /** The date `r` days after the first of March of year `y`. */
  function FromMarch(y: int, r: int): (d: Date) {
    var mp := (5 * r + 2) / 153;
    var month := if mp < 10 then mp + 3 else mp - 9;
    Date(y + if month <= 2 then 1 else 0, month, r - (153 * mp + 2) / 5 + 1)
  }

  lemma FromMarchIsExact(y: int, r: int)
    requires 0 <= r <= if IsLeap(y + 1) then 365 else 364
    ensures
      var d := FromMarch(y, r);
      && RealDate(d)
      && DaysBeforeYear(d.year) + DaysBeforeMonth(d.year, d.month) + d.day - 1
        == DaysBeforeYear(y) + 59 + (if IsLeap(y) then 1 else 0) + r
  {
    hide IsLeap, DaysBeforeYear, DaysBeforeMonth;
    var mp, start := MonthFound(r);
    MonthStarts(y);
    MonthStarts(y + 1);
    YearLength(y);
  }

  lemma Epoch()
    ensures DaysBeforeYear(1970) == 719528
  {
  }

  /** The date found is real and is the day asked for. */
  lemma CivilIsExact(days: int)
    ensures RealDate(CivilFromDays(days)) && DaysFromCivil(CivilFromDays(days)) == days
  {
    hide EraOf, YearOfEra, DayOfMarchYear, IsLeap, DaysBeforeYear, DaysBeforeMonth, DaysInMonth;
    var z := days + 719468;
    var era := EraOf(z);
    EraIsFloor(z);
    var doe := z - era * ERA;
    var c, q, s, r := Place(doe);
    YearFound(doe, c, q, s, r);
    DayFound(doe, c, q, s, r);
    var y := 100 * c + 4 * q + s + era * 400;
    assert CivilFromDays(days) == FromMarch(y, r);
    FirstOfMarch(era, c, q, s);
    NextIsLeap(era, c, q, s);
    hide CivilFromDays, FromMarch;
    FromMarchIsExact(y, r);
    Epoch();
  }

  /** And the other way round. */
  lemma DaysAreExact(d: Date)
    requires RealDate(d)
    ensures CivilFromDays(DaysFromCivil(d)) == d
  {
    CivilIsExact(DaysFromCivil(d));
    DatesAreDistinct(CivilFromDays(DaysFromCivil(d)), d);
  }

  lemma RealMonth(d: Date)
    requires RealDate(d)
    ensures 1 <= d.month <= 12
  {
  }

  /** Consecutive days are consecutive dates. */
  lemma ConsecutiveDays(days: int)
    ensures CivilFromDays(days + 1) == NextDate(CivilFromDays(days))
  {
    hide CivilFromDays, NextDate, RealDate;
    var d := CivilFromDays(days);
    CivilIsExact(days);
    CivilIsExact(days + 1);
    NextDateIsNextDay(d);
    RealMonth(NextDate(d));
    DatesAreDistinct(CivilFromDays(days + 1), NextDate(d));
  }

  // ---- Seconds -----------------------------------------------------------

  /** The fields of struct tm that the code computes. */
  datatype Tm = Tm(sec: int, min: int, hour: int, mday: int, mon: int, year: int, wday: int)

  const DAY := 86400

  /** The day of a time, rounded down. */
  function DayOf(secs: int): (days: int) {
    TruncDiv(secs, DAY) - if TruncMod(secs, DAY) < 0 then 1 else 0
  }

  function SecondOfDay(secs: int): (rem: int) {
    TruncMod(secs, DAY) + if TruncMod(secs, DAY) < 0 then DAY else 0
  }

  /** The weekday of a day, Sunday being 0. */
  function Weekday(days: int): (w: int) {
    TruncMod(TruncMod(days, 7) + 7 + 4, 7)
  }

  /** Day 0 was a Thursday, and the seven days follow each other. */
  lemma WeekdayIsExact(days: int)
    ensures Weekday(days) == (days + 4) % 7 && Weekday(days + 1) == (Weekday(days) + 1) % 7
  {
    hide Weekday;
    WeekdayIsRemainder(days);
    WeekdayIsRemainder(days + 1);
    var q, r := (days + 4) / 7, (days + 4) % 7;
    DivUnique(days + 5, 7, if r == 6 then q + 1 else q, if r == 6 then 0 else r + 1);
  }

  lemma WeekdayIsRemainder(days: int)
    ensures Weekday(days) == (days + 4) % 7
  {
    var k, m := TruncDiv(days, 7), TruncMod(days, 7);
    SmallRemainder(days);
    SevenMore(m + 11, k - 1);
  }

  lemma SmallRemainder(days: int)
    ensures -7 < TruncMod(days, 7) < 7
  {
  }

  lemma SevenMore(x: int, k: int)
    ensures (x + 7 * k) % 7 == x % 7
  {
    DivUnique(x + 7 * k, 7, x / 7 + k, x % 7);
  }

  /** mbedtls_platform_gmtime_r; the year is narrowed to an int. */
  function Gmtime(secs: int): (tm: Tm) {
    var days, rem := DayOf(secs), SecondOfDay(secs);
    var d := CivilFromDays(days);
    Tm(rem % 60, rem / 60 % 60, rem / 60 / 60, d.day, d.month - 1, Signed32(d.year - 1900),
       Weekday(days))
  }

  /** The calendar year a time falls in, whatever fits an int. */
  function YearOf(secs: int): (y: int) {
    CivilFromDays(DayOf(secs)).year
  }

  lemma DayIsFloor(secs: int)
    ensures secs == DayOf(secs) * DAY + SecondOfDay(secs) && 0 <= SecondOfDay(secs) < DAY
    ensures DayOf(secs) == secs / DAY
  {
    if secs >= 0 {
      DivUnique(secs, DAY, secs / DAY, secs % DAY);
    } else {
      var q, r := (-secs) / DAY, (-secs) % DAY;
      assert -secs == q * DAY + r;
      DivUnique(secs, DAY, DayOf(secs), SecondOfDay(secs));
    }
  }

  lemma ClockIsExact(rem: int)
    requires 0 <= rem < DAY
    ensures 0 <= rem % 60 < 60 && 0 <= rem / 60 % 60 < 60 && 0 <= rem / 60 / 60 < 24
    ensures rem == rem / 60 / 60 * 3600 + rem / 60 % 60 * 60 + rem % 60
  {
  }

  /** For every time, before 1970 too: the fields are a real date and a real time of day, and together they are the
      time given; the year field is that date's year less 1900, as far as an int can hold it. */
  lemma GmtimeIsExact(secs: int)
    ensures
      var tm := Gmtime(secs);
      var d := Date(YearOf(secs), tm.mon + 1, tm.mday);
      && RealDate(d) && 0 <= tm.hour < 24 && 0 <= tm.min < 60 && 0 <= tm.sec < 60
      && DaysFromCivil(d) * DAY + tm.hour * 3600 + tm.min * 60 + tm.sec == secs
      && tm.year == Signed32(YearOf(secs) - 1900)
  {
    hide CivilFromDays, RealDate, DayOf, SecondOfDay, Signed32;
    CivilIsExact(DayOf(secs));
    DayIsFloor(secs);
    ClockIsExact(SecondOfDay(secs));
  }

  lemma DayAfter(secs: int)
    ensures DayOf(secs + DAY) == DayOf(secs) + 1 && SecondOfDay(secs + DAY) == SecondOfDay(secs)
  {
    hide DayOf, SecondOfDay;
    DayIsFloor(secs);
    DayIsFloor(secs + DAY);
    DivUnique(secs + DAY, DAY, DayOf(secs) + 1, SecondOfDay(secs));
  }

  /** A day later is the next date, the next weekday and the same time of day. */
  lemma NextDay(secs: int)
    ensures
      var (a, b) := (Gmtime(secs), Gmtime(secs + DAY));
      && Date(YearOf(secs + DAY), b.mon + 1, b.mday) == NextDate(Date(YearOf(secs), a.mon + 1, a.mday))
      && b.wday == (a.wday + 1) % 7 && b.hour == a.hour && b.min == a.min && b.sec == a.sec
  {
    hide CivilFromDays, DayOf, SecondOfDay, Signed32, Weekday, NextDate;
    DayAfter(secs);
    WeekdayIsExact(DayOf(secs));
    ConsecutiveDays(DayOf(secs));
  }

  /** The first second of the first year an int's tm_year can name, and the first one past the last. */
  const FIRST := -67768040609740800
  const BEYOND := 67768036191676800

  lemma YearsOfRange()
    ensures DaysFromCivil(Date(1900 - 0x8000_0000, 1, 1)) * DAY == FIRST
    ensures DaysFromCivil(Date(1900 + 0x8000_0000, 1, 1)) * DAY == BEYOND
  {
    MonthStarts(1900 - 0x8000_0000);
    MonthStarts(1900 + 0x8000_0000);
    hide DaysBeforeMonth, IsLeap;
    assert DaysBeforeYear(1970) == 719528;
  }

  lemma YearBounds(days: int, y: int)
    ensures CivilFromDays(days).year >= y <==> days >= DaysFromCivil(Date(y, 1, 1))
  {
    var d, e := CivilFromDays(days), Date(y, 1, 1);
    CivilIsExact(days);
    hide CivilFromDays, DaysBeforeYear, IsLeap;
    DayOfYear(d);
    MonthStarts(y);
    if d.year >= y {
      YearsInOrder(y, d.year);
    } else {
      YearsApart(d, e);
    }
  }

  /** The narrowed year is the right one exactly for the times from FIRST until BEYOND: all 32-bit times, not all
      64-bit ones. */
  lemma YearFieldIsExact(secs: int)
    ensures Gmtime(secs).year == YearOf(secs) - 1900 <==> FIRST <= secs < BEYOND
  {
    hide CivilFromDays, DaysFromCivil, DayOf, SecondOfDay;
    var days := DayOf(secs);
    DayIsFloor(secs);
    YearsOfRange();
    YearBounds(days, 1900 - 0x8000_0000);
    YearBounds(days, 1900 + 0x8000_0000);
  }
}
