/**
 The civil calendar of src/util.rs: the closed-form conversions between day
 counts and dates, proved equal to the calendar that advances one day at a
 time (month lengths as in section 5.7, leap years as in Appendix C of
 RFC 3339).
 */
module Calendar {
  datatype Date = Date(year: int, month: int, day: int)

  predicate IsLeap(year: int) {
    (year % 4 == 0 && year % 100 != 0) || year % 400 == 0
  }

  function DaysInMonth(year: int, month: int): int {
    if month in {1, 3, 5, 7, 8, 10, 12} then 31
    else if month in {4, 6, 9, 11} then 30
    else if month == 2 then (if IsLeap(year) then 29 else 28)
    else 0
  }

  predicate ValidDate(d: Date) {
    1 <= d.month <= 12 && 1 <= d.day <= DaysInMonth(d.year, d.month)
  }

  // ---------------------------------------------------------------------
  // The reference calendar: one day at a time
  // ---------------------------------------------------------------------

  const EPOCH := Date(1970, 1, 1)

  function NextDay(d: Date): Date {
    if d.day < DaysInMonth(d.year, d.month) then d.(day := d.day + 1)
    else if d.month < 12 then Date(d.year, d.month + 1, 1)
    else Date(d.year + 1, 1, 1)
  }

  function PreviousDay(d: Date): Date {
    if 1 < d.day then d.(day := d.day - 1)
    else if 1 < d.month then Date(d.year, d.month - 1, DaysInMonth(d.year, d.month - 1))
    else Date(d.year - 1, 12, 31)
  }

  /** The date reached from the epoch in `days` single-day steps, forwards or backwards. */
  function Walk(days: int): Date
    decreases if days < 0 then -days else days
  {
    if days == 0 then EPOCH
    else if 0 < days then NextDay(Walk(days - 1))
    else PreviousDay(Walk(days + 1))
  }

  // ---------------------------------------------------------------------
  // The closed forms
  // ---------------------------------------------------------------------

  /** The source's `/`, which truncates toward zero. */
  function TruncatedDiv(a: int, b: int): int
    requires 0 < b
  {
    if 0 <= a then a / b else -((-a) / b)
  }

  function CivilFromDays(days: int): Date {
    var z := days + 719_468;
    var era := z / 146_097;
    var dayOfEra := z % 146_097;
    var yearOfEra := YearOfEra(dayOfEra);
    var year := yearOfEra + era * 400;
    var dayOfYear := dayOfEra - (365 * yearOfEra + yearOfEra / 4 - yearOfEra / 100);
    var monthPrime := (5 * dayOfYear + 2) / 153;
    var day := dayOfYear - (153 * monthPrime + 2) / 5 + 1;
    var month := if monthPrime < 10 then monthPrime + 3 else monthPrime - 9;
    Date(if month <= 2 then year + 1 else year, month, day)
  }

  function YearOfEra(dayOfEra: int): int {
    (dayOfEra - dayOfEra / 1_460 + dayOfEra / 36_524 - dayOfEra / 146_096) / 365
  }

  function DaysFromCivil(d: Date): int {
    var year := if d.month <= 2 then d.year - 1 else d.year;
    var era := TruncatedDiv(if 0 <= year then year else year - 399, 400);
    var yearOfEra := year - era * 400;
    var monthPrime := (d.month + 9) % 12;
    var dayOfYear := (153 * monthPrime + 2) / 5 + d.day - 1;
    var dayOfEra := yearOfEra * 365 + yearOfEra / 4 - yearOfEra / 100 + dayOfYear;
    era * 146_097 + dayOfEra - 719_468
  }

  // ---------------------------------------------------------------------
  // Years of an era: March-based years, 400 to an era
  // ---------------------------------------------------------------------

  /** The day of the era on which March-based year `y` starts. */
  function YearStart(y: int): int {
    365 * y + y / 4 - y / 100
  }

  /** Year `y` of an era is the one that contains a leap day at its end. */
  function YearLength(y: int): int {
    if IsLeap(y + 1) then 366 else 365
  }

  /** The leap pattern of an era in terms of century `a`, four-year cycle `b` and year `g`. */
  lemma YearParts(a: int, b: int, g: int)
    requires 0 <= a < 4 && 0 <= b < 25 && 0 <= g < 4
    ensures YearStart(100 * a + 4 * b + g) == 36_524 * a + 1_461 * b + 365 * g
    ensures YearLength(100 * a + 4 * b + g) == if g == 3 && (b < 24 || a == 3) then 366 else 365
  {
    var k := 100 * a + 4 * b + g;
    assert k / 4 == 25 * a + b;
    assert k / 100 == a;
    if g == 3 {
      assert (k + 1) % 100 == 4 * ((b + 1) % 25);
      if b == 24 {
        assert k + 1 == 100 * (a + 1);
        assert (k + 1) % 400 == 100 * ((a + 1) % 4);
      }
    } else {
      assert (k + 1) % 4 == g + 1;
    }
  }

  lemma YearOfEraIsTheContainingYear(dayOfEra: int)
    requires 0 <= dayOfEra < 146_097
    ensures 0 <= YearOfEra(dayOfEra) < 400
    ensures YearStart(YearOfEra(dayOfEra)) <= dayOfEra
    ensures dayOfEra < YearStart(YearOfEra(dayOfEra)) + YearLength(YearOfEra(dayOfEra))
  {
    var a := if dayOfEra / 36_524 < 4 then dayOfEra / 36_524 else 3;
    var inCentury := dayOfEra - 36_524 * a;
    var b := inCentury / 1_461;
    var inCycle := inCentury - 1_461 * b;
    var g := if inCycle / 365 < 4 then inCycle / 365 else 3;
    assert 0 <= b < 25;
    YearOfEraFromParts(a, b, inCycle);
    YearParts(a, b, g);
  }

  lemma YearOfEraFromParts(a: int, b: int, inCycle: int)
    requires 0 <= a < 4 && 0 <= b < 25 && 0 <= inCycle < 1_461
    requires 1_461 * b + inCycle <= if a == 3 then 36_524 else 36_523
    ensures YearOfEra(36_524 * a + 1_461 * b + inCycle)
         == 100 * a + 4 * b + if inCycle / 365 < 4 then inCycle / 365 else 3
  {
    var doe := 36_524 * a + 1_461 * b + inCycle;
    var t := (24 * a + b + inCycle) / 1_460;
    assert doe / 1_460 == 25 * a + b + t;
    var last := if doe == 146_096 then 1 else 0;
    assert doe / 36_524 == a + last;
    assert doe / 146_096 == last;
    assert YearOfEra(doe) == (365 * (100 * a + 4 * b) + inCycle - t) / 365;
    assert YearOfEra(doe) == 100 * a + 4 * b + (inCycle - t) / 365;
  }

  // ---------------------------------------------------------------------
  // The closed forms are mutually inverse and agree with the calendar
  // ---------------------------------------------------------------------

  lemma EraOfYear(year: int)
    ensures TruncatedDiv(if 0 <= year then year else year - 399, 400) == year / 400
  {
  }

  /** Year `y` of era `era` falls on the same places of the 4, 100 and 400 year cycles as `y`. */
  lemma ErasRepeat(era: int, y: int)
    ensures (400 * era + y) / 4 == 100 * era + y / 4 && (400 * era + y) % 4 == y % 4
    ensures (400 * era + y) / 100 == 4 * era + y / 100 && (400 * era + y) % 100 == y % 100
    ensures (400 * era + y) / 400 == era + y / 400 && (400 * era + y) % 400 == y % 400
    ensures IsLeap(400 * era + y) == IsLeap(y)
  {
    CyclesRepeat4(100 * era, y);
    CyclesRepeat100(4 * era, y);
    CyclesRepeat400(era, y);
  }

  lemma CyclesRepeat4(q: int, y: int)
    ensures (4 * q + y) / 4 == q + y / 4 && (4 * q + y) % 4 == y % 4
  {
  }

  lemma CyclesRepeat100(q: int, y: int)
    ensures (100 * q + y) / 100 == q + y / 100 && (100 * q + y) % 100 == y % 100
  {
  }

  lemma CyclesRepeat400(q: int, y: int)
    ensures (400 * q + y) / 400 == q + y / 400 && (400 * q + y) % 400 == y % 400
  {
  }

  /** The March-based year a date belongs to. */
  function MarchYear(d: Date): int {
    if d.month <= 2 then d.year - 1 else d.year
  }

  /** The day of its March-based year a date falls on. */
  function DayOfYear(d: Date): int {
    (153 * ((d.month + 9) % 12) + 2) / 5 + d.day - 1
  }

  /** The leap days of the years up to `y`. */
  function LeapDays(y: int): int {
    y / 4 - y / 100 + y / 400
  }

  /** The era arithmetic of the source counts 365 days a year plus the leap days so far. */
  lemma DaysFromCivilCountsLeapDays(d: Date)
    ensures var y := MarchYear(d);
            DaysFromCivil(d) == 365 * y + LeapDays(y) + DayOfYear(d) - 719_468
  {
    var y := MarchYear(d);
    EraOfYear(y);
    ErasRepeat(y / 400, y % 400);
  }

  /** The date on day `dayOfYear` of the March-based year `y`. */
  function CivilOfYearDay(y: int, dayOfYear: int): Date {
    var monthPrime := (5 * dayOfYear + 2) / 153;
    var month := if monthPrime < 10 then monthPrime + 3 else monthPrime - 9;
    Date(if month <= 2 then y + 1 else y, month, dayOfYear - (153 * monthPrime + 2) / 5 + 1)
  }

  /** The month arithmetic: every day of a March-based year is a day of a civil month, and back. */
  lemma CivilOfYearDayIsValid(y: int, dayOfYear: int)
    requires 0 <= dayOfYear < if IsLeap(y + 1) then 366 else 365
    ensures var d := CivilOfYearDay(y, dayOfYear);
            ValidDate(d) && MarchYear(d) == y && DayOfYear(d) == dayOfYear
  {
    var monthPrime := (5 * dayOfYear + 2) / 153;
    assert 0 <= monthPrime < 12;
  }

  /** The closed form splits a day count into a March-based year and a day of it. */
  lemma CivilFromDaysSplits(days: int) returns (era: int, y: int, dayOfYear: int)
    ensures 0 <= y < 400 && days + 719_468 == 146_097 * era + YearStart(y) + dayOfYear
    ensures 0 <= dayOfYear < YearLength(y)
    ensures CivilFromDays(days) == CivilOfYearDay(400 * era + y, dayOfYear)
  {
    var dayOfEra := (days + 719_468) % 146_097;
    era, y := (days + 719_468) / 146_097, YearOfEra(dayOfEra);
    YearOfEraIsTheContainingYear(dayOfEra);
    dayOfYear := dayOfEra - YearStart(y);
  }

  lemma DateInEra(era: int, y: int, dayOfYear: int)
    requires 0 <= y < 400 && 0 <= dayOfYear < YearLength(y)
    ensures var d := CivilOfYearDay(400 * era + y, dayOfYear);
            ValidDate(d) && MarchYear(d) == 400 * era + y && DayOfYear(d) == dayOfYear
  {
    assert IsLeap(400 * era + y + 1) == IsLeap(y + 1) by {
      ErasRepeat(era, y + 1);
    }
    CivilOfYearDayIsValid(400 * era + y, dayOfYear);
  }

  lemma DaysInEra(d: Date, era: int, y: int)
    requires 0 <= y < 400 && MarchYear(d) == 400 * era + y
    ensures DaysFromCivil(d) == 146_097 * era + YearStart(y) + DayOfYear(d) - 719_468
  {
    DaysFromCivilCountsLeapDays(d);
    LeapDaysOfEra(era, y);
  }

  lemma CivilFromDaysIsValid(days: int)
    ensures ValidDate(CivilFromDays(days))
    ensures DaysFromCivil(CivilFromDays(days)) == days
  {
    var era, y, dayOfYear := CivilFromDaysSplits(days);
    DateInEra(era, y, dayOfYear);
    DaysInEra(CivilFromDays(days), era, y);
  }

  lemma LeapDaysOfEra(era: int, y: int)
    requires 0 <= y < 400
    ensures 365 * (400 * era + y) + LeapDays(400 * era + y) == 146_097 * era + YearStart(y)
  {
    ErasRepeat(era, y);
  }

  lemma NextDayAddsOne(d: Date)
    requires ValidDate(d)
    ensures ValidDate(NextDay(d))
    ensures DaysFromCivil(NextDay(d)) == DaysFromCivil(d) + 1
  {
    DaysFromCivilCountsLeapDays(d);
    DaysFromCivilCountsLeapDays(NextDay(d));
    NextDayOfYear(d);
    LeapDaysGrow(d.year);
  }

  /** A day later is one day further in the same March-based year, or the first day of the next. */
  lemma NextDayOfYear(d: Date)
    requires ValidDate(d)
    ensures ValidDate(NextDay(d))
    ensures if d.month == 2 && d.day == DaysInMonth(d.year, 2) then
              && MarchYear(d) == d.year - 1 && MarchYear(NextDay(d)) == d.year
              && DayOfYear(d) == (if IsLeap(d.year) then 365 else 364) && DayOfYear(NextDay(d)) == 0
            else
              MarchYear(NextDay(d)) == MarchYear(d) && DayOfYear(NextDay(d)) == DayOfYear(d) + 1
  {
    assert d.month == 1 || d.month == 2 || d.month == 3 || d.month == 4 || d.month == 5 || d.month == 6
        || d.month == 7 || d.month == 8 || d.month == 9 || d.month == 10 || d.month == 11 || d.month == 12;
  }

  /** Each year adds a leap day exactly when it is leap. */
  lemma LeapDaysGrow(y: int)
    ensures LeapDays(y) == LeapDays(y - 1) + if IsLeap(y) then 1 else 0
  {
    YearStep4(y);
    YearStep100(y);
    YearStep400(y);
    CyclesNest(y);
  }

  lemma YearStep4(y: int)
    ensures y / 4 - (y - 1) / 4 == if y % 4 == 0 then 1 else 0
  {
  }

  lemma YearStep100(y: int)
    ensures y / 100 - (y - 1) / 100 == if y % 100 == 0 then 1 else 0
  {
  }

  lemma YearStep400(y: int)
    ensures y / 400 - (y - 1) / 400 == if y % 400 == 0 then 1 else 0
  {
  }

  lemma CyclesNest(y: int)
    ensures y % 400 == 0 ==> y % 100 == 0
    ensures y % 100 == 0 ==> y % 4 == 0
  {
    if y % 400 == 0 {
      CyclesRepeat100(4 * (y / 400), 0);
    }
    if y % 100 == 0 {
      CyclesRepeat4(25 * (y / 100), 0);
    }
  }

  lemma PreviousDayUndoesNextDay(d: Date)
    requires ValidDate(d)
    ensures ValidDate(PreviousDay(d)) && NextDay(PreviousDay(d)) == d
    ensures PreviousDay(NextDay(d)) == d
  {
  }

  lemma PreviousDayTakesOne(d: Date)
    requires ValidDate(d)
    ensures ValidDate(PreviousDay(d))
    ensures DaysFromCivil(PreviousDay(d)) == DaysFromCivil(d) - 1
  {
    PreviousDayUndoesNextDay(d);
    NextDayAddsOne(PreviousDay(d));
  }

  /** Walking one day at a time visits valid dates, and the day count counts the steps. */
  lemma {:induction false} WalkCounts(days: int)
    ensures ValidDate(Walk(days)) && DaysFromCivil(Walk(days)) == days
    decreases if days < 0 then -days else days
  {
    if 0 < days {
      WalkCounts(days - 1);
      NextDayAddsOne(Walk(days - 1));
    } else if days < 0 {
      WalkCounts(days + 1);
      PreviousDayTakesOne(Walk(days + 1));
    }
  }

  /** Chronological order of dates. */
  predicate Before(d: Date, e: Date) {
    d.year < e.year || (d.year == e.year && (d.month < e.month || (d.month == e.month && d.day < e.day)))
  }

  /** The day count is strictly monotone in the date, so it tells valid dates apart. */
  lemma DaysFromCivilIsMonotone(d: Date, e: Date)
    requires ValidDate(d) && ValidDate(e) && Before(d, e)
    ensures DaysFromCivil(d) < DaysFromCivil(e)
  {
    DaysFromCivilCountsLeapDays(d);
    DaysFromCivilCountsLeapDays(e);
    if MarchYear(d) == MarchYear(e) {
      DayOfYearIsMonotone(d, e);
    } else {
      DayOfYearFits(d);
      DayOfYearFits(e);
      MarchYearsAdvance(d, e);
      LaterYearIsLater(MarchYear(d), DayOfYear(d), MarchYear(e), DayOfYear(e));
    }
  }

  lemma MarchYearsAdvance(d: Date, e: Date)
    requires ValidDate(d) && ValidDate(e) && Before(d, e)
    ensures MarchYear(d) <= MarchYear(e)
  {
  }

  lemma LaterYearIsLater(y: int, dayOfYear: int, y': int, dayOfYear': int)
    requires y < y' && 0 <= dayOfYear < (if IsLeap(y + 1) then 366 else 365) && 0 <= dayOfYear'
    ensures 365 * y + LeapDays(y) + dayOfYear < 365 * y' + LeapDays(y') + dayOfYear'
  {
    LeapDaysAreMonotone(y + 1, y');
    LeapDaysGrow(y + 1);
  }

  lemma DayOfYearFits(d: Date)
    requires ValidDate(d)
    ensures 0 <= DayOfYear(d) < if IsLeap(MarchYear(d) + 1) then 366 else 365
  {
  }

  /** Where the months of a March-based year start. */
  function MonthStart(m: int): int {
    (153 * m + 2) / 5
  }

  lemma MonthsAdvance(m: int, n: int)
    requires 0 <= m < n < 12
    ensures MonthStart(m) + 28 <= MonthStart(m + 1) <= MonthStart(n)
  {
    assert 153 * (m + 1) + 2 <= 153 * n + 2;
  }

  lemma DayOfYearIsMonotone(d: Date, e: Date)
    requires ValidDate(d) && ValidDate(e) && Before(d, e) && MarchYear(d) == MarchYear(e)
    ensures DayOfYear(d) < DayOfYear(e)
  {
    var m, n := (d.month + 9) % 12, (e.month + 9) % 12;
    assert m <= n;
    assert DayOfYear(d) == MonthStart(m) + d.day - 1 && DayOfYear(e) == MonthStart(n) + e.day - 1;
    if m < n {
      DayFitsMonth(d);
      MonthsAdvance(m, n);
    }
  }

  lemma DayFitsMonth(d: Date)
    requires ValidDate(d) && d.month != 2
    ensures d.day <= MonthStart((d.month + 9) % 12 + 1) - MonthStart((d.month + 9) % 12)
  {
  }

  lemma {:induction false} LeapDaysAreMonotone(y: int, y': int)
    requires y <= y'
    ensures LeapDays(y) <= LeapDays(y')
    decreases y' - y
  {
    if y < y' {
      LeapDaysAreMonotone(y, y' - 1);
      LeapDaysGrow(y');
    }
  }

  /** On every valid date of every year, the conversion to a day count is undone by its inverse. */
  lemma CivilFromDaysInvertsDaysFromCivil(d: Date)
    requires ValidDate(d)
    ensures CivilFromDays(DaysFromCivil(d)) == d
  {
    var e := CivilFromDays(DaysFromCivil(d));
    CivilFromDaysIsValid(DaysFromCivil(d));
    if Before(d, e) {
      DaysFromCivilIsMonotone(d, e);
    } else if Before(e, d) {
      DaysFromCivilIsMonotone(e, d);
    }
  }

  lemma DateOfDayCount(d: Date, days: int)
    requires ValidDate(d) && DaysFromCivil(d) == days
    ensures CivilFromDays(days) == d
  {
    CivilFromDaysInvertsDaysFromCivil(d);
  }

  /** For every integer, the closed form is the date the day-by-day calendar reaches. */
  lemma ClosedFormIsTheCalendar(days: int)
    ensures CivilFromDays(days) == Walk(days)
    ensures ValidDate(CivilFromDays(days))
  {
    WalkCounts(days);
    DateOfDayCount(Walk(days), days);
  }
}
