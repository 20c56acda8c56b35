/** Calendar arithmetic: four algorithms over the same calendar - counting years and months up from
    1970, a closed form over 400-year eras, a weekday formula, and advancing a date by days. */
module Calendar {
  import opened Machine

  // ---------------------------------------------------------------- the calendar

  predicate Leap(y: nat) {
    (y % 4 == 0 && y % 100 != 0) || y % 400 == 0
  }

  function YearDays(y: nat): nat {
    if Leap(y) then 366 else 365
  }

  /** Days in a month; 0 for a month that does not exist. */
  function MonthDays(y: nat, m: nat): (d: nat)
    ensures d <= 31 && (1 <= m <= 12 <==> 28 <= d) && (1 <= m <= 12 <==> 0 < d)
  {
    if m < 1 || 12 < m then 0
    else if m == 2 then if Leap(y) then 29 else 28
    else if m == 4 || m == 6 || m == 9 || m == 11 then 30
    else 31
  }

  /** Days from 1 January of year 0 to 1 January of year `y`. */
  function YearStart(y: nat): nat {
    if y == 0 then 0 else YearStart(y - 1) + YearDays(y - 1)
  }

  /** Days from 1 January to the first of month `m`. */
  function MonthStart(y: nat, m: nat): nat {
    if m <= 1 then 0 else MonthStart(y, m - 1) + MonthDays(y, m - 1)
  }

  function DayNumber(y: nat, m: nat, d: nat): int {
    YearStart(y) + MonthStart(y, m) + d - 1
  }

  predicate ValidDate(y: nat, m: nat, d: nat) {
    1 <= m <= 12 && 1 <= d <= MonthDays(y, m)
  }

  const EPOCH_YEAR := 1970
  // Day number of 1 January 1970.
  const EPOCH := 719528
  const DAY_SECONDS := 86400

  // ---------------------------------------------------------------- facts about the calendar

  function LeapDays(y: nat): int {
    (y + 3) / 4 - (y + 99) / 100 + (y + 399) / 400
  }

  lemma {:induction false} YearStartClosed(y: nat)
    ensures YearStart(y) == 365 * y + LeapDays(y)
  {
    if y > 0 {
      YearStartClosed(y - 1);
      LeapStep(y - 1);
    }
  }

  lemma Ceiling4(y: nat)
    ensures (y + 3) / 4 == y / 4 + if y % 4 == 0 then 0 else 1
    ensures (y + 4) / 4 == y / 4 + 1
  {
  }

  lemma Ceiling100(y: nat)
    ensures (y + 99) / 100 == y / 100 + if y % 100 == 0 then 0 else 1
    ensures (y + 100) / 100 == y / 100 + 1
  {
  }

  lemma Ceiling400(y: nat)
    ensures (y + 399) / 400 == y / 400 + if y % 400 == 0 then 0 else 1
    ensures (y + 400) / 400 == y / 400 + 1
  {
  }

  lemma CenturyIsFourth(y: nat)
    ensures y % 100 == 0 ==> y % 4 == 0
    ensures y % 400 == 0 ==> y % 100 == 0
  {
    if y % 100 == 0 {
      assert y == 4 * (25 * (y / 100));
    }
    if y % 400 == 0 {
      assert y == 100 * (4 * (y / 400));
    }
  }

  lemma LeapStep(y: nat)
    ensures LeapDays(y + 1) == LeapDays(y) + if Leap(y) then 1 else 0
  {
    Ceiling4(y);
    Ceiling100(y);
    Ceiling400(y);
    CenturyIsFourth(y);
  }

  lemma {:induction false} YearStartGrows(y: nat, z: nat)
    requires y < z
    ensures YearStart(y) + YearDays(y) <= YearStart(z)
  {
    if y < z - 1 {
      YearStartGrows(y, z - 1);
    }
  }

  /** Where each month starts. */
  function MonthTable(y: nat, m: nat): nat
    requires 1 <= m <= 13
  {
    var leap := if Leap(y) then 1 else 0;
    if m == 1 then 0 else if m == 2 then 31
    else leap + (if m == 3 then 59 else if m == 4 then 90 else if m == 5 then 120 else if m == 6 then 151
                 else if m == 7 then 181 else if m == 8 then 212 else if m == 9 then 243
                 else if m == 10 then 273 else if m == 11 then 304 else if m == 12 then 334 else 365)
  }

  lemma {:induction false} MonthStartTable(y: nat, m: nat)
    requires 1 <= m <= 13
    ensures MonthStart(y, m) == MonthTable(y, m)
  {
    if m > 1 {
      MonthStartTable(y, m - 1);
    }
  }

  lemma MonthStartBounds(y: nat, m: nat)
    requires 1 <= m <= 12
    ensures MonthStart(y, m) + MonthDays(y, m) == MonthStart(y, m + 1) <= YearDays(y)
  {
    MonthStartTable(y, m);
    MonthStartTable(y, m + 1);
  }

  lemma MonthStartGrows(y: nat, m: nat, n: nat)
    requires 1 <= m < n <= 12
    ensures MonthStart(y, m) + MonthDays(y, m) <= MonthStart(y, n)
  {
    MonthStartBounds(y, m);
    MonthStartTable(y, m + 1);
    MonthStartTable(y, n);
  }

  /** A day number belongs to one date only. */
  lemma DateUnique(y: nat, m: nat, d: nat, y': nat, m': nat, d': nat)
    requires ValidDate(y, m, d) && ValidDate(y', m', d')
    requires DayNumber(y, m, d) == DayNumber(y', m', d')
    ensures y == y' && m == m' && d == d'
  {
    MonthStartBounds(y, m);
    MonthStartBounds(y', m');
    if y < y' {
      YearStartGrows(y, y');
    } else if y' < y {
      YearStartGrows(y', y);
    } else if m < m' {
      MonthStartGrows(y, m, m');
    } else if m' < m {
      MonthStartGrows(y, m', m);
    }
  }

  // ---------------------------------------------------------------- closed form and weekday

  datatype Civil = Civil(year: u16, month: u8, day: u8, hour: u8, min: u8, sec: u8)

  function DateOf(c: Civil): int {
    DayNumber(c.year, c.month, c.day)
  }

  predicate ValidCivil(c: Civil) {
    ValidDate(c.year, c.month, c.day) && c.hour < 24 && c.min < 60 && c.sec < 60
  }

  function SecondOfDay(c: Civil): nat {
    c.hour * 3600 + c.min * 60 + c.sec
  }

  /** Days since the epoch, over 400-year eras that start in March. */
  function EraDays(year: nat, month: nat, day: nat): int
    requires 1 <= year && 1 <= month <= 12
  {
    var y := year - if month <= 2 then 1 else 0;
    var era := y / 400;
    var yoe := y - era * 400;
    var doy := (153 * (if month > 2 then month - 3 else month + 9) + 2) / 5 + day - 1;
    var doe := yoe * 365 + yoe / 4 - yoe / 100 + doy;
    era * 146097 + doe - 719468
  }

  /** Seconds since the epoch, in 32-bit arithmetic; 0 for dates the function does not take. */
  function CivilToUnix(c: Civil): u32 {
    if c.year < EPOCH_YEAR || c.month < 1 || 12 < c.month then 0
    else (EraDays(c.year, c.month, c.day) * DAY_SECONDS + SecondOfDay(c)) % U32_MOD
  }

  lemma EraIsDayNumber(y: nat, m: nat, d: nat)
    requires 1 <= y && 1 <= m <= 12
    ensures EraDays(y, m, d) == DayNumber(y, m, d) - EPOCH
  {
    YearStartClosed(y);
    MonthStartTable(y, m);
    MarchTable(m);
    EraUnfolds(y, m, d);
    EraLeap(y);
  }

  function MarchDay(m: nat): nat
    requires 1 <= m <= 12
  {
    (153 * (if m > 2 then m - 3 else m + 9) + 2) / 5
  }

  lemma EraUnfolds(y: nat, m: nat, d: nat)
    requires 1 <= y && 1 <= m <= 12
    ensures var y1 := y - if m <= 2 then 1 else 0;
      EraDays(y, m, d) == 365 * y1 + LeapTerms(y1) + MarchDay(m) + d - 719469
  {
    EraSum(y - if m <= 2 then 1 else 0);
  }

  /** The era decomposition adds up to the plain count of days and leap days. */
  lemma EraSum(y: nat)
    ensures var era, yoe := y / 400, y - y / 400 * 400;
      era * 146097 + yoe * 365 + yoe / 4 - yoe / 100 == 365 * y + y / 4 - y / 100 + y / 400
  {
    var era, yoe := y / 400, y % 400;
    assert y == 400 * era + yoe;
    assert y / 4 == 100 * era + yoe / 4;
    assert y / 100 == 4 * era + yoe / 100;
  }

  lemma MarchTable(m: nat)
    requires 1 <= m <= 12
    ensures MarchDay(m) ==
      if m == 1 then 306 else if m == 2 then 337 else MonthTable(1, m) - 59
  {
  }

  function LeapTerms(y: nat): int {
    y / 4 - y / 100 + y / 400
  }

  lemma EraLeap(y: nat)
    requires 1 <= y
    ensures LeapTerms(y) == LeapDays(y) - 1 + if Leap(y) then 1 else 0
    ensures LeapTerms(y - 1) == LeapDays(y) - 1
  {
    Ceiling4(y);
    Ceiling100(y);
    Ceiling400(y);
    CenturyIsFourth(y);
    Ceiling4(y - 1);
    Ceiling100(y - 1);
    Ceiling400(y - 1);
  }

  /** The closed form is exact for every date from 1970 on that fits 32 bits of seconds. */
  lemma CivilToUnixIsExact(c: Civil)
    requires ValidCivil(c) && EPOCH_YEAR <= c.year
    ensures 0 <= DateOf(c) - EPOCH
    ensures CivilToUnix(c) == ((DateOf(c) - EPOCH) * DAY_SECONDS + SecondOfDay(c)) % U32_MOD
  {
    EraIsDayNumber(c.year, c.month, c.day);
    YearStartClosed(c.year);
  }

  function WeekTable(m: nat): nat
    requires 1 <= m <= 12
  {
    [0, 3, 2, 5, 0, 3, 5, 1, 4, 6, 2, 4][m - 1]
  }

  /** 0 is Sunday; also for dates the function does not take. The year is a 16-bit number. */
  function Weekday(year: u16, month: u8, day: u8): nat {
    if month < 1 || 12 < month || day < 1 then 0
    else
      WeekSum(WeekYear(year, month), month, day) % 7
  }

  function WeekSum(y: u16, month: u8, day: u8): int
    requires 1 <= month <= 12
  {
    y + LeapTerms(y) + WeekTable(month) + day
  }

  lemma ModShift(a: int, b: int, q: int, r: int)
    requires a == b + 7 * q + r && 0 <= r < 7
    ensures a % 7 == b % 7 <==> r == 0
  {
  }

  /** How far the month offset of the formula is from where the month starts, in weeks. */
  function WeekShift(m: nat): int
    requires 1 <= m <= 12
  {
    [0, -4, -8, -12, -17, -21, -25, -30, -34, -38, -43, -47][m - 1]
  }

  lemma WeekTableAgrees(y: nat, m: nat)
    requires 1 <= m <= 12
    ensures WeekTable(m) + (if m < 3 then 0 else 1 + if Leap(y) then 1 else 0) == MonthTable(y, m) + 7 * WeekShift(m)
  {
  }

  /** The year the formula works with: one less in January and February, in 16 bits. */
  function WeekYear(year: u16, month: u8): u16 {
    if month < 3 then (year - 1) % U16_MOD else year
  }

  function WeekQuotient(year: u16, month: u8): int
    requires 1 <= month <= 12
  {
    WeekShift(month) + if year == 0 && month < 3 then 114421 else 102789 - 52 * year
  }

  lemma WeekSumYearZero(month: u8, day: u8)
    requires 1 <= month < 3 && 1 <= day
    ensures WeekSum(WeekYear(0, month), month, day) ==
      DayNumber(0, month, day) - EPOCH + 4 + 7 * WeekQuotient(0, month) + 4
  {
    MonthStartTable(0, month);
    WeekTableAgrees(0, month);
  }

  lemma WeekSumIs(year: u16, month: u8, day: u8)
    requires 1 <= month <= 12 && 1 <= day && (year == 0 ==> 3 <= month)
    ensures WeekSum(WeekYear(year, month), month, day) ==
      DayNumber(year, month, day) - EPOCH + 4 + 7 * WeekQuotient(year, month)
  {
    YearStartClosed(year);
    MonthStartTable(year, month);
    WeekTableAgrees(year, month);
    WeekLeaps(year, month);
  }

  /** Years and leap days as the formula counts them. */
  lemma WeekLeaps(year: u16, month: u8)
    requires 1 <= month <= 12 && (year == 0 ==> 3 <= month)
    ensures var y := WeekYear(year, month);
      y + LeapTerms(y) == year + LeapDays(year) - 1 + (if month < 3 then -1 else if Leap(year) then 1 else 0)
  {
    assert WeekYear(year, month) == if month < 3 then year - 1 else year;
    if 1 <= year {
      EraLeap(year);
    }
  }

  /** The formula gives the day of the week, 1 January 1970 being a Thursday, for all dates but
      those in January and February of year 0. */
  lemma WeekdayIsExact(year: u16, month: u8, day: u8)
    requires 1 <= month <= 12 && 1 <= day
    ensures Weekday(year, month, day) == (DayNumber(year, month, day) - EPOCH + 4) % 7
            <==> !(year == 0 && month < 3)
  {
    if year == 0 && month < 3 {
      WeekSumYearZero(month, day);
    } else {
      WeekSumIs(year, month, day);
    }
    ModShift(WeekSum(WeekYear(year, month), month, day), DayNumber(year, month, day) - EPOCH + 4,
             WeekQuotient(year, month), if year == 0 && month < 3 then 4 else 0);
  }
}
