/** The loops of the software clock: Unix seconds to a civil date, and advancing a date by days. */
module Clock {
  import opened Machine
  import opened Calendar

  /** `c` is the valid date and time of Unix second `t`. */
  predicate IsCivilOf(t: u32, c: Civil) {
    && ValidCivil(c)
    && DateOf(c) - EPOCH == t / DAY_SECONDS
    && SecondOfDay(c) == t % DAY_SECONDS
  }

  const LAST_YEAR := 2199

  /** No 32-bit count of seconds reaches the end of the last year the loop allows. */
  lemma LoopStopsInTime(y: nat, days: nat, t: u32)
    requires YearStart(y) + days == EPOCH + t / DAY_SECONDS
    ensures y <= LAST_YEAR
  {
    YearStartClosed(y);
  }

  lemma EpochIs(y: nat)
    requires y == EPOCH_YEAR
    ensures YearStart(y) == EPOCH
  {
    YearStartClosed(y);
  }

  method UnixToCivil(t: u32) returns (c: Civil, wday: nat)
    ensures IsCivilOf(t, c)
    ensures wday == (t / DAY_SECONDS + 4) % 7
  {
    var days, rem := t / DAY_SECONDS, t % DAY_SECONDS;
    var hour, min, sec := rem / 3600, rem % 3600 / 60, rem % 60;
    SecondsSplit(rem);
    var year;
    year, days := YearOf(t);
    var month;
    month, days := MonthOf(year, days);
    c := Civil(year, month, days + 1, hour, min, sec);
    wday := Weekday(c.year, c.month, c.day);
    WeekdayIsExact(c.year, c.month, c.day);
  }

  lemma SecondsSplit(rem: nat)
    requires rem < DAY_SECONDS
    ensures rem / 3600 < 24 && rem % 3600 / 60 < 60
    ensures rem / 3600 * 3600 + rem % 3600 / 60 * 60 + rem % 60 == rem
  {
  }

  /** Counts years up from 1970. */
  method YearOf(t: u32) returns (year: u16, days: nat)
    ensures EPOCH_YEAR <= year <= LAST_YEAR && days < YearDays(year)
    ensures YearStart(year) + days == EPOCH + t / DAY_SECONDS
  {
    year, days := EPOCH_YEAR, t / DAY_SECONDS;
    EpochIs(year);
    while true
      invariant EPOCH_YEAR <= year <= LAST_YEAR
      invariant YearStart(year) + days == EPOCH + t / DAY_SECONDS
      decreases days
    {
      var ydays := YearDays(year);
      if days < ydays {
        break;
      }
      days := days - ydays;
      year := year + 1;
      if year > LAST_YEAR {
        LoopStopsInTime(year, days, t);
        break;
      }
    }
  }

  /** Counts months up from January. */
  method MonthOf(year: u16, dayOfYear: nat) returns (month: u8, days: nat)
    requires dayOfYear < YearDays(year)
    ensures 1 <= month <= 12 && days < MonthDays(year, month)
    ensures MonthStart(year, month) + days == dayOfYear
  {
    month, days := 1, dayOfYear;
    while month <= 12
      invariant 1 <= month <= 12
      invariant MonthStart(year, month) + days == dayOfYear
      decreases 13 - month
    {
      var md := MonthDays(year, month);
      if days < md {
        break;
      }
      MonthStartBounds(year, month);
      MonthEnds(year, month, days, dayOfYear);
      days := days - md;
      month := month + 1;
    }
  }

  lemma MonthEnds(year: u16, month: u8, days: nat, dayOfYear: nat)
    requires 1 <= month <= 12 && dayOfYear < YearDays(year)
    requires MonthStart(year, month) + days == dayOfYear && MonthDays(year, month) <= days
    ensures month < 12
  {
    MonthStartBounds(year, month);
    MonthStartTable(year, month + 1);
  }

  // ---------------------------------------------------------------- the algorithms agree

  lemma SecondsUnique(c: Civil, d: Civil)
    requires ValidCivil(c) && ValidCivil(d) && SecondOfDay(c) == SecondOfDay(d)
    ensures c.hour == d.hour && c.min == d.min && c.sec == d.sec
  {
  }

  /** Counting up from 1970 and then applying the closed form gives the seconds back. */
  lemma UnixRoundTrip(t: u32, c: Civil)
    requires IsCivilOf(t, c)
    ensures CivilToUnix(c) == t
  {
    YearNotBeforeEpoch(c.year, c.month, c.day, EPOCH_YEAR);
    CivilToUnixIsExact(c);
    SecondsBack(t, DateOf(c) - EPOCH, SecondOfDay(c));
  }

  lemma SecondsBack(t: u32, days: int, sec: int)
    requires days == t / DAY_SECONDS && sec == t % DAY_SECONDS
    ensures (days * DAY_SECONDS + sec) % U32_MOD == t
  {
    assert t / DAY_SECONDS * DAY_SECONDS + t % DAY_SECONDS == t;
  }

  lemma YearNotBeforeEpoch(y: nat, m: nat, d: nat, epoch: nat)
    requires ValidDate(y, m, d) && EPOCH <= DayNumber(y, m, d) && epoch == EPOCH_YEAR
    ensures epoch <= y
  {
    EpochIs(epoch);
    MonthStartBounds(y, m);
    if y < epoch {
      YearStartGrows(y, epoch);
    }
  }

  /** The closed form and then counting up gives back every valid date from 1970 on
      whose seconds fit in 32 bits, and no other date has those seconds. */
  lemma CivilRoundTrip(c: Civil, d: Civil)
    requires ValidCivil(c) && EPOCH_YEAR <= c.year
    requires (DateOf(c) - EPOCH) * DAY_SECONDS + SecondOfDay(c) < U32_MOD
    requires IsCivilOf(CivilToUnix(c), d)
    ensures d == c
  {
    CivilToUnixIsExact(c);
    DaysAndSeconds(DateOf(c) - EPOCH, SecondOfDay(c), CivilToUnix(c));
    DateUnique(c.year, c.month, c.day, d.year, d.month, d.day);
    SecondsUnique(c, d);
  }

  lemma DaysAndSeconds(days: int, sec: int, t: int)
    requires 0 <= days && 0 <= sec < DAY_SECONDS && days * DAY_SECONDS + sec < U32_MOD
    requires t == (days * DAY_SECONDS + sec) % U32_MOD
    ensures t / DAY_SECONDS == days && t % DAY_SECONDS == sec
  {
  }

  // ---------------------------------------------------------------- advancing by days

  // Days in all 65536 years a 16-bit year can name; after them it starts again at 0.
  const CYCLE := 23936532

  lemma CycleIs(years: nat)
    requires years == U16_MOD
    ensures YearStart(years) == CYCLE
  {
    YearStartClosed(years);
  }

  lemma WithinCycle(y: u16, m: nat, d: nat)
    requires ValidDate(y, m, d)
    ensures 0 <= DayNumber(y, m, d) < CYCLE
  {
    var years := U16_MOD;
    CycleIs(years);
    MonthStartBounds(y, m);
    YearStartGrows(y, years);
  }

  datatype Ymd = Ymd(year: u16, month: u8, day: u8)

  function NumberOf(x: Ymd): int {
    DayNumber(x.year, x.month, x.day)
  }

  predicate IsDate(x: Ymd) {
    ValidDate(x.year, x.month, x.day)
  }

  /** The date the clock counts from: an impossible day counts as the first, an impossible month
      as the January the month counter reaches next. */
  function Settle(x: Ymd): (s: Ymd)
    ensures IsDate(s)
  {
    if IsDate(x) then x
    else if 1 <= x.month <= 12 then x.(day := 1)
    else if x.month == 0 || x.month == 255 then Ymd(x.year, 1, 1)
    else Ymd((x.year + 1) % U16_MOD, 1, 1)
  }

  function NextMonth(x: Ymd): Ymd {
    var m := (x.month + 1) % U8_MOD;
    if m > 12 then Ymd((x.year + 1) % U16_MOD, 1, 1) else Ymd(x.year, m, 1)
  }

  /** Days from a date to the first of the next month. */
  function Left(x: Ymd): int {
    MonthDays(x.year, x.month) - x.day + 1
  }

  lemma MonthFollows(y: nat, m: nat, d: nat)
    requires 1 <= m <= 11
    ensures DayNumber(y, m + 1, 1) == DayNumber(y, m, d) + MonthDays(y, m) - d + 1
  {
  }

  lemma YearFollows(y: nat, d: nat)
    ensures DayNumber(y + 1, 1, 1) == DayNumber(y, 12, d) + 31 - d + 1
  {
    MonthStartTable(y, 12);
  }

  lemma CycleFollows(y: nat, d: nat, zero: nat)
    requires y == U16_MOD - 1 && zero == 0
    ensures DayNumber(zero, 1, 1) == DayNumber(y, 12, d) + 31 - d + 1 - CYCLE
  {
    YearFollows(y, d);
    CycleIs(y + 1);
    YearStartIsZero(zero);
  }

  lemma YearStartIsZero(y: nat)
    requires y == 0
    ensures YearStart(y) == 0
  {
  }

  /** Moving to the first of the next month uses up the days left in this one. */
  lemma NextCounts(x: Ymd, days: int)
    requires IsDate(x)
    ensures IsDate(NextMonth(x))
    ensures (NumberOf(NextMonth(x)) + (days - Left(x))) % CYCLE == (NumberOf(x) + days) % CYCLE
  {
    NextIsDate(x);
    NextNumber(x);
    ModGap(NumberOf(NextMonth(x)), NumberOf(x), Left(x), days);
  }

  lemma NextIsDate(x: Ymd)
    requires IsDate(x)
    ensures IsDate(NextMonth(x))
  {
  }

  lemma NextNumber(x: Ymd)
    requires IsDate(x)
    ensures var next, now := NumberOf(NextMonth(x)), NumberOf(x) + Left(x);
      next == now || next == now - CYCLE
  {
    var y, m := x.year, x.month;
    if m < 12 {
      assert NextMonth(x) == Ymd(y, m + 1, 1);
      MonthFollows(y, m, x.day);
    } else if y < U16_MOD - 1 {
      assert NextMonth(x) == Ymd(y + 1, 1, 1);
      YearFollows(y, x.day);
    } else {
      assert NextMonth(x) == Ymd(0, 1, 1);
      CycleFollows(y, x.day, 0);
    }
  }

  lemma AdvanceWithin(x: Ymd, days: nat)
    requires IsDate(x) && days < Left(x)
    ensures var z := x.(day := x.day + days);
      IsDate(z) && Settle(z) == z && NumberOf(z) == NumberOf(x) + days
  {
  }

  /** A month that does not exist costs no days and leads to the same starting date. */
  lemma SettleBadMonth(x: Ymd)
    requires !(1 <= x.month <= 12)
    ensures Settle(NextMonth(x)) == Settle(x) && Rank(NextMonth(x).month) < Rank(x.month)
  {
  }

  lemma SameModulo(a: int, b: int)
    requires a == b || a == b - CYCLE
    ensures a % CYCLE == b % CYCLE
  {
  }

  lemma ModGap(next: int, now: int, left: int, days: int)
    requires next == now + left || next == now + left - CYCLE
    ensures (next + (days - left)) % CYCLE == (now + days) % CYCLE
  {
    SameModulo(next + (days - left), now + days);
  }

  /** How many more month steps an impossible month needs before days are counted. */
  function Rank(month: u8): nat {
    if 1 <= month <= 12 then 0 else if month == 255 then 2 else 1
  }

  class Date {
    var d: Ymd

    constructor (d: Ymd)
      ensures this.d == d
    {
      this.d := d;
    }

    /** One round of the loop: within the month if the days are used up there, else to the next. */
    method Advance(days: nat) returns (rest: nat)
      requires 0 < days
      modifies this
      ensures rest <= days && (rest == 0 || rest < days || Rank(d.month) < Rank(old(d).month))
      ensures rest < days ==> IsDate(d)
      ensures rest == days ==> !IsDate(d) || d.day == 1
      ensures (NumberOf(Settle(d)) + rest) % CYCLE == (NumberOf(Settle(old(d))) + days) % CYCLE
    {
      var md := MonthDays(d.year, d.month);
      if md == 0 || d.day < 1 || d.day > md {
        d := d.(day := 1);
        md := MonthDays(d.year, d.month);
      }
      assert Settle(d) == Settle(old(d));
      var left := md - d.day + 1;
      if days < left {
        AdvanceWithin(d, days);
        d := d.(day := d.day + days);
        return 0;
      }
      rest := days - left;
      if 0 < md {
        NextCounts(d, days);
      } else {
        SettleBadMonth(d);
      }
      d := NextMonth(d);
    }

    /** Advances by `n` days. The year is a 16-bit number, so the result is exact modulo the
        days of all 16-bit years. */
    method AddDays(n: u32)
      modifies this
      ensures n == 0 ==> d == old(d)
      ensures 0 < n ==> IsDate(d) && NumberOf(d) == (NumberOf(Settle(old(d))) + n) % CYCLE
    {
      ghost var from := NumberOf(Settle(d));
      var days := n;
      while days > 0
        invariant 0 <= days <= n
        invariant n == 0 ==> d == old(d)
        invariant days < n ==> IsDate(d)
        invariant (NumberOf(Settle(d)) + days) % CYCLE == (from + n) % CYCLE
        decreases days, Rank(d.month)
      {
        days := Advance(days);
      }
      if 0 < n {
        WithinCycle(d.year, d.month, d.day);
      }
    }
  }

  /** While the year stays within 16 bits, the clock reaches the date whose day number is `n` larger. */
  lemma AddDaysIsExact(from: Ymd, to: Ymd, n: nat)
    requires IsDate(from) && IsDate(to) && NumberOf(to) == (NumberOf(from) + n) % CYCLE
    ensures NumberOf(to) == NumberOf(from) + n <==> NumberOf(from) + n < CYCLE
  {
    WithinCycle(from.year, from.month, from.day);
    WithinCycle(to.year, to.month, to.day);
  }
}
