/**
 * The offset applied once to the host's time when the guest's real-time clock
 * is seeded: a calendar step of years and months, then a plain duration.
 */
module RtcOffset {
  import opened Calendar

  const I64_MIN: int := -0x8000_0000_0000_0000
  const I64_MAX: int := 0x7FFF_FFFF_FFFF_FFFF

  type i64 = x: int | I64_MIN <= x <= I64_MAX

  const RTC_MIN_UNIX: i64 := 0
  const RTC_MAX_UNIX: i64 := 2_208_988_799
  const DAY: int := 86_400

  datatype Offset = Offset(years: i64, months: i64, days: i64, hours: i64, minutes: i64, seconds: i64)

  const ZERO := Offset(0, 0, 0, 0, 0, 0)

  function Clamp(x: int, lo: int, hi: int): (r: int)
    requires lo <= hi
    ensures lo <= r <= hi
  {
    if x < lo then lo else if x > hi then hi else x
  }

  /** The result of a saturating operation whose exact result is `x`. */
  function Saturated(x: int): i64
  {
    Clamp(x, I64_MIN, I64_MAX)
  }

  /** Months since January of year 0. */
  function MonthIndex(c: Date): int
  {
    c.y * 12 + (c.m - 1)
  }

  const LAST_MONTH: int := 10_000 * 12

  /** The date in month `index` that the day of `c` steps to: the same day, or the month's last. */
  function InMonth(c: Date, index: int): Date
  {
    var y, m := index / 12, index % 12 + 1;
    Date(y, m, if c.d <= DaysInMonth(y, m) then c.d else DaysInMonth(y, m))
  }

  function SteppedMonth(off: Offset, c: Date): int
  {
    Clamp(Saturated(Saturated(MonthIndex(c) + Saturated(off.years * 12)) + off.months), 0, LAST_MONTH)
  }

  /** The duration part, added field by field. */
  function Delayed(off: Offset, stepped: int): i64
  {
    Saturated(Saturated(Saturated(Saturated(stepped + Saturated(off.days * DAY))
                                  + Saturated(off.hours * 3_600))
                        + Saturated(off.minutes * 60))
              + off.seconds)
  }

  function Apply(off: Offset, unixSecs: i64): i64
  {
    var c := CivilFromDays(unixSecs / DAY);
    Delayed(off, DaysFromCivil(InMonth(c, SteppedMonth(off, c))) * DAY + unixSecs % DAY)
  }

  /** Clamped to what the clock chip holds; the flag says clamping changed it. */
  function ApplyClamped(off: Offset, unixSecs: i64): (i64, bool)
  {
    var t := Apply(off, unixSecs);
    var c := Clamp(t, RTC_MIN_UNIX, RTC_MAX_UNIX);
    (c, c != t)
  }

  // ---- The calendar step ---------------------------------------------------

  lemma InMonthIsValid(c: Date, index: int)
    requires ValidDate(c)
    ensures ValidDate(InMonth(c, index)) && MonthIndex(InMonth(c, index)) == index
  {
  }

  lemma SameMonthSameDate(c: Date)
    requires ValidDate(c)
    ensures InMonth(c, MonthIndex(c)) == c
  {
    assert MonthIndex(c) / 12 == c.y;
  }

  /** A date in years 0 to 10000 has a day number far inside the 64-bit range. */
  lemma DayNumberBounds(c: Date)
    requires ValidDate(c) && 0 <= c.y <= 10_000
    ensures -800_000 <= DaysFromCivil(c) <= 3_000_000
  {
    var era, yoe, mp, doy := ValidIsPlaced(c);
    PlacedDays(c, era, yoe, mp, doy);
    YearStartBounds(yoe);
    assert -1 <= era <= 25;
  }

  /** The offset's duration part, in seconds. */
  function Duration(off: Offset): int
  {
    off.days * DAY + off.hours * 3_600 + off.minutes * 60 + off.seconds
  }

  /** The calendar step alone: `t` moved to its stepped month, at the same time of day. */
  function Stepped(off: Offset, t: i64): int
  {
    var c := CivilFromDays(t / DAY);
    DaysFromCivil(InMonth(c, SteppedMonth(off, c))) * DAY + t % DAY
  }

  lemma SteppedIsInRange(off: Offset, t: i64)
    ensures -100_000_000_000 <= Stepped(off, t) <= 300_000_000_000
    ensures var c := CivilFromDays(t / DAY);
            CivilFromDays(Stepped(off, t) / DAY) == InMonth(c, SteppedMonth(off, c))
    ensures Stepped(off, t) % DAY == t % DAY
  {
    hide CivilFromDays, DaysFromCivil, InMonth, DaysInMonth;
    var c := CivilFromDays(t / DAY);
    DaysOfCivilOfDays(t / DAY);
    var k := SteppedMonth(off, c);
    var n := InMonth(c, k);
    InMonthIsValid(c, k);
    YearOfMonth(n);
    DayNumberBounds(n);
    CivilOfDaysOfCivil(n);
    DayAndTime(DaysFromCivil(n), t % DAY);
  }

  lemma YearOfMonth(c: Date)
    requires ValidDate(c) && 0 <= MonthIndex(c) <= LAST_MONTH
    ensures 0 <= c.y <= 10_000
  {
  }

  lemma DayAndTime(days: int, time: int)
    requires 0 <= time < DAY
    ensures (days * DAY + time) / DAY == days && (days * DAY + time) % DAY == time
  {
  }

  function Abs(x: int): nat
  {
    if x < 0 then 0 - x else x
  }

  /**
   * The offset's own fields bound it far inside 64 bits: 2^62 months, and for the
   * duration all but the 300,000,000,000 seconds a stepped time can take.
   */
  predicate Moderate(off: Offset)
  {
    && Abs(off.years) * 12 + Abs(off.months) <= I64_MAX / 2
    && Abs(off.days) * DAY + Abs(off.hours) * 3_600 + Abs(off.minutes) * 60 + Abs(off.seconds)
       <= I64_MAX - 300_000_000_000
  }

  predicate InI64(x: int)
  {
    I64_MIN <= x <= I64_MAX
  }

  /**
   * A moderate offset is, at every time, the calendar step of its years and
   * months, cut only to the years 0 to 10000, followed by the plain duration:
   * none of the seven saturating operations comes into play.
   */
  lemma OffsetIsStepThenDuration(off: Offset, t: i64)
    requires Moderate(off)
    ensures var c := CivilFromDays(t / DAY);
            var n := InMonth(c, Clamp(MonthIndex(c) + 12 * off.years + off.months, 0, LAST_MONTH));
            Apply(off, t) == DaysFromCivil(n) * DAY + t % DAY + Duration(off)
  {
    hide CivilFromDays, DaysFromCivil, InMonth, MonthIndex, SteppedMonth, Clamp, Moderate, Duration, Delayed;
    SteppedIsInRange(off, t);
    MonthIndexFits(t);
    MonthStepIsExact(off, CivilFromDays(t / DAY));
    DurationIsExact(off, Stepped(off, t));
  }

  lemma SaturatedIsExact(x: int)
    requires InI64(x)
    ensures Saturated(x) == x
  {
  }

  lemma AbsBounds(x: int)
    ensures 0 - Abs(x) <= x <= Abs(x)
  {
  }

  lemma MonthStepIsExact(off: Offset, c: Date)
    requires Moderate(off) && I64_MIN / 2 <= MonthIndex(c) <= I64_MAX / 2
    ensures SteppedMonth(off, c) == Clamp(MonthIndex(c) + 12 * off.years + off.months, 0, LAST_MONTH)
  {
    hide MonthIndex, Saturated, Clamp, Abs;
    AbsBounds(off.years);
    AbsBounds(off.months);
    var n := MonthIndex(c);
    SaturatedIsExact(off.years * 12);
    SaturatedIsExact(n + off.years * 12);
    SaturatedIsExact(n + off.years * 12 + off.months);
  }

  lemma ScaledAbsBounds(x: int, m: nat)
    ensures 0 - Abs(x) * m <= x * m <= Abs(x) * m
  {
  }

  lemma DurationIsExact(off: Offset, from: int)
    requires Moderate(off) && -100_000_000_000 <= from <= 300_000_000_000
    ensures Delayed(off, from) == from + Duration(off)
  {
    hide Saturated, Abs;
    ScaledAbsBounds(off.days, DAY);
    ScaledAbsBounds(off.hours, 3_600);
    ScaledAbsBounds(off.minutes, 60);
    AbsBounds(off.seconds);
    SumsAreExact(from, off.days * DAY, off.hours * 3_600, off.minutes * 60, off.seconds,
                 Abs(off.days) * DAY, Abs(off.hours) * 3_600, Abs(off.minutes) * 60, Abs(off.seconds));
    hide Moderate;
  }

  /** Four terms within bounds that leave room are added exactly. */
  lemma SumsAreExact(from: int, d: int, h: int, m: int, s: int, dMax: nat, hMax: nat, mMax: nat, sMax: nat)
    requires 0 - dMax <= d <= dMax && 0 - hMax <= h <= hMax && 0 - mMax <= m <= mMax && 0 - sMax <= s <= sMax
    requires dMax + hMax + mMax + sMax <= I64_MAX - 300_000_000_000
    requires -100_000_000_000 <= from <= 300_000_000_000
    ensures Saturated(Saturated(Saturated(Saturated(from + Saturated(d)) + Saturated(h)) + Saturated(m)) + s)
         == from + d + h + m + s
  {
    hide Saturated;
    SaturatedIsExact(d);
    SaturatedIsExact(h);
    SaturatedIsExact(m);
    SaturatedIsExact(from + d);
    SaturatedIsExact(from + d + h);
    SaturatedIsExact(from + d + h + m);
    SaturatedIsExact(from + d + h + m + s);
  }

  /** An offset of months only. */
  function Months(k: i64): Offset
  {
    Offset(0, k, 0, 0, 0, 0)
  }

  lemma MonthsApply(k: i64, t: i64)
    ensures Apply(Months(k), t) == Stepped(Months(k), t)
    ensures SteppedMonth(Months(k), CivilFromDays(t / DAY))
         == Clamp(MonthIndex(CivilFromDays(t / DAY)) + k, 0, LAST_MONTH)
  {
    SteppedIsInRange(Months(k), t);
    MonthIndexFits(t);
    hide CivilFromDays, DaysFromCivil, InMonth;
  }

  /** A 64-bit time has a month index that fits 64 bits with room to spare. */
  lemma MonthIndexFits(t: i64)
    ensures I64_MIN / 2 <= MonthIndex(CivilFromDays(t / DAY)) <= I64_MAX / 2
  {
    var c, era, yoe, mp, doy := DayIsPlaced(t / DAY);
    PlacedCivil(c, era, yoe, mp, doy);
    YearStartBounds(yoe);
    hide CivilFromDays;
    assert -1_000_000_000 <= era <= 1_000_000_000;
  }

  /** A step of months lands in its month at the same time of day, on the same day or the month's last. */
  lemma MonthsLandOnTheirMonth(k: i64, t: i64)
    ensures var c := CivilFromDays(t / DAY); var r := Apply(Months(k), t);
            && CivilFromDays(r / DAY) == InMonth(c, Clamp(MonthIndex(c) + k, 0, LAST_MONTH))
            && r % DAY == t % DAY
  {
    hide CivilFromDays, InMonth, Stepped;
    MonthsApply(k, t);
    SteppedIsInRange(Months(k), t);
  }

  /** `n` is the date months are stepped to from `c`: in month `index`, on the same day or the month's last. */
  predicate LandsIn(c: Date, n: Date, index: int)
  {
    && n.y * 12 + n.m - 1 == index && 1 <= n.m <= 12
    && (n.d == c.d || (n.d < c.d && n.d == DaysInMonth(n.y, n.m)))
  }

  /** Years 0 to 10000, counted in months. */
  function CutToYears(index: int): int
  {
    if index < 0 then 0 else if index > 120_000 then 120_000 else index
  }

  lemma InMonthLands(c: Date, index: int)
    requires ValidDate(c)
    ensures LandsIn(c, InMonth(c, index), index)
  {
    InMonthIsValid(c, index);
  }

  /**
   * Whatever its years, months and duration, a moderate offset less its
   * duration is a time of the same time of day on a date in the month so many
   * years and months on, cut to the years 0 to 10000: the same day, or that
   * month's last if it is shorter.
   */
  lemma OffsetLandsOnItsMonth(off: Offset, t: i64)
    requires Moderate(off)
    ensures var c := CivilFromDays(t / 86_400);
            var r := Apply(off, t) - (off.days * 86_400 + off.hours * 3_600 + off.minutes * 60 + off.seconds);
            LandsIn(c, CivilFromDays(r / 86_400), CutToYears(c.y * 12 + c.m - 1 + off.years * 12 + off.months))
            && r % 86_400 == t % 86_400
  {
    hide CivilFromDays, DaysFromCivil, InMonth, Moderate, LandsIn, Delayed, Apply;
    var c := CivilFromDays(t / DAY);
    DaysOfCivilOfDays(t / DAY);
    OffsetIsStepThenDuration(off, t);
    var k := Clamp(MonthIndex(c) + 12 * off.years + off.months, 0, LAST_MONTH);
    InMonthLands(c, k);
    InMonthIsValid(c, k);
    CivilOfDaysOfCivil(InMonth(c, k));
    DayAndTime(DaysFromCivil(InMonth(c, k)), t % DAY);
  }

  /** So does an offset of months alone, of any size. */
  lemma MonthsLandOnTheDay(k: i64, t: i64)
    ensures var c := CivilFromDays(t / 86_400); var r := Apply(Months(k), t);
            LandsIn(c, CivilFromDays(r / 86_400), CutToYears(c.y * 12 + c.m - 1 + k)) && r % 86_400 == t % 86_400
  {
    hide CivilFromDays, InMonth, LandsIn, Apply;
    var c := CivilFromDays(t / DAY);
    DaysOfCivilOfDays(t / DAY);
    MonthsLandOnTheirMonth(k, t);
    InMonthLands(c, Clamp(MonthIndex(c) + k, 0, LAST_MONTH));
  }

  /** Seconds alone are added to what no offset gives, stopping at the ends of 64 bits. */
  lemma SecondsStopAtTheEnds(n: i64, t: i64)
    ensures var from := Apply(ZERO, t); var r := Apply(Offset(0, 0, 0, 0, 0, n), t);
            r == if from + n > 9_223_372_036_854_775_807 then 9_223_372_036_854_775_807
                 else if from + n < -9_223_372_036_854_775_808 then -9_223_372_036_854_775_808
                 else from + n
  {
    hide CivilFromDays, DaysFromCivil, InMonth, MonthIndex;
    SteppedIsInRange(ZERO, t);
  }

  /**
   * No offset is the identity exactly for the times from January of year 0 to
   * the end of January of year 10000: outside, the month clamp moves them.
   */
  lemma ZeroOffsetIsIdentityExactly(t: i64)
    ensures Apply(ZERO, t) == t <==> 0 <= MonthIndex(CivilFromDays(t / DAY)) <= LAST_MONTH
  {
    hide CivilFromDays, DaysFromCivil, InMonth, Stepped, Apply;
    var c := CivilFromDays(t / DAY);
    assert ZERO == Months(0);
    MonthsApply(0, t);
    MonthsLandOnTheirMonth(0, t);
    DaysOfCivilOfDays(t / DAY);
    InMonthIsValid(c, Clamp(MonthIndex(c), 0, LAST_MONTH));
    if 0 <= MonthIndex(c) <= LAST_MONTH {
      SameMonthSameDate(c);
      SteppedBack(Months(0), t, c);
    }
  }

  /** A step that lands on the date `c` of day `t` itself is no step. */
  lemma SteppedBack(off: Offset, t: i64, c: Date)
    requires c == CivilFromDays(t / DAY) && InMonth(c, SteppedMonth(off, c)) == c
    ensures Stepped(off, t) == t
  {
    hide CivilFromDays, DaysFromCivil, InMonth, SteppedMonth;
    DaysOfCivilOfDays(t / DAY);
  }

  /**
   * Stepping months forward and back returns to the same instant exactly when
   * the target month is long enough to hold the day.
   */
  lemma MonthsUndoneExactly(k: i64, t: i64)
    requires InI64(0 - k)
    requires var n := MonthIndex(CivilFromDays(t / DAY)); 0 <= n <= LAST_MONTH && 0 <= n + k <= LAST_MONTH
    ensures var c := CivilFromDays(t / DAY);
            var n := MonthIndex(c) + k;
            Apply(Months(0 - k), Apply(Months(k), t)) == t <==> c.d <= DaysInMonth(n / 12, n % 12 + 1)
  {
    hide CivilFromDays, DaysFromCivil, Apply, DaysInMonth, MonthIndex;
    var c := CivilFromDays(t / DAY);
    var n := MonthIndex(c) + k;
    DaysOfCivilOfDays(t / DAY);
    var u := Apply(Months(k), t);
    MonthsLandOnTheirMonth(k, t);
    InMonthIsValid(c, n);
    var v := Apply(Months(0 - k), u);
    MonthsLandOnTheirMonth(0 - k, u);
    var there := InMonth(c, n);
    var back := InMonth(there, MonthIndex(c));
    assert CivilFromDays(v / DAY) == back && v % DAY == t % DAY;
    SameMonthSameDate(c);
    BackExactly(c, n);
    DaysOfCivilOfDays(v / DAY);
  }

  lemma BackExactly(c: Date, n: int)
    requires ValidDate(c)
    ensures InMonth(InMonth(c, n), MonthIndex(c)) == c <==> c.d <= DaysInMonth(n / 12, n % 12 + 1)
  {
    hide DaysInMonth;
    assert MonthIndex(c) / 12 == c.y && MonthIndex(c) % 12 == c.m - 1;
  }

  /** The clamped time is always one the clock holds, and is flagged exactly when it is not the asked one. */
  lemma ClampedFitsTheClock(off: Offset, t: i64)
    ensures RTC_MIN_UNIX <= ApplyClamped(off, t).0 <= RTC_MAX_UNIX
    ensures !ApplyClamped(off, t).1 <==> RTC_MIN_UNIX <= Apply(off, t) <= RTC_MAX_UNIX
    ensures !ApplyClamped(off, t).1 ==> ApplyClamped(off, t).0 == Apply(off, t)
    ensures Apply(off, t) < 0 ==> ApplyClamped(off, t) == (0, true)
    ensures Apply(off, t) > 2_208_988_799 ==> ApplyClamped(off, t) == (2_208_988_799, true)
    ensures CivilFromDays(RTC_MIN_UNIX / DAY) == Date(1970, 1, 1)
    ensures CivilFromDays(RTC_MAX_UNIX / DAY) == Date(2039, 12, 31) && RTC_MAX_UNIX % DAY == DAY - 1
  {
    hide CivilFromDays, Apply;
    EpochIsDayZero();
    assert DaysFromCivil(Date(2039, 12, 31)) == 25_566;
    CivilOfDaysOfCivil(Date(2039, 12, 31));
  }
}
