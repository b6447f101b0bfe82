/**
 * Proleptic Gregorian dates and day numbers, and the offset the guest's
 * real-time clock is seeded with.
 */
module Calendar {
  import opened Basics

  datatype Date = Date(y: int, m: int, d: int)

  predicate IsLeapYear(y: int)
  {
    (y % 4 == 0 && y % 100 != 0) || y % 400 == 0
  }

  function DaysInMonth(y: int, m: int): (n: int)
    ensures 28 <= n <= 31
  {
    if m == 2 then (if IsLeapYear(y) then 29 else 28)
    else if m == 4 || m == 6 || m == 9 || m == 11 then 30
    else 31
  }

  predicate ValidDate(c: Date)
  {
    1 <= c.m <= 12 && 1 <= c.d <= DaysInMonth(c.y, c.m)
  }

  /** The calendar's own rule for the day after a date. */
  function NextDate(c: Date): Date
  {
    if c.d < DaysInMonth(c.y, c.m) then Date(c.y, c.m, c.d + 1)
    else if c.m < 12 then Date(c.y, c.m + 1, 1)
    else Date(c.y + 1, 1, 1)
  }

  // ---- Conversions ---------------------------------------------------------

  /** Days of the 400-year era before its year `yoe`, years beginning in March. */
  function YearStart(yoe: int): int
  {
    yoe * 365 + yoe / 4 - yoe / 100
  }

  /** Days of the March-based year before its month `mp`. */
  function MonthStart(mp: int): int
  {
    (153 * mp + 2) / 5
  }

  function DaysFromCivil(c: Date): int
  {
    var y := if c.m <= 2 then c.y - 1 else c.y;
    var era := y / 400;
    var yoe := y - era * 400;
    var mp := (c.m + 9) % 12;
    var doy := MonthStart(mp) + c.d - 1;
    var doe := YearStart(yoe) + doy;
    era * 146_097 + doe - 719_468
  }

  function YearOfEra(doe: int): int
  {
    (doe - doe / 1460 + doe / 36_524 - doe / 146_096) / 365
  }

  function CivilFromDays(z: int): Date
  {
    var z := z + 719_468;
    var era := z / 146_097;
    var doe := z - era * 146_097;
    var yoe := YearOfEra(doe);
    var doy := doe - YearStart(yoe);
    var mp := (5 * doy + 2) / 153;
    var d := doy - MonthStart(mp) + 1;
    var m := if mp < 10 then mp + 3 else mp - 9;
    Date(if m <= 2 then yoe + era * 400 + 1 else yoe + era * 400, m, d)
  }

  // ---- The March-based year ------------------------------------------------

  /** Length of the March-based year `yoe` of an era: leap when the February closing it is. */
  function YearLength(yoe: int): int
  {
    if IsLeapYear(yoe + 1) then 366 else 365
  }

  lemma YearStartSteps(yoe: int)
    requires 0 <= yoe < 399
    ensures YearStart(yoe + 1) == YearStart(yoe) + YearLength(yoe)
  {
    assert (yoe + 1) / 4 == yoe / 4 + (if (yoe + 1) % 4 == 0 then 1 else 0);
    assert (yoe + 1) / 100 == yoe / 100 + (if (yoe + 1) % 100 == 0 then 1 else 0);
  }

  lemma YearStartBounds(yoe: int)
    requires 0 <= yoe < 400
    ensures 0 <= YearStart(yoe) && YearStart(yoe) + YearLength(yoe) <= 146_097
    ensures yoe == 399 ==> YearStart(yoe) + YearLength(yoe) == 146_097
  {
  }

  /** The division by 365 with its three corrections finds the year of the era. */
  lemma YearOfEraExact(doe: int, yoe: int)
    requires 0 <= yoe < 400 && YearStart(yoe) <= doe < YearStart(yoe) + YearLength(yoe)
    ensures YearOfEra(doe) == yoe
  {
    var c, q, r, k := yoe / 100, yoe % 100 / 4, yoe % 4, doe - YearStart(yoe);
    YearSplits(yoe, c, q, r);
    CenturyOfDay(doe, c, q, r, k);
    var carry := (24 * c + q + 365 * r + k) / 1460;
    assert doe / 1460 == 25 * c + q + carry by {
      assert doe == 1460 * (25 * c + q) + (24 * c + q + 365 * r + k);
    }
    assert 0 <= k - carry < 365;
    assert doe - doe / 1460 + doe / 36_524 - doe / 146_096 == 365 * yoe + (k - carry);
  }

  lemma YearSplits(yoe: int, c: int, q: int, r: int)
    requires 0 <= yoe < 400 && c == yoe / 100 && q == yoe % 100 / 4 && r == yoe % 4
    ensures yoe == 100 * c + 4 * q + r && 0 <= c < 4 && 0 <= q < 25 && 0 <= r < 4
    ensures YearStart(yoe) == 36_524 * c + 1461 * q + 365 * r
    ensures YearLength(yoe) == 366 <==> r == 3 && (q != 24 || c == 3)
  {
    assert yoe / 4 == 25 * c + q;
    assert (yoe + 1) % 4 == 0 <==> r == 3;
    assert (yoe + 1) % 100 == 0 <==> q == 24 && r == 3;
    assert (yoe + 1) % 400 == 0 <==> c == 3 && q == 24 && r == 3;
  }

  /** The two century corrections together count the whole centuries. */
  lemma CenturyOfDay(doe: int, c: int, q: int, r: int, k: int)
    requires 0 <= c < 4 && 0 <= q < 25 && 0 <= r < 4
    requires 0 <= k <= 365 && (k == 365 ==> r == 3 && (q != 24 || c == 3))
    requires doe == 36_524 * c + 1461 * q + 365 * r + k
    ensures doe / 36_524 - doe / 146_096 == c
  {
    var e := 1461 * q + 365 * r + k;
    assert 0 <= e <= 36_524;
    if e < 36_524 {
      assert doe / 36_524 == c;
      assert doe < 146_096;
    } else {
      assert c == 3 && doe == 146_096;
    }
  }

  /** Every day of the era lies in one year of it. */
  lemma {:induction false} YearExists(doe: int, n: int) returns (yoe: int)
    requires 0 <= n < 400 && 0 <= doe < YearStart(n) + YearLength(n)
    ensures 0 <= yoe < 400 && YearStart(yoe) <= doe < YearStart(yoe) + YearLength(yoe)
    decreases n
  {
    if YearStart(n) <= doe {
      yoe := n;
    } else {
      YearStartSteps(n - 1);
      yoe := YearExists(doe, n - 1);
    }
  }

  /** The month formula inverts the table of month starts. */
  lemma MonthExact(mp: int, doy: int)
    requires 0 <= mp < 12 && MonthStart(mp) <= doy < MonthStart(mp + 1)
    ensures (5 * doy + 2) / 153 == mp
  {
  }

  lemma MonthCovers(doy: int)
    requires 0 <= doy < 366
    ensures var mp := (5 * doy + 2) / 153;
            0 <= mp < 12 && MonthStart(mp) <= doy < MonthStart(mp + 1)
  {
  }

  /** Months of the March-based year have their calendar lengths; February is cut by the year. */
  lemma MonthLengths(y: int, m: int, mp: int)
    requires 1 <= m <= 12 && mp == (m + 9) % 12
    ensures m != 2 ==> MonthStart(mp + 1) - MonthStart(mp) == DaysInMonth(y, m)
    ensures m == 2 ==> mp == 11 && MonthStart(11) == 337
    ensures m != 2 ==> mp < 11 && MonthStart(mp + 1) <= 337
  {
  }

  lemma LeapByEra(y: int, era: int, yoe: int)
    requires y == era * 400 + yoe
    ensures IsLeapYear(y + 1) <==> IsLeapYear(yoe + 1)
  {
    LapResidue(yoe + 1, 100 * era, 4);
    LapResidue(yoe + 1, 4 * era, 100);
    LapResidue(yoe + 1, era, 400);
  }

  // ---- Round trips ---------------------------------------------------------

  /** `c` is day `doy` of month `mp` of March-based year `yoe` of `era`. */
  predicate Placed(c: Date, era: int, yoe: int, mp: int, doy: int)
  {
    && 0 <= yoe < 400 && 0 <= mp < 12 && 0 <= doy < YearLength(yoe)
    && c.m == (if mp < 10 then mp + 3 else mp - 9)
    && c.y == era * 400 + yoe + (if mp < 10 then 0 else 1)
    && MonthStart(mp) <= doy < MonthStart(mp + 1) && c.d == doy - MonthStart(mp) + 1
  }

  lemma PlacedIsValid(c: Date, era: int, yoe: int, mp: int, doy: int)
    requires Placed(c, era, yoe, mp, doy)
    ensures ValidDate(c)
  {
    MonthLengths(c.y, c.m, mp);
    LeapByEra(era * 400 + yoe, era, yoe);
  }

  lemma ValidIsPlaced(c: Date) returns (era: int, yoe: int, mp: int, doy: int)
    requires ValidDate(c)
    ensures Placed(c, era, yoe, mp, doy)
  {
    var y := if c.m <= 2 then c.y - 1 else c.y;
    era, yoe, mp := y / 400, y % 400, (c.m + 9) % 12;
    doy := MonthStart(mp) + c.d - 1;
    MonthLengths(c.y, c.m, mp);
    LeapByEra(era * 400 + yoe, era, yoe);
  }

  /** The day number of a placed date. */
  lemma PlacedDays(c: Date, era: int, yoe: int, mp: int, doy: int)
    requires Placed(c, era, yoe, mp, doy)
    ensures DaysFromCivil(c) == era * 146_097 + YearStart(yoe) + doy - 719_468
  {
    var y := if c.m <= 2 then c.y - 1 else c.y;
    assert y == 400 * era + yoe;
    assert y / 400 == era;
    assert (c.m + 9) % 12 == mp;
  }

  /** The date of a placed day number. */
  lemma PlacedCivil(c: Date, era: int, yoe: int, mp: int, doy: int)
    requires Placed(c, era, yoe, mp, doy)
    ensures CivilFromDays(era * 146_097 + YearStart(yoe) + doy - 719_468) == c
  {
    var doe := YearStart(yoe) + doy;
    YearStartBounds(yoe);
    YearOfEraExact(doe, yoe);
    MonthExact(mp, doy);
    EraOfDay(era, doe);
    hide YearStart, YearOfEra, YearLength;
  }

  lemma EraOfDay(era: int, doe: int)
    requires 0 <= doe < 146_097
    ensures (era * 146_097 + doe) / 146_097 == era
  {
  }

  /** Every day number has a placed date. */
  lemma DayIsPlaced(z: int) returns (c: Date, era: int, yoe: int, mp: int, doy: int)
    ensures Placed(c, era, yoe, mp, doy)
    ensures z == era * 146_097 + YearStart(yoe) + doy - 719_468
  {
    var doe := (z + 719_468) % 146_097;
    era := (z + 719_468) / 146_097;
    YearStartBounds(399);
    yoe := YearExists(doe, 399);
    doy := doe - YearStart(yoe);
    mp := (5 * doy + 2) / 153;
    MonthCovers(doy);
    c := Date(era * 400 + yoe + (if mp < 10 then 0 else 1), if mp < 10 then mp + 3 else mp - 9, doy - MonthStart(mp) + 1);
  }

  /** Every valid date is recovered from its day number. */
  lemma CivilOfDaysOfCivil(c: Date)
    requires ValidDate(c)
    ensures CivilFromDays(DaysFromCivil(c)) == c
  {
    hide CivilFromDays, DaysFromCivil, YearStart, Placed;
    var era, yoe, mp, doy := ValidIsPlaced(c);
    PlacedDays(c, era, yoe, mp, doy);
    PlacedCivil(c, era, yoe, mp, doy);
  }

  /** Every day number falls on a valid date, and is that date's day number. */
  lemma DaysOfCivilOfDays(z: int)
    ensures ValidDate(CivilFromDays(z))
    ensures DaysFromCivil(CivilFromDays(z)) == z
  {
    hide CivilFromDays, DaysFromCivil, YearStart, Placed;
    var c, era, yoe, mp, doy := DayIsPlaced(z);
    PlacedDays(c, era, yoe, mp, doy);
    PlacedCivil(c, era, yoe, mp, doy);
    PlacedIsValid(c, era, yoe, mp, doy);
  }

  // ---- Consecutive days ----------------------------------------------------

  /** The day after a valid date has the next day number. */
  lemma NextDateIsNextDay(c: Date)
    requires ValidDate(c)
    ensures ValidDate(NextDate(c)) && DaysFromCivil(NextDate(c)) == DaysFromCivil(c) + 1
  {
    var era, yoe, mp, doy := ValidIsPlaced(c);
    var era', yoe', mp', doy' := NextIsPlaced(c, era, yoe, mp, doy);
    hide Placed, NextDate, DaysFromCivil, YearStart;
    PlacedDays(c, era, yoe, mp, doy);
    PlacedDays(NextDate(c), era', yoe', mp', doy');
    PlacedIsValid(NextDate(c), era', yoe', mp', doy');
  }

  lemma NextIsPlaced(c: Date, era: int, yoe: int, mp: int, doy: int)
    returns (era': int, yoe': int, mp': int, doy': int)
    requires ValidDate(c) && Placed(c, era, yoe, mp, doy)
    ensures Placed(NextDate(c), era', yoe', mp', doy')
    ensures era' * 146_097 + YearStart(yoe') + doy' == era * 146_097 + YearStart(yoe) + doy + 1
  {
    if doy + 1 == YearLength(yoe) {
      era', yoe', mp', doy' := NextIsNewYear(c, era, yoe, mp, doy);
    } else {
      era', yoe', doy' := era, yoe, doy + 1;
      mp' := NextIsSameYear(c, era, yoe, mp, doy);
    }
  }

  /** The day after the last of February is the first of March. */
  lemma NextIsNewYear(c: Date, era: int, yoe: int, mp: int, doy: int)
    returns (era': int, yoe': int, mp': int, doy': int)
    requires ValidDate(c) && Placed(c, era, yoe, mp, doy) && doy + 1 == YearLength(yoe)
    ensures Placed(NextDate(c), era', yoe', mp', doy')
    ensures era' * 146_097 + YearStart(yoe') + doy' == era * 146_097 + YearStart(yoe) + doy + 1
  {
    hide Placed, YearStart, YearLength, NextDate, ValidDate;
    PlacedBounds(c, era, yoe, mp, doy);
    LastOfFebruary(c, era, yoe, mp, doy);
    mp', doy' := 0, 0;
    if yoe < 399 {
      YearStartSteps(yoe);
      era', yoe' := era, yoe + 1;
    } else {
      YearStartBounds(399);
      EraStart();
      era', yoe' := era + 1, 0;
    }
    FirstOfMarch(era', yoe');
  }

  lemma PlacedBounds(c: Date, era: int, yoe: int, mp: int, doy: int)
    requires Placed(c, era, yoe, mp, doy)
    ensures 0 <= yoe < 400
  {
  }

  lemma EraStart()
    ensures YearStart(0) == 0
  {
  }

  lemma FirstOfMarch(era: int, yoe: int)
    requires 0 <= yoe < 400
    ensures Placed(Date(era * 400 + yoe, 3, 1), era, yoe, 0, 0)
  {
    hide YearStart, IsLeapYear;
  }

  lemma LastOfFebruary(c: Date, era: int, yoe: int, mp: int, doy: int)
    requires ValidDate(c) && Placed(c, era, yoe, mp, doy) && doy + 1 == YearLength(yoe)
    ensures NextDate(c) == Date(era * 400 + yoe + 1, 3, 1)
  {
    LeapByEra(era * 400 + yoe, era, yoe);
    MonthLengths(c.y, c.m, mp);
    hide IsLeapYear;
    assert mp == 11;
  }

  lemma NextIsSameYear(c: Date, era: int, yoe: int, mp: int, doy: int) returns (mp': int)
    requires ValidDate(c) && Placed(c, era, yoe, mp, doy) && doy + 1 < YearLength(yoe)
    ensures Placed(NextDate(c), era, yoe, mp', doy + 1)
  {
    LeapByEra(era * 400 + yoe, era, yoe);
    MonthLengths(c.y, c.m, mp);
    hide YearStart, IsLeapYear;
    mp' := if c.d < DaysInMonth(c.y, c.m) then mp else mp + 1;
  }

  lemma EpochIsDayZero()
    ensures CivilFromDays(0) == Date(1970, 1, 1)
  {
    hide CivilFromDays;
    assert DaysFromCivil(Date(1970, 1, 1)) == 0;
    CivilOfDaysOfCivil(Date(1970, 1, 1));
  }

  /** Consecutive day numbers are consecutive calendar dates, and day 0 is 1970-01-01. */
  lemma DaysFollowTheCalendar(z: int)
    ensures CivilFromDays(z + 1) == NextDate(CivilFromDays(z))
    ensures CivilFromDays(0) == Date(1970, 1, 1)
  {
    hide CivilFromDays, DaysFromCivil, NextDate;
    DaysOfCivilOfDays(z);
    var c := CivilFromDays(z);
    NextDateIsNextDay(c);
    CivilOfDaysOfCivil(NextDate(c));
    EpochIsDayZero();
  }
}
