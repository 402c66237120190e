/**
 * Civil dates and day numbers: the time-zone compiler's pair of conversions (floor division), the
 * cookie parser's one (truncating division), and the calendar they must agree with.
 */
module Calendar {
  import opened Numerals
  import opened Decimals

  datatype Date = Date(y: int, m: int, d: int)

  // ----- the calendar

  predicate IsLeap(y: int) { y % 4 == 0 && (y % 100 != 0 || y % 400 == 0) }

  function YearLen(y: int): int { if IsLeap(y) then 366 else 365 }

  function MonthLen(y: int, m: int): int {
    if m == 2 then (if IsLeap(y) then 29 else 28)
    else if m == 4 || m == 6 || m == 9 || m == 11 then 30 else 31
  }

  predicate ValidDate(t: Date) {
    1 <= t.m <= 12 && 1 <= t.d <= MonthLen(t.y, t.m)
  }

  /** Day number of January 1st, counting year lengths from 1970. */
  ghost function YearStart(y: int): int
    decreases if y >= 1970 then y - 1970 else 1970 - y
  {
    if y == 1970 then 0
    else if y > 1970 then YearStart(y - 1) + YearLen(y - 1)
    else YearStart(y + 1) - YearLen(y)
  }

  /** Days of the year before month `m`. */
  ghost function MonthStart(y: int, m: nat): int {
    if m <= 1 then 0 else MonthStart(y, m - 1) + MonthLen(y, m - 1)
  }

  /** The day number of a date: days counted one by one from January 1st, 1970. */
  ghost function Ordinal(t: Date): int
    requires t.m >= 0
  {
    YearStart(t.y) + MonthStart(t.y, t.m) + t.d - 1
  }

  function NextDay(t: Date): Date {
    if t.d < MonthLen(t.y, t.m) then Date(t.y, t.m, t.d + 1)
    else if t.m < 12 then Date(t.y, t.m + 1, 1)
    else Date(t.y + 1, 1, 1)
  }

  lemma YearAdds(y: int)
    ensures YearStart(y + 1) == YearStart(y) + YearLen(y)
  {}

  lemma MonthAdds(y: int, m: nat)
    requires m >= 1
    ensures MonthStart(y, m + 1) == MonthStart(y, m) + MonthLen(y, m)
  {}

  /** Days before each month. */
  lemma MonthTable(y: int)
    ensures var l := if IsLeap(y) then 1 else 0;
      && MonthStart(y, 1) == 0 && MonthStart(y, 2) == 31 && MonthStart(y, 3) == 59 + l && MonthStart(y, 4) == 90 + l
      && MonthStart(y, 5) == 120 + l && MonthStart(y, 6) == 151 + l && MonthStart(y, 7) == 181 + l
        && MonthStart(y, 8) == 212 + l
      && MonthStart(y, 9) == 243 + l && MonthStart(y, 10) == 273 + l && MonthStart(y, 11) == 304 + l
        && MonthStart(y, 12) == 334 + l
      && MonthStart(y, 13) == YearLen(y)
  {
    MonthAdds(y, 1);
    MonthAdds(y, 2);
    MonthAdds(y, 3);
    MonthAdds(y, 4);
    MonthAdds(y, 5);
    MonthAdds(y, 6);
    MonthAdds(y, 7);
    MonthAdds(y, 8);
    MonthAdds(y, 9);
    MonthAdds(y, 10);
    MonthAdds(y, 11);
    MonthAdds(y, 12);
    assert MonthStart(y, 1) == 0;
    hide MonthStart;
  }

  /** The calendar's own successor is the next day number. */
  lemma NextDayIsNext(t: Date)
    requires ValidDate(t)
    ensures ValidDate(NextDay(t)) && Ordinal(NextDay(t)) == Ordinal(t) + 1
  {
    if t.d == MonthLen(t.y, t.m) {
      if t.m == 12 {
        MonthTable(t.y);
        YearAdds(t.y);
      } else {
        assert MonthStart(t.y, t.m + 1) == MonthStart(t.y, t.m) + MonthLen(t.y, t.m);
      }
    }
  }

  predicate Before(t: Date, u: Date) {
    t.y < u.y || (t.y == u.y && (t.m < u.m || (t.m == u.m && t.d < u.d)))
  }

  lemma {:induction false} MonthMono(y: int, m: nat, n: nat)
    requires 1 <= m <= n <= 13
    ensures MonthStart(y, m) <= MonthStart(y, n) && (m < n ==> MonthStart(y, m) + MonthLen(y, m) <= MonthStart(y, n))
  {
    if m < n {
      if m < n - 1 {
        MonthMono(y, m, n - 1);
      }
      assert MonthStart(y, n) == MonthStart(y, n - 1) + MonthLen(y, n - 1);
    }
  }

  lemma {:induction false} YearMono(y: int, z: int)
    requires y < z
    ensures YearStart(y) + YearLen(y) <= YearStart(z)
    decreases z - y
  {
    YearAdds(y);
    if y + 1 < z {
      YearMono(y + 1, z);
    }
  }

  lemma WithinYear(t: Date)
    requires ValidDate(t)
    ensures YearStart(t.y) <= Ordinal(t) < YearStart(t.y) + YearLen(t.y)
  {
    MonthTable(t.y);
    MonthMono(t.y, 1, t.m);
    MonthMono(t.y, t.m, 13);
  }

  /** Later dates have greater day numbers. */
  lemma OrdinalMono(t: Date, u: Date)
    requires ValidDate(t) && ValidDate(u) && Before(t, u)
    ensures Ordinal(t) < Ordinal(u)
  {
    WithinYear(t);
    WithinYear(u);
    if t.y < u.y {
      YearMono(t.y, u.y);
    } else if t.m < u.m {
      MonthMono(t.y, t.m, u.m);
    }
  }

  lemma OrdinalInjective(t: Date, u: Date)
    requires ValidDate(t) && ValidDate(u) && Ordinal(t) == Ordinal(u)
    ensures t == u
  {
    if Before(t, u) {
      OrdinalMono(t, u);
    } else if Before(u, t) {
      OrdinalMono(u, t);
    }
  }

  // ----- the conversions

  function Shifted(y: int, m: int): int { if m <= 2 then y - 1 else y }

  function DayOfYear(m: int, d: int): int {
    (153 * (m + (if m > 2 then -3 else 9)) + 2) / 5 + d - 1
  }

  /** Days of the 400-year cycle before the shifted year `yoe` of it. */
  function CycleDays(yoe: int): int { yoe * 365 + yoe / 4 - yoe / 100 }

  /** The time-zone compiler's `days_from_civil`; `/` floors, as in Python. */
  function DaysFromCivil(y: int, m: int, d: int): int {
    var sy := Shifted(y, m);
    var era := (if sy >= 0 then sy else sy - 399) / 400;
    var yoe := sy - era * 400;
    era * 146097 + CycleDays(yoe) + DayOfYear(m, d) - 719468
  }

  /** The cookie parser's `days_from_civil`; division truncates. */
  function DaysTruncating(y: int, m: int, d: int): int {
    var sy := Shifted(y, m);
    var era := TruncDiv(if sy >= 0 then sy else sy - 399, 400);
    var yoe := sy - era * 400;
    era * 146097 + CycleDays(yoe) + ((153 * ((m + 9) % 12) + 2) / 5 + d - 1) - 719468
  }

  function YearOfCycle(doe: int): int {
    (doe - doe / 1460 + doe / 36524 - doe / 146096) / 365
  }

  /** The time-zone compiler's `civil_from_days`. */
  function CivilFromDays(days: int): Date {
    var z := days + 719468;
    var era := (if z >= 0 then z else z - 146096) / 146097;
    var doe := z - era * 146097;
    var yoe := YearOfCycle(doe);
    var y := yoe + era * 400;
    var doy := doe - CycleDays(yoe);
    var mp := (5 * doy + 2) / 153;
    var d := doy - (153 * mp + 2) / 5 + 1;
    var m := mp + (if mp < 10 then 3 else -9);
    Date(if m <= 2 then y + 1 else y, m, d)
  }

  // ----- they count the calendar's days

  /** Days before the shifted year `y`, which starts in March. */
  function Cumulative(y: int): int { 365 * y + y / 4 - y / 100 + y / 400 }

  lemma DivPlus(k: int, x: int, d: int)
    requires d > 0
    ensures (k * d + x) / d == k + x / d && (k * d + x) % d == x % d
  {
    DivModFact(x, d);
    assert (k + x / d) * d == k * d + x / d * d;
    DivModUnique(k * d + x, d, k + x / d, x % d);
  }

  lemma CycleIsCumulative(y: int, era: int, yoe: int)
    requires y == era * 400 + yoe && 0 <= yoe < 400
    ensures era * 146097 + CycleDays(yoe) == Cumulative(y)
  {
    DivPlus(100 * era, yoe, 4);
    DivPlus(4 * era, yoe, 100);
    DivModUnique(y, 400, era, yoe);
  }

  lemma DivNext(y: int, d: int)
    requires d > 1
    ensures (y + 1) / d == y / d + if (y + 1) % d == 0 then 1 else 0
  {
    DivModFact(y, d);
    var q, r := y / d, y % d;
    if r == d - 1 {
      DivModUnique(y + 1, d, q + 1, 0);
    } else {
      DivModUnique(y + 1, d, q, r + 1);
    }
  }

  lemma Divides(y: int, k: int, d: int)
    requires d > 0 && k > 0 && y % (k * d) == 0
    ensures y % d == 0
  {
    DivModFact(y, k * d);
    var q := y / (k * d);
    assert q * (k * d) == (q * k) * d;
    DivModUnique(y, d, q * k, 0);
  }

  lemma CumulativeStep(y: int)
    ensures Cumulative(y + 1) == Cumulative(y) + YearLen(y + 1)
  {
    DivNext(y, 4);
    DivNext(y, 100);
    DivNext(y, 400);
    if (y + 1) % 400 == 0 {
      Divides(y + 1, 4, 100);
    }
    if (y + 1) % 100 == 0 {
      Divides(y + 1, 25, 4);
    }
  }

  lemma {:induction false} YearStartIs(y: int)
    ensures YearStart(y) == Cumulative(y - 1) + 306 - 719468
    decreases if y >= 1970 then y - 1970 else 1970 - y
  {
    if y > 1970 {
      YearStartIs(y - 1);
      CumulativeStep(y - 2);
    } else if y < 1970 {
      YearStartIs(y + 1);
      CumulativeStep(y - 1);
    }
  }

  lemma MonthStartIs(y: int, m: int)
    requires 1 <= m <= 12
    ensures MonthStart(y, m) == DayOfYear(m, 1) + if m <= 2 then -306 else 59 + if IsLeap(y) then 1 else 0
  {
    MonthTable(y);
    hide MonthStart;
  }

  lemma OrdinalIs(y: int, m: int, d: int)
    requires 1 <= m <= 12
    ensures Ordinal(Date(y, m, d)) == Cumulative(Shifted(y, m)) + DayOfYear(m, d) - 719468
  {
    YearStartIs(y);
    MonthStartIs(y, m);
    CumulativeStep(y - 1);
  }

  /** The truncating version counts the calendar's days for every year, negative ones included. */
  lemma TruncatingIsOrdinal(y: int, m: int, d: int)
    requires 1 <= m <= 12
    ensures DaysTruncating(y, m, d) == Ordinal(Date(y, m, d))
  {
    var sy := Shifted(y, m);
    OrdinalIs(y, m, d);
    CycleIsCumulative(sy, sy / 400, sy % 400);
    TruncEra(sy);
    DivModFact(sy, 400);
    MonthFromMarch(m);
    hide Ordinal, Cumulative, CycleDays, TruncDiv;
  }

  lemma MonthFromMarch(m: int)
    requires 1 <= m <= 12
    ensures (m + 9) % 12 == m + if m > 2 then -3 else 9
  {}

  lemma TruncEra(sy: int)
    ensures TruncDiv(if sy >= 0 then sy else sy - 399, 400) == sy / 400
  {
    if sy < 0 {
      DivModFact(sy, 400);
      DivModUnique(399 - sy, 400, -(sy / 400), 399 - sy % 400);
    }
  }

  /**
   * The flooring version counts the calendar's days exactly for the shifted years that are not
   * negative or end a 400-year cycle; for every other year it is one day short.
   */
  lemma FlooringIsOrdinal(y: int, m: int, d: int)
    requires 1 <= m <= 12
    ensures var sy := Shifted(y, m);
      DaysFromCivil(y, m, d) == Ordinal(Date(y, m, d)) - (if sy >= 0 || sy % 400 == 399 then 0 else 1)
  {
    var sy := Shifted(y, m);
    OrdinalIs(y, m, d);
    DivModFact(sy, 400);
    CycleIsCumulative(sy, sy / 400, sy % 400);
    FlooringEra(sy);
    LaterCycle(sy % 400);
    hide Ordinal, Cumulative, CycleDays, DayOfYear;
  }

  lemma FlooringEra(sy: int)
    ensures (if sy >= 0 then sy else sy - 399) / 400 == sy / 400 - if sy >= 0 || sy % 400 == 399 then 0 else 1
  {
    DivModFact(sy, 400);
    if sy < 0 {
      if sy % 400 == 399 {
        DivModUnique(sy - 399, 400, sy / 400, 0);
      } else {
        DivModUnique(sy - 399, 400, sy / 400 - 1, sy % 400 + 1);
      }
    }
  }

  lemma FlooringExactIff(y: int, m: int, d: int)
    requires 1 <= m <= 12
    ensures DaysFromCivil(y, m, d) == Ordinal(Date(y, m, d)) <==> Shifted(y, m) >= 0 || Shifted(y, m) % 400 == 399
  {
    FlooringIsOrdinal(y, m, d);
  }

  /** The truncating version steps by one from each day to the next, in every year. */
  lemma TruncatingSteps(t: Date)
    requires ValidDate(t)
    ensures var n := NextDay(t); ValidDate(n) && DaysTruncating(n.y, n.m, n.d) == DaysTruncating(t.y, t.m, t.d) + 1
  {
    NextDayIsNext(t);
    TruncatingIsOrdinal(t.y, t.m, t.d);
    TruncatingIsOrdinal(NextDay(t).y, NextDay(t).m, NextDay(t).d);
  }

  /** The two versions agree exactly where the flooring one is exact. */
  lemma VersionsAgreeIff(y: int, m: int, d: int)
    requires 1 <= m <= 12
    ensures DaysFromCivil(y, m, d) == DaysTruncating(y, m, d) <==> Shifted(y, m) >= 0 || Shifted(y, m) % 400 == 399
  {
    hide *;
    FlooringExactIff(y, m, d);
    TruncatingIsOrdinal(y, m, d);
  }

  /** From March 1st of the year 0 on, later dates have greater day numbers, one more for the next day. */
  lemma FlooringOrders(t: Date, u: Date)
    requires ValidDate(t) && ValidDate(u) && Shifted(t.y, t.m) >= 0 && Shifted(u.y, u.m) >= 0
    ensures Before(t, u) <==> DaysFromCivil(t.y, t.m, t.d) < DaysFromCivil(u.y, u.m, u.d)
    ensures u == NextDay(t) ==> DaysFromCivil(u.y, u.m, u.d) == DaysFromCivil(t.y, t.m, t.d) + 1
  {
    hide DaysFromCivil, Ordinal;
    FlooringIsOrdinal(t.y, t.m, t.d);
    FlooringIsOrdinal(u.y, u.m, u.d);
    NextDayIsNext(t);
    if Before(t, u) {
      OrdinalMono(t, u);
    } else if t != u {
      OrdinalMono(u, t);
    }
  }

  /** June 1st of the year -2 is one day off. */
  lemma FlooringCounterexample()
    ensures DaysFromCivil(-2, 6, 1) == Ordinal(Date(-2, 6, 1)) - 1
  {
    FlooringIsOrdinal(-2, 6, 1);
  }

  // ----- and back

  /** A day of the cycle by century, four-year block, year and day. */
  lemma CycleParts(doe: int) returns (c: int, q: int, s: int, r: int)
    requires 0 <= doe < 146097
    ensures 0 <= c <= 3 && 0 <= q <= 24 && 0 <= s <= 3 && 0 <= r <= 365
    ensures doe == 36524 * c + 1461 * q + 365 * s + r
    ensures r == 365 ==> s == 3 && (q < 24 || c == 3)
  {
    c := if doe / 36524 < 3 then doe / 36524 else 3;
    var n := doe - 36524 * c;
    q := n / 1461;
    var t := n - 1461 * q;
    s := if t / 365 < 3 then t / 365 else 3;
    r := t - 365 * s;
  }

  lemma PartsYear(c: int, q: int, s: int)
    requires 0 <= c <= 3 && 0 <= q <= 24 && 0 <= s <= 3
    ensures var a := 100 * c + 4 * q + s;
      0 <= a < 400 && a / 4 == 25 * c + q && a / 100 == c && CycleDays(a) == 36524 * c + 1461 * q + 365 * s
  {}

  /** The year of a cycle day: it starts no later and the next one starts after. */
  lemma YearOfCycleIs(doe: int)
    requires 0 <= doe < 146097
    ensures var a := YearOfCycle(doe);
      0 <= a < 400 && 0 <= doe - CycleDays(a) < 365 + if IsLeap(a + 1) then 1 else 0
  {
    var c, q, s, r := CycleParts(doe);
    PartsYear(c, q, s);
    var a := 100 * c + 4 * q + s;
    EarlyYear(doe, c, q, s, r);
    YearFits(c, q, s, r);
    hide YearOfCycle, IsLeap, CycleDays;
  }

  lemma EarlyYear(doe: int, c: int, q: int, s: int, r: int)
    requires 0 <= doe < 146097 && 0 <= c <= 3 && 0 <= q <= 24 && 0 <= s <= 3 && 0 <= r <= 365
    requires doe == 36524 * c + 1461 * q + 365 * s + r && (r == 365 ==> s == 3 && (q < 24 || c == 3))
    ensures YearOfCycle(doe) == 100 * c + 4 * q + s
  {
    var over := if 24 * c + q + 365 * s + r >= 1460 then 1 else 0;
    DivModUnique(doe, 1460, 25 * c + q + over, 24 * c + q + 365 * s + r - 1460 * over);
    CenturyOf(doe, c, doe - 36524 * c);
    DivModUnique(doe - doe / 1460 + c, 365, 100 * c + 4 * q + s, r - over);
  }

  lemma CenturyOf(doe: int, c: int, n: int)
    requires doe == 36524 * c + n && 0 <= c <= 3 && 0 <= n <= 36524 && (n == 36524 ==> c == 3)
    ensures doe / 36524 - doe / 146096 == c
  {
    if n == 36524 {
      DivModUnique(doe, 36524, 4, 0);
      DivModUnique(doe, 146096, 1, 0);
    } else {
      DivModUnique(doe, 36524, c, n);
      DivModUnique(doe, 146096, 0, doe);
    }
  }

  /** Only years that end in a leap day have 366 days. */
  lemma YearFits(c: int, q: int, s: int, r: int)
    requires 0 <= c <= 3 && 0 <= q <= 24 && 0 <= s <= 3 && 0 <= r <= 365 && (r == 365 ==> s == 3 && (q < 24 || c == 3))
    ensures r < 365 + if IsLeap(100 * c + 4 * q + s + 1) then 1 else 0
  {}

  lemma MonthOfDay(doy: int)
    requires 0 <= doy <= 365
    ensures var mp := (5 * doy + 2) / 153;
      var m := mp + (if mp < 10 then 3 else -9);
      var d := doy - (153 * mp + 2) / 5 + 1;
      && 0 <= mp <= 11 && 1 <= m <= 12 && mp == m + (if m > 2 then -3 else 9) && DayOfYear(m, d) == doy
      && 1 <= d <= (if m == 2 then 29 else MonthLen(0, m)) && (m == 2 && d == 29 <==> doy == 365)
  {}

  /** From March 1st of the year 0 on, the date of a day is valid and its day number is that day. */
  lemma CivilOfDays(days: int)
    requires days + 719468 >= 0 || (days + 719468) % 146097 == 146096
    ensures var t := CivilFromDays(days); ValidDate(t) && Ordinal(t) == days
  {
    hide *;
    var z := days + 719468;
    var era, doe := z / 146097, z % 146097;
    DivModFact(z, 146097);
    EraOf(z);
    CivilIs(days, era);
    YearOfCycleIs(doe);
    var yoe := YearOfCycle(doe);
    var sy, doy := yoe + era * 400, doe - CycleDays(yoe);
    LeapInCycle(yoe + 1, era);
    CycleIsCumulative(sy, era, yoe);
    DateOfYearDay(sy, doy);
    var t := YearDay(sy, doy);
    ValidMonth(t);
    OrdinalIs(t.y, t.m, t.d);
  }

  lemma ValidMonth(t: Date)
    requires ValidDate(t)
    ensures 1 <= t.m <= 12 && t == Date(t.y, t.m, t.d)
  {}

  /** `civil_from_days`, once the cycle is known. */
  lemma CivilIs(days: int, era: int)
    requires var z := days + 719468; era == (if z >= 0 then z else z - 146096) / 146097
    ensures var doe := days + 719468 - era * 146097;
      var yoe := YearOfCycle(doe);
      CivilFromDays(days) == YearDay(yoe + era * 400, doe - CycleDays(yoe))
  {
    hide YearOfCycle, CycleDays;
  }

  lemma EraOf(z: int)
    requires z >= 0 || z % 146097 == 146096
    ensures (if z >= 0 then z else z - 146096) / 146097 == z / 146097 && z - z / 146097 * 146097 == z % 146097
  {
    DivModFact(z, 146097);
    if z < 0 {
      DivModUnique(z - 146096, 146097, z / 146097, 0);
    }
  }

  /** The date of day `doy` of the shifted year `sy`, as the last lines of `civil_from_days` compute it. */
  function YearDay(sy: int, doy: int): Date {
    var mp := (5 * doy + 2) / 153;
    var d := doy - (153 * mp + 2) / 5 + 1;
    var m := mp + (if mp < 10 then 3 else -9);
    Date(if m <= 2 then sy + 1 else sy, m, d)
  }

  lemma DateOfYearDay(sy: int, doy: int)
    requires 0 <= doy < 365 + if IsLeap(sy + 1) then 1 else 0
    ensures var t := YearDay(sy, doy);
      ValidDate(t) && Shifted(t.y, t.m) == sy && DayOfYear(t.m, t.d) == doy
  {
    MonthOfDay(doy);
    hide IsLeap, DayOfYear;
  }

  lemma LeapInCycle(y: int, era: int)
    ensures IsLeap(y + era * 400) == IsLeap(y)
  {
    DivPlus(100 * era, y, 4);
    DivPlus(4 * era, y, 100);
    DivPlus(era, y, 400);
  }

  /** The year the formula picks for a day of the cycle before: the one in which the next day is not the first. */
  lemma EarlierCycle(doe: int)
    requires 0 <= doe < 146096
    ensures var a := YearOfCycle(doe + 146097) - 400;
      0 <= a < 400 && CycleDays(a) < doe + 1 <= CycleDays(a + 1) <= CycleDays(a) + 366
  {
    var x := doe + 1;
    var c, q, s, r := CycleParts(x);
    PartsYear(c, q, s);
    var a := 100 * c + 4 * q + s;
    LateYear(x, c, q, s, r);
    hide *;
    if r == 0 {
      YearGrows(a - 1);
    } else {
      YearGrows(a);
      YearHolds(c, q, s, r);
    }
  }

  lemma LateYear(x: int, c: int, q: int, s: int, r: int)
    requires 0 < x < 146097 && 0 <= c <= 3 && 0 <= q <= 24 && 0 <= s <= 3 && 0 <= r <= 365
    requires x == 36524 * c + 1461 * q + 365 * s + r && (r == 365 ==> s == 3 && (q < 24 || c == 3))
    ensures YearOfCycle(x + 146096) == 400 + 100 * c + 4 * q + s - if r == 0 then 1 else 0
  {
    var a := 100 * c + 4 * q + s;
    var over := if 24 * c + q + 365 * s + r + 96 >= 1460 then 1 else 0;
    LateSum(x, c, q, s, r, over);
    var f := 365 * (400 + a) + r - 1 - over;
    assert YearOfCycle(x + 146096) == f / 365;
    hide YearOfCycle;
    if r == 0 {
      DivModUnique(f, 365, 400 + a - 1, 364);
    } else {
      DivModUnique(f, 365, 400 + a, r - 1 - over);
    }
  }

  /** A year of the cycle that is not its last is as long as its calendar year; the last one is a day longer. */
  lemma YearHolds(c: int, q: int, s: int, r: int)
    requires 0 <= c <= 3 && 0 <= q <= 24 && 0 <= s <= 3 && 0 < r <= 365 && (r == 365 ==> s == 3 && (q < 24 || c == 3))
    requires 36524 * c + 1461 * q + 365 * s + r < 146097
    ensures var a := 100 * c + 4 * q + s; CycleDays(a) + r <= CycleDays(a + 1)
  {}

  lemma YearGrows(a: int)
    requires 0 <= a < 400
    ensures CycleDays(a) + 365 <= CycleDays(a + 1) <= CycleDays(a) + 366
  {
    DivNext(a, 4);
    DivNext(a, 100);
  }

  lemma LateSum(x: int, c: int, q: int, s: int, r: int, over: int)
    requires 0 <= x < 146097 && 0 <= c <= 3 && 0 <= q <= 24 && 0 <= s <= 3 && 0 <= r <= 365
    requires x == 36524 * c + 1461 * q + 365 * s + r && (r == 365 ==> s == 3 && (q < 24 || c == 3))
    requires over == if 24 * c + q + 365 * s + r + 96 >= 1460 then 1 else 0
    ensures x + 146096 - (x + 146096) / 1460 + (x + 146096) / 36524 - (x + 146096) / 146096
      == 365 * (400 + 100 * c + 4 * q + s) + r - 1 - over
  {
    DivModUnique(x + 146096, 1460, 100 + 25 * c + q + over, 24 * c + q + 365 * s + r + 96 - 1460 * over);
    CenturyOf(x, c, x - 36524 * c);
    DivPlus(4, x, 36524);
    DivPlus(1, x, 146096);
  }

  /**
   * `civil_from_days` gives the date of its day exactly from March 1st of the year 0 on, and on the last
   * day of earlier cycles.
   */
  lemma CivilExactIff(days: int)
    ensures var z, t := days + 719468, CivilFromDays(days);
      1 <= t.m <= 12 && (Ordinal(t) == days <==> z >= 0 || z % 146097 == 146096)
  {
    var z, t := days + 719468, CivilFromDays(days);
    if z >= 0 || z % 146097 == 146096 {
      CivilOfDays(days);
    } else {
      hide *;
      EarlierDay(days);
    }
  }

  /** In an earlier cycle the pair of formulas lands on the next day. */
  lemma EarlierDay(days: int)
    requires var z := days + 719468; z < 0 && z % 146097 != 146096
    ensures var t := CivilFromDays(days); 1 <= t.m <= 12 && Ordinal(t) == days + 1
  {
    hide *;
    var z := days + 719468;
    var a := EarlierYear(days);
    DivModFact(z, 146097);
    var t := CivilFromDays(days);
    CycleIsCumulative(Shifted(t.y, t.m), z / 146097, a);
    OrdinalIs(t.y, t.m, t.d);
    SameDate(t);
  }

  lemma SameDate(t: Date)
    ensures t == Date(t.y, t.m, t.d)
  {}

  /** The date the formulas give there: the year of the cycle in which the next day is not the first, and that day. */
  lemma EarlierYear(days: int) returns (a: int)
    requires var z := days + 719468; z < 0 && z % 146097 != 146096
    ensures var z, t := days + 719468, CivilFromDays(days);
      && 0 <= a < 400 && CycleDays(a) < z % 146097 + 1 <= CycleDays(a + 1)
      && t == YearDay(z / 146097 * 400 + a, z % 146097 + 1 - CycleDays(a))
      && 1 <= t.m <= 12 && Shifted(t.y, t.m) == z / 146097 * 400 + a
      && DayOfYear(t.m, t.d) == z % 146097 + 1 - CycleDays(a)
  {
    hide *;
    var z := days + 719468;
    var era, doe := z / 146097, z % 146097;
    DivModFact(z, 146097);
    DivModUnique(z - 146096, 146097, era - 1, doe + 1);
    CivilIs(days, era - 1);
    EarlierCycle(doe);
    var yoe := YearOfCycle(doe + 146097);
    a := yoe - 400;
    LaterCycle(a);
    LateYearDay(era * 400 + a, doe + 1 - CycleDays(a));
  }

  lemma LaterCycle(yoe: int)
    requires 0 <= yoe < 400
    ensures CycleDays(yoe + 400) == CycleDays(yoe) + 146096
  {}

  lemma LateYearDay(sy: int, doy: int)
    requires 0 <= doy <= 366
    ensures var t := YearDay(sy, doy);
      1 <= t.m <= 12 && Shifted(t.y, t.m) == sy && DayOfYear(t.m, t.d) == doy && t == Date(t.y, t.m, t.d)
  {
    MonthOfLateDay(doy);
    hide DayOfYear;
  }

  lemma MonthOfLateDay(doy: int)
    requires 0 <= doy <= 366
    ensures var mp := (5 * doy + 2) / 153;
      var m := mp + (if mp < 10 then 3 else -9);
      var d := doy - (153 * mp + 2) / 5 + 1;
      0 <= mp <= 11 && 1 <= m <= 12 && DayOfYear(m, d) == doy
  {}

  // ----- the two conversions together

  lemma {:induction false} CycleGrows(a: int, b: int)
    requires 0 <= a <= b <= 400
    ensures CycleDays(a) + 365 * (b - a) <= CycleDays(b)
    decreases b - a
  {
    if a < b {
      CycleGrows(a, b - 1);
      YearGrows(b - 1);
    }
  }

  /** Where a day lies in its shifted year. */
  lemma DayInYear(t: Date)
    requires ValidDate(t)
    ensures var doy := DayOfYear(t.m, t.d);
      && 0 <= doy < 365 + (if IsLeap(Shifted(t.y, t.m) + 1) then 1 else 0)
      && (doy == 0 <==> t.m == 3 && t.d == 1) && (doy == 365 <==> t.m == 2 && t.d == 29)
  {
    hide IsLeap;
  }

  lemma YearDayOf(t: Date)
    requires ValidDate(t)
    ensures YearDay(Shifted(t.y, t.m), DayOfYear(t.m, t.d)) == t
  {
    hide *;
    DayInYear(t);
    var u := YearDay(Shifted(t.y, t.m), DayOfYear(t.m, t.d));
    DateOfYearDay(Shifted(t.y, t.m), DayOfYear(t.m, t.d));
    ValidMonth(t);
    ValidMonth(u);
    OrdinalIs(t.y, t.m, t.d);
    OrdinalIs(u.y, u.m, u.d);
    OrdinalInjective(t, u);
  }

  /** Does the date come back from its day number? */
  predicate DateReturns(t: Date) {
    var sy := Shifted(t.y, t.m);
    sy >= 0 || if sy % 400 == 399 then t.m == 2 && t.d == 29 else !(t.m == 3 && t.d == 1)
  }

  /**
   * Date to day number to date is the identity exactly from March 1st of the year 0 on and, before
   * it, where the two errors cancel: everywhere but on March 1st, and in the last year of a cycle
   * only on its leap day.
   */
  lemma DateRoundTrip(t: Date)
    requires ValidDate(t)
    ensures CivilFromDays(DaysFromCivil(t.y, t.m, t.d)) == t <==> DateReturns(t)
  {
    hide *;
    var sy := Shifted(t.y, t.m);
    ValidMonth(t);
    FlooringIsOrdinal(t.y, t.m, t.d);
    ReturnsWhen(t);
    if sy >= 0 {
      LaterDateReturns(t);
    } else if sy % 400 == 399 {
      LastYearReturns(t);
    } else {
      EarlierDateReturns(t);
    }
  }

  lemma ReturnsWhen(t: Date)
    ensures var sy := Shifted(t.y, t.m);
      && (sy >= 0 ==> DateReturns(t))
      && (sy < 0 && sy % 400 == 399 ==> (DateReturns(t) <==> t.m == 2 && t.d == 29))
      && (sy < 0 && sy % 400 != 399 ==> (DateReturns(t) <==> !(t.m == 3 && t.d == 1)))
  {}

  lemma LaterDateReturns(t: Date)
    requires ValidDate(t) && Shifted(t.y, t.m) >= 0
    ensures CivilFromDays(Ordinal(t)) == t
  {
    hide *;
    DayInYear(t);
    ValidMonth(t);
    OrdinalIs(t.y, t.m, t.d);
    CumulativeNonneg(Shifted(t.y, t.m));
    CivilOfDays(Ordinal(t));
    OrdinalInjective(t, CivilFromDays(Ordinal(t)));
  }

  lemma CumulativeNonneg(y: int)
    requires y >= 0
    ensures Cumulative(y) >= 0
  {}

  /** Where the day number of a date lies in its cycle. */
  lemma DayInCycle(t: Date, k: int)
    requires ValidDate(t) && 0 <= k <= 1
    requires var w := CycleDays(Shifted(t.y, t.m) % 400) + DayOfYear(t.m, t.d) - k; 0 <= w < 146097
    ensures var z, sy := Ordinal(t) - k + 719468, Shifted(t.y, t.m);
      && z / 146097 == sy / 400 && z % 146097 == CycleDays(sy % 400) + DayOfYear(t.m, t.d) - k
      && (sy < 0 ==> z < 0)
  {
    hide *;
    var sy := Shifted(t.y, t.m);
    ValidMonth(t);
    OrdinalIs(t.y, t.m, t.d);
    DivModFact(sy, 400);
    CycleIsCumulative(sy, sy / 400, sy % 400);
    var w := CycleDays(sy % 400) + DayOfYear(t.m, t.d) - k;
    DivModUnique(sy / 400 * 146097 + w, 146097, sy / 400, w);
  }

  lemma LastYearReturns(t: Date)
    requires ValidDate(t) && Shifted(t.y, t.m) < 0 && Shifted(t.y, t.m) % 400 == 399
    ensures CivilFromDays(Ordinal(t)) == t <==> t.m == 2 && t.d == 29
  {
    hide *;
    ValidMonth(t);
    DayInYear(t);
    LastStart();
    DayInCycle(t, 0);
    CivilExactIff(Ordinal(t));
    if t.m == 2 && t.d == 29 {
      CivilOfDays(Ordinal(t));
      OrdinalInjective(t, CivilFromDays(Ordinal(t)));
    }
  }

  lemma EarlierDateReturns(t: Date)
    requires ValidDate(t) && Shifted(t.y, t.m) < 0 && Shifted(t.y, t.m) % 400 != 399
    ensures CivilFromDays(Ordinal(t) - 1) == t <==> !(t.m == 3 && t.d == 1)
  {
    hide *;
    ValidMonth(t);
    DayInYear(t);
    var sy, doy := Shifted(t.y, t.m), DayOfYear(t.m, t.d);
    var yoe := sy % 400;
    FitsYear(t);
    if yoe == 0 && doy == 0 {
      FirstOfCycle(t);
    } else {
      BehindFirst(yoe, doy);
      var a := NextDayGiven(t, yoe, doy);
      SameYear(a, yoe, doy);
      YearDayOf(t);
      SameOrBefore(t, CivilFromDays(Ordinal(t) - 1), sy, doy);
    }
  }

  lemma SameOrBefore(t: Date, u: Date, sy: int, doy: int)
    requires sy == Shifted(t.y, t.m) && t == YearDay(sy, doy) && (doy == 0 <==> t.m == 3 && t.d == 1)
    requires doy == 0 ==> Shifted(u.y, u.m) == sy - 1
    requires doy != 0 ==> u == YearDay(sy, doy)
    ensures u == t <==> !(t.m == 3 && t.d == 1)
  {
    hide *;
  }

  lemma FitsYear(t: Date)
    requires ValidDate(t)
    ensures var yoe := Shifted(t.y, t.m) % 400;
      0 <= yoe < 400 && (yoe < 399 ==> CycleDays(yoe) + DayOfYear(t.m, t.d) <= CycleDays(yoe + 1))
  {
    hide *;
    DayInYear(t);
    var sy := Shifted(t.y, t.m);
    DivModFact(sy, 400);
    if sy % 400 < 399 {
      YearLength(sy % 400, sy / 400);
    }
  }

  lemma BehindFirst(yoe: int, doy: int)
    requires 0 <= yoe < 399 && 0 <= doy && (yoe > 0 || doy > 0) && CycleDays(yoe) + doy <= CycleDays(yoe + 1)
    ensures 0 < CycleDays(yoe) + doy < 146097
  {
    hide *;
    LastStart();
    CycleGrows(0, yoe);
    CycleGrows(yoe + 1, 399);
  }

  lemma SameYear(a: int, yoe: int, doy: int)
    requires 0 <= a < 400 && 0 <= yoe < 399 && 0 <= doy && CycleDays(yoe) + doy <= CycleDays(yoe + 1)
    requires CycleDays(a) < CycleDays(yoe) + doy <= CycleDays(a + 1)
    ensures a == if doy == 0 then yoe - 1 else yoe
  {
    hide *;
    if a < yoe {
      CycleGrows(a + 1, yoe);
      if a + 1 < yoe {
        CycleGrows(a + 2, yoe);
        YearGrows(a + 1);
      }
    } else if a > yoe {
      CycleGrows(yoe + 1, a);
    }
  }

  /** The day before a date of an earlier cycle is given that date's year and day, or the year before and a late day. */
  lemma NextDayGiven(t: Date, yoe: int, doy: int) returns (a: int)
    requires ValidDate(t) && Shifted(t.y, t.m) < 0 && yoe == Shifted(t.y, t.m) % 400 && doy == DayOfYear(t.m, t.d)
    requires 0 < CycleDays(yoe) + doy < 146097
    ensures var u, w := CivilFromDays(Ordinal(t) - 1), CycleDays(yoe) + doy;
      && 0 <= a < 400 && CycleDays(a) < w <= CycleDays(a + 1)
      && Shifted(u.y, u.m) == Shifted(t.y, t.m) - yoe + a
      && u == YearDay(Shifted(t.y, t.m) - yoe + a, w - CycleDays(a))
  {
    hide *;
    ValidMonth(t);
    DayInCycle(t, 1);
    a := EarlierYear(Ordinal(t) - 1);
    DivModFact(Shifted(t.y, t.m), 400);
  }

  /** The shifted year of the cycle is as long as the calendar year it ends in. */
  lemma YearLength(yoe: int, era: int)
    requires 0 <= yoe < 399
    ensures CycleDays(yoe + 1) == CycleDays(yoe) + 365 + if IsLeap(era * 400 + yoe + 1) then 1 else 0
  {
    LeapInCycle(yoe + 1, era);
    hide IsLeap;
    LengthInCycle(yoe);
  }

  lemma LengthInCycle(yoe: int)
    requires 0 <= yoe < 399
    ensures CycleDays(yoe + 1) == CycleDays(yoe) + 365 + if IsLeap(yoe + 1) then 1 else 0
  {
    DivNext(yoe, 4);
    DivNext(yoe, 100);
    if (yoe + 1) % 100 == 0 {
      Divides(yoe + 1, 25, 4);
    }
  }

  /** March 1st of a cycle's first year: the day before it is given its own date. */
  lemma FirstOfCycle(t: Date)
    requires ValidDate(t) && Shifted(t.y, t.m) < 0 && Shifted(t.y, t.m) % 400 == 0 && DayOfYear(t.m, t.d) == 0
    ensures CivilFromDays(Ordinal(t) - 1) != t
  {
    hide *;
    ValidMonth(t);
    LastStart();
    DayInCycle(t, 0);
    var z := Ordinal(t) + 719468;
    DivModFact(z, 146097);
    DivModUnique(z - 1, 146097, z / 146097 - 1, 146096);
    CivilOfDays(Ordinal(t) - 1);
  }

  /** Does the day number come back from its date? */
  predicate DayReturns(days: int) {
    var z := days + 719468;
    z >= 0 || z % 146097 < 145731 || z % 146097 == 146096
  }

  /**
   * Day number to date to day number is the identity exactly from that day on and, before it, in
   * all years of a cycle but the last, of which only the last day comes back.
   */
  lemma DayRoundTrip(days: int)
    ensures var t := CivilFromDays(days); DaysFromCivil(t.y, t.m, t.d) == days <==> DayReturns(days)
  {
    assert CycleDays(399) == 145731;
    assert DayReturns(days) <==> var z := days + 719468; z >= 0 || z % 146097 < 145731 || z % 146097 == 146096;
    hide *;
    var z, t := days + 719468, CivilFromDays(days);
    DivModFact(z, 146097);
    if z >= 0 || z % 146097 == 146096 {
      CivilOfDays(days);
      ValidMonth(t);
      ExactYear(t, z);
      FlooringIsOrdinal(t.y, t.m, t.d);
    } else {
      EarlierDay(days);
      FlooringIsOrdinal(t.y, t.m, t.d);
      EarlierLastYear(days);
    }
  }

  lemma EarlierLastYear(days: int)
    requires var z := days + 719468; z < 0 && z % 146097 != 146096
    ensures var t, z := CivilFromDays(days), days + 719468;
      Shifted(t.y, t.m) < 0 && (Shifted(t.y, t.m) % 400 == 399 <==> z % 146097 >= 145731)
  {
    hide *;
    LastStart();
    var z, t := days + 719468, CivilFromDays(days);
    var a := EarlierYear(days);
    DivModFact(z, 146097);
    var era, sy := z / 146097, Shifted(t.y, t.m);
    DivModUnique(sy, 400, era, a);
    if a < 399 {
      CycleGrows(a + 1, 399);
    }
  }

  /** A date with such a day number has a shifted year in which the conversion is exact. */
  lemma ExactYear(t: Date, z: int)
    requires ValidDate(t) && z == Ordinal(t) + 719468 && (z >= 0 || z % 146097 == 146096)
    ensures Shifted(t.y, t.m) >= 0 || Shifted(t.y, t.m) % 400 == 399
  {
    hide *;
    DayInYear(t);
    var sy := Shifted(t.y, t.m);
    var yoe := sy % 400;
    DivModFact(sy, 400);
    if sy < 0 && yoe < 399 {
      YearLength(yoe, sy / 400);
      CycleGrows(yoe + 1, 399);
      LastStart();
      CycleGrows(0, yoe);
      DayInCycle(t, 0);
    }
  }

  lemma LastStart()
    ensures CycleDays(399) == 145731 && CycleDays(0) == 0
  {}

  // ----- weekdays and rule days

  function Weekday(days: int): int { (days + 4) % 7 }

  datatype DaySpec = Fixed(day: int) | Last(dow: int) | OnOrAfter(dow: int, day: int) | OnOrBefore(dow: int, day: int)

  /** The day a rule names, as a day number; it may lie in a neighbouring month. */
  function ResolveDay(y: int, m: int, spec: DaySpec): int {
    match spec
    case Fixed(day) => DaysFromCivil(y, m, day)
    case Last(dow) =>
      var last := DaysFromCivil(y, m, MonthLen(y, m));
      last - (Weekday(last) - dow) % 7
    case OnOrAfter(dow, day) =>
      var d := DaysFromCivil(y, m, day);
      d + (dow - Weekday(d)) % 7
    case OnOrBefore(dow, day) =>
      var d := DaysFromCivil(y, m, day);
      d - (Weekday(d) - dow) % 7
  }

  /** `r` is the nearest day to `d`, on the given side of it, that falls on `dow`. */
  ghost predicate Nearest(r: int, d: int, dow: int, after: bool) {
    && Weekday(r) == dow
    && if after then d <= r && forall e :: d <= e < r ==> Weekday(e) != dow
       else r <= d && forall e :: r < e <= d ==> Weekday(e) != dow
  }

  lemma WeekdayPlus(n: int, k: int)
    ensures 0 <= Weekday(n) < 7 && Weekday(n + k) == (Weekday(n) + k) % 7
  {
    DivModFact(n + 4, 7);
    DivPlus((n + 4) / 7, (n + 4) % 7 + k, 7);
  }

  lemma ModSeven(x: int)
    requires -7 <= x < 14
    ensures x % 7 == if x < 0 then x + 7 else if x >= 7 then x - 7 else x
  {}

  lemma NearestAfter(d: int, dow: int)
    requires 0 <= dow < 7
    ensures Nearest(d + (dow - Weekday(d)) % 7, d, dow, true)
  {
    var k := (dow - Weekday(d)) % 7;
    hide Weekday;
    WeekdayPlus(d, k);
    ModSeven(dow - Weekday(d));
    ModSeven(Weekday(d) + k);
    forall e | d <= e < d + k ensures Weekday(e) != dow {
      WeekdayPlus(d, e - d);
      ModSeven(Weekday(d) + (e - d));
    }
  }

  lemma NearestBefore(d: int, dow: int)
    requires 0 <= dow < 7
    ensures Nearest(d - (Weekday(d) - dow) % 7, d, dow, false)
  {
    var k := (Weekday(d) - dow) % 7;
    hide Weekday;
    WeekdayPlus(d, -k);
    ModSeven(Weekday(d) - dow);
    ModSeven(Weekday(d) - k);
    forall e | d - k < e <= d ensures Weekday(e) != dow {
      WeekdayPlus(d, e - d);
      ModSeven(Weekday(d) + (e - d));
    }
  }

  /** January 1st, 1970 was a Thursday, and the names follow each other day by day. */
  lemma WeekdayFollows(t: Date)
    requires ValidDate(t)
    ensures Weekday(0) == 4 && Ordinal(Date(1970, 1, 1)) == 0
    ensures Weekday(Ordinal(NextDay(t))) == (Weekday(Ordinal(t)) + 1) % 7
  {
    NextDayIsNext(t);
    MonthTable(1970);
    assert Ordinal(Date(1970, 1, 1)) == 0 && Weekday(0) == 4;
    hide *;
    WeekdayPlus(Ordinal(t), 1);
  }

  /** What each kind of rule day means in the calendar, for the years the conversion is exact in. */
  lemma ResolvedDay(y: int, m: int, spec: DaySpec)
    requires 1 <= m <= 12 && (Shifted(y, m) >= 0 || Shifted(y, m) % 400 == 399)
    requires !spec.Fixed? ==> 0 <= spec.dow < 7
    ensures var r := ResolveDay(y, m, spec);
      match spec
      case Fixed(day) => r == Ordinal(Date(y, m, day))
      case Last(dow) => Nearest(r, Ordinal(Date(y, m, MonthLen(y, m))), dow, false) && Ordinal(Date(y, m, 1)) <= r
      case OnOrAfter(dow, day) => Nearest(r, Ordinal(Date(y, m, day)), dow, true)
      case OnOrBefore(dow, day) => Nearest(r, Ordinal(Date(y, m, day)), dow, false)
  {
    match spec
    case Fixed(day) => FlooringIsOrdinal(y, m, day);
    case Last(dow) =>
      FlooringIsOrdinal(y, m, MonthLen(y, m));
      NearestBefore(Ordinal(Date(y, m, MonthLen(y, m))), dow);
    case OnOrAfter(dow, day) =>
      FlooringIsOrdinal(y, m, day);
      NearestAfter(Ordinal(Date(y, m, day)), dow);
    case OnOrBefore(dow, day) =>
      FlooringIsOrdinal(y, m, day);
      NearestBefore(Ordinal(Date(y, m, day)), dow);
  }
}
