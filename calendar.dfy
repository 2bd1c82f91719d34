/** The proleptic Gregorian calendar of Python's `datetime`, on day numbers: day 0 is 1970-01-01,
    and a datetime (to the second) is a count of seconds from 1970-01-01 00:00:00. */
module Calendar {

  const SECONDS_PER_DAY := 86400

  /** The years a Python `datetime` can hold. */
  const MIN_YEAR := 1
  const MAX_YEAR := 9999

  /** The day number of `datetime.min`, 0001-01-01. */
  const MIN_DAY := -719162

  /** The day a datetime falls on (floor division, so times before 1970 work too). */
  function Day(t: int): int { t / SECONDS_PER_DAY }

  /** Seconds since midnight: the datetime's `time()`. */
  function SecondOfDay(t: int): (s: nat)
    ensures s < SECONDS_PER_DAY
  {
    t % SECONDS_PER_DAY
  }

  /** `datetime.weekday()` of a day number: Monday is 0, and 1970-01-01 was a Thursday (3). */
  function Weekday(day: int): (w: nat)
    ensures w < 7
  {
    (day + 3) % 7
  }

  /** Stepping back one day steps the weekday back by one, Monday wrapping to Sunday. */
  lemma WeekdayBefore(day: int)
    ensures Weekday(day - 1) == (Weekday(day) + 6) % 7
  {
  }

  lemma ModAdd7(q: int, x: int)
    ensures (7 * q + x) % 7 == x % 7
  {
  }

  /** Moving `i` days moves the weekday by `i`, modulo 7. */
  lemma WeekdayAdd(s: int, i: int)
    ensures Weekday(s + i) == (Weekday(s) + i) % 7
  {
    var q := (s + 3) / 7;
    assert s + 3 == 7 * q + Weekday(s);
    ModAdd7(q, Weekday(s) + i);
    assert s + i + 3 == 7 * q + (Weekday(s) + i);
  }

  /** Within one week from `s`, weekday `w` falls on exactly one offset, (w - Weekday(s)) % 7. */
  lemma WeekdayMatch(s: int, i: int, w: int)
    requires 0 <= i < 7 && 0 <= w < 7
    ensures Weekday(s + i) == w <==> i == (w - Weekday(s)) % 7
  {
    WeekdayAdd(s, i);
    var a := Weekday(s);
    assert (a + i) % 7 == if a + i < 7 then a + i else a + i - 7;
    assert (w - a) % 7 == if w >= a then w - a else w - a + 7;
  }

  datatype Civil = Civil(year: int, month: int, day: int)

  /** The day number of a calendar date (Hinnant's days_from_civil). */
  function DaysFromCivil(y: int, m: int, d: int): int
    requires 1 <= m <= 12
  {
    var y' := if m <= 2 then y - 1 else y;
    var era := y' / 400;
    var yoe := y' - era * 400;
    var mp := if m > 2 then m - 3 else m + 9;
    var doy := (153 * mp + 2) / 5 + d - 1;
    var doe := yoe * 365 + yoe / 4 - yoe / 100 + doy;
    era * 146097 + doe - 719468
  }

  /** The calendar date of a day number: the day is split into 400-year eras, centuries, 4-year
      cycles and years, each year counted from 1 March so that the leap day comes last. */
  function CivilFromDays(z: int): (c: Civil)
    ensures 1 <= c.month <= 12 && 1 <= c.day <= 31
  {
    var z' := z + 719468;
    var era := z' / 146097;
    var yd := YearOfEra(z' - era * 146097);
    var md := MonthAndDay(yd.1);
    Civil(if md.0 <= 2 then era * 400 + yd.0 + 1 else era * 400 + yd.0, md.0, md.1)
  }

  /** The year within the era (from 0) and the day within that March-based year (from 0) of
      day `doe` of a 400-year era. */
  function YearOfEra(doe: int): (yd: (int, int))
    requires 0 <= doe < 146097
    ensures 0 <= yd.0 < 400 && 0 <= yd.1 <= 365
  {
    var century := if doe / 36524 < 3 then doe / 36524 else 3;
    var doc := doe - 36524 * century;
    var cycle := doc / 1461;
    var doy4 := doc - 1461 * cycle;
    var year := if doy4 / 365 < 3 then doy4 / 365 else 3;
    (century * 100 + cycle * 4 + year, doy4 - 365 * year)
  }

  /** The month (1 to 12) and day (1 to 31) of day `doy` of a year that starts on 1 March. */
  function MonthAndDay(doy: int): (md: (int, int))
    requires 0 <= doy <= 365
    ensures 1 <= md.0 <= 12 && 1 <= md.1 <= 31
  {
    var mp := (5 * doy + 2) / 153;
    var d := doy - (153 * mp + 2) / 5 + 1;
    (if mp < 10 then mp + 3 else mp - 9, d)
  }

  /** The day number of the 1st of the month that `day` falls in: `datetime(d.year, d.month, 1)`. */
  function MonthStart(day: int): (first: int)
    ensures first <= day && day - first <= 30
  {
    day - (CivilFromDays(day).day - 1)
  }

  /** Anchors of the calendar: day 0 is 1970-01-01, and 1 January 2012 was a Sunday. */
  lemma Epoch()
    ensures DaysFromCivil(1970, 1, 1) == 0 && CivilFromDays(0) == Civil(1970, 1, 1)
    ensures DaysFromCivil(MIN_YEAR, 1, 1) == MIN_DAY
    ensures Weekday(DaysFromCivil(2012, 1, 1)) == 6
  {
    assert YearOfEra(135080) == (369, 306);
    assert MonthAndDay(306) == (1, 1);
    assert DaysFromCivil(2012, 1, 1) == 15340;
  }

  // ---------------------------------------------------------------------------------------------
  // round trip

  predicate IsLeap(y: int)
  {
    y % 4 == 0 && (y % 100 != 0 || y % 400 == 0)
  }

  function DaysInMonth(y: int, m: int): int
    requires 1 <= m <= 12
  {
    if m == 2 then (if IsLeap(y) then 29 else 28)
    else if m == 4 || m == 6 || m == 9 || m == 11 then 30
    else 31
  }

  /** A date `datetime(y, m, d)` accepts. */
  predicate ValidDate(y: int, m: int, d: int)
  {
    1 <= m <= 12 && 1 <= d <= DaysInMonth(y, m)
  }

  /** Every valid date comes back from its day number: the two conversions are inverse, so the
      day arithmetic on day numbers is the calendar arithmetic of `datetime`. */
  lemma CivilRoundTrip(y: int, m: int, d: int)
    requires ValidDate(y, m, d)
    ensures CivilFromDays(DaysFromCivil(y, m, d)) == Civil(y, m, d)
  {
    var y' := MarchYear(y, m);
    var era, yoe := y' / 400, y' % 400;
    var doy := DayOfMarchYear(m, d);
    DaysFromCivilParts(y, m, d);
    MarchDay(y, m, d);
    YearOfEraDay(yoe, doy);
    var z := DaysFromCivil(y, m, d);
    EraSplit(era, yoe, doy);
    CivilFromParts(z, era, DayOfEra(yoe, doy), yoe, doy);
  }

  /** The year that holds the date when years start on 1 March. */
  function MarchYear(y: int, m: int): int
  {
    if m <= 2 then y - 1 else y
  }

  /** The day of that March-based year, from 0. */
  function DayOfMarchYear(m: int, d: int): int
  {
    (153 * (if m > 2 then m - 3 else m + 9) + 2) / 5 + d - 1
  }

  /** The day of a 400-year era, from 0, of day `doy` of the era's year `yoe`. */
  function DayOfEra(yoe: int, doy: int): int
  {
    yoe * 365 + yoe / 4 - yoe / 100 + doy
  }

  /** days_from_civil in terms of the era, the year of the era and the day of the year. */
  lemma DaysFromCivilParts(y: int, m: int, d: int)
    requires 1 <= m <= 12
    ensures var y' := MarchYear(y, m);
            DaysFromCivil(y, m, d) + 719468 == (y' / 400) * 146097 + DayOfEra(y' % 400, DayOfMarchYear(m, d))
  {
  }

  /** The day of the March-based year of a valid date, read back as month and day. */
  lemma MarchDay(y: int, m: int, d: int)
    requires ValidDate(y, m, d)
    ensures var doy, yoe := DayOfMarchYear(m, d), MarchYear(y, m) % 400;
            0 <= doy <= 365 && MonthAndDay(doy) == (m, d) &&
            (doy == 365 ==> yoe % 4 == 3 && (yoe % 100 != 99 || yoe == 399))
  {
    var mp := if m > 2 then m - 3 else m + 9;
    MonthOfYearDay(mp, d);
    var y' := MarchYear(y, m);
    if DayOfMarchYear(m, d) == 365 {
      assert m == 2 && d == 29 && IsLeap(y);
      LeapInEra(y, y' / 400, y' % 400);
    }
  }

  /** CivilFromDays, once the era, the year of the era and the day of the year are known. */
  lemma CivilFromParts(z: int, era: int, doe: int, yoe: int, doy: int)
    requires 0 <= doe < 146097 && z + 719468 == era * 146097 + doe
    requires (z + 719468) / 146097 == era
    requires 0 <= doy <= 365 && YearOfEra(doe) == (yoe, doy)
    ensures CivilFromDays(z) == Civil(if MonthAndDay(doy).0 <= 2 then era * 400 + yoe + 1
                                      else era * 400 + yoe,
                                      MonthAndDay(doy).0, MonthAndDay(doy).1)
  {
    assert z + 719468 - era * 146097 == doe;
  }

  /** The day within a March-based year gives back its month and day. */
  lemma MonthOfYearDay(mp: int, d: int)
    requires 0 <= mp <= 11 && 1 <= d
    requires d <= (if mp == 11 then 29 else if mp == 1 || mp == 3 || mp == 6 || mp == 8 then 30 else 31)
    ensures var doy := (153 * mp + 2) / 5 + d - 1;
            0 <= doy <= 365 && (doy == 365 ==> mp == 11 && d == 29) &&
            MonthAndDay(doy) == (if mp < 10 then mp + 3 else mp - 9, d)
  {
    var doy := (153 * mp + 2) / 5 + d - 1;
    if mp == 0 { assert doy == d - 1; }
    else if mp == 1 { assert doy == 30 + d; }
    else if mp == 2 { assert doy == 60 + d; }
    else if mp == 3 { assert doy == 91 + d; }
    else if mp == 4 { assert doy == 121 + d; }
    else if mp == 5 { assert doy == 152 + d; }
    else if mp == 6 { assert doy == 183 + d; }
    else if mp == 7 { assert doy == 213 + d; }
    else if mp == 8 { assert doy == 244 + d; }
    else if mp == 9 { assert doy == 274 + d; }
    else if mp == 10 { assert doy == 305 + d; }
    else { assert doy == 336 + d; }
  }

  /** The leap day of March-based year `yoe` of an era is the 29 February of the next year. */
  lemma LeapInEra(y: int, era: int, yoe: int)
    requires yoe == y - 1 - era * 400 && 0 <= yoe < 400
    requires IsLeap(y)
    ensures yoe % 4 == 3 && (yoe % 100 != 99 || yoe == 399)
  {
    var x := yoe + 1;
    assert y == era * 400 + x;
    EraMod(era, x);
    assert x % 4 == 0 && (x % 100 != 0 || x % 400 == 0);
    LeapYearOfEra(yoe);
  }

  lemma LeapYearOfEra(yoe: int)
    requires 0 <= yoe < 400
    requires (yoe + 1) % 4 == 0 && ((yoe + 1) % 100 != 0 || (yoe + 1) % 400 == 0)
    ensures yoe % 4 == 3 && (yoe % 100 != 99 || yoe == 399)
  {
  }

  /** Whole eras do not change a year's remainders by 4, 100 and 400. */
  lemma EraMod(era: int, x: int)
    ensures (era * 400 + x) % 4 == x % 4
    ensures (era * 400 + x) % 100 == x % 100
    ensures (era * 400 + x) % 400 == x % 400
  {
    Mod4(era * 100, x);
    Mod100(era * 4, x);
    Mod400(era, x);
  }

  lemma Mod4(a: int, x: int)
    ensures (4 * a + x) % 4 == x % 4
  {
    var q := x / 4;
    assert 4 * a + x == 4 * (a + q) + x % 4;
  }

  lemma Mod100(a: int, x: int)
    ensures (100 * a + x) % 100 == x % 100
  {
    var q := x / 100;
    assert 100 * a + x == 100 * (a + q) + x % 100;
  }

  lemma Mod400(a: int, x: int)
    ensures (400 * a + x) % 400 == x % 400
  {
    var q := x / 400;
    assert 400 * a + x == 400 * (a + q) + x % 400;
  }

  /** The year and day within an era come back from the era's day count. */
  lemma YearOfEraDay(yoe: int, doy: int)
    requires 0 <= yoe < 400 && 0 <= doy <= 365
    requires doy == 365 ==> yoe % 4 == 3 && (yoe % 100 != 99 || yoe == 399)
    ensures YearOfEra(DayOfEra(yoe, doy)) == (yoe, doy)
  {
    var c, q, k := yoe / 100, (yoe % 100) / 4, yoe % 4;
    EraYearDigits(yoe);
    assert DayOfEra(yoe, doy) == 36524 * c + 1461 * q + 365 * k + doy;
    CycleSplit(c, q, k, doy);
  }

  /** A year of an era as centuries, four-year cycles and years. */
  lemma EraYearDigits(yoe: int)
    requires 0 <= yoe < 400
    ensures var c, q, k := yoe / 100, (yoe % 100) / 4, yoe % 4;
            yoe == 100 * c + 4 * q + k && 0 <= c < 4 && 0 <= q < 25 && 0 <= k < 4 &&
            yoe / 4 == 25 * c + q && (q == 24 && k == 3 ==> yoe % 100 == 99)
  {
    var c, q, k := yoe / 100, (yoe % 100) / 4, yoe % 4;
    assert yoe % 100 == 4 * q + k;
  }

  /** YearOfEra walks back through centuries, four-year cycles and years. */
  lemma CycleSplit(c: int, q: int, k: int, doy: int)
    requires 0 <= c < 4 && 0 <= q < 25 && 0 <= k < 4 && 0 <= doy <= 365
    requires doy == 365 ==> k == 3 && (q < 24 || c == 3)
    ensures YearOfEra(36524 * c + 1461 * q + 365 * k + doy) == (100 * c + 4 * q + k, doy)
  {
    var rest := 1461 * q + 365 * k + doy;
    CenturyOf(c, rest);
    CycleOf(q, 365 * k + doy);
    YearOfCycle(k, doy);
    assert 36524 * c + 1461 * q + 365 * k + doy - 36524 * c == rest;
    assert rest - 1461 * q == 365 * k + doy;
  }

  lemma CenturyOf(c: int, rest: int)
    requires 0 <= c < 4 && 0 <= rest <= 36524 && (rest == 36524 ==> c == 3)
    ensures var x := (36524 * c + rest) / 36524; (if x < 3 then x else 3) == c
  {
  }

  lemma CycleOf(q: int, r: int)
    requires 0 <= q && 0 <= r < 1461
    ensures (1461 * q + r) / 1461 == q
  {
  }

  lemma YearOfCycle(k: int, doy: int)
    requires 0 <= k < 4 && 0 <= doy <= 365 && (doy == 365 ==> k == 3)
    ensures 0 <= 365 * k + doy < 1461
    ensures var x := (365 * k + doy) / 365; (if x < 3 then x else 3) == k
  {
  }

  /** A day count splits into whole eras and the day within the era. */
  lemma EraSplit(era: int, yoe: int, doy: int)
    requires 0 <= yoe < 400 && 0 <= doy <= 365
    ensures 0 <= DayOfEra(yoe, doy) < 146097
    ensures (era * 146097 + DayOfEra(yoe, doy)) / 146097 == era
  {
    assert 0 <= yoe / 4 - yoe / 100 <= 96;
  }
}
