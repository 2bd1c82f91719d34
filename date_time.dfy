/** cappylib/date_time.py and the older top-level date_time.py: weekday searches, the holiday
    flags and their check, dateCheck and calcTimeseries.  A datetime is a count of seconds since
    1970-01-01 00:00:00 (module Calendar). */
module DateTime {
  import opened Wrappers
  import opened Strings
  import opened Calendar
  import General

  // ---------------------------------------------------------------------------------------------
  // nthWeekday

  /** The number of days among the `n` days from `start` that fall on weekday `w`. */
  function CountWeekday(start: int, n: nat, w: int): nat
    decreases n
  {
    if n == 0 then 0 else CountWeekday(start, n - 1, w) + (if Weekday(start + n - 1) == w then 1 else 0)
  }

  /** The first of the days `start + i`, ..., `start + 30` by which weekday `w` has been seen
      `nth` times, counting from `start`. */
  function FirstReaching(start: int, nth: int, w: int, i: nat): Option<int>
    requires i <= 31
    decreases 31 - i
  {
    if i == 31 then None
    else if CountWeekday(start, i + 1, w) >= nth then Some(start + i)
    else FirstReaching(start, nth, w, i + 1)
  }

  /** nthWeekday: scans the 31 days from the 1st of the month, counting each weekday, and returns
      (as a datetime at midnight) the first day on which weekday's count reaches nth, or False
      (None). A date outside datetime's years 1 to 9999 raises ValueError, the end of the window
      after December 9999 raises OverflowError, and a weekday outside 0..6 is not a key of the
      counts and raises KeyError. */
  method NthWeekday(year: int, month: int, nth: int, weekday: int) returns (r: Result<Option<int>>)
    ensures !(MIN_YEAR <= year <= MAX_YEAR && 1 <= month <= 12) ==> r == Err(ValueError)
    ensures year == MAX_YEAR && month == 12 ==> r == Err(OverflowError)
    ensures MIN_YEAR <= year <= MAX_YEAR && 1 <= month <= 12 && !(year == MAX_YEAR && month == 12) ==>
              if !(0 <= weekday < 7) then r == Err(KeyError(IntToString(weekday)))
              else
                r.Ok? &&
                r.value == match FirstReaching(DaysFromCivil(year, month, 1), nth, weekday, 0)
                           case None => None
                           case Some(d) => Some(d * SECONDS_PER_DAY)
  {
    if !(MIN_YEAR <= year <= MAX_YEAR && 1 <= month <= 12) {
      return Err(ValueError);
    }
    if year == MAX_YEAR && month == 12 {
      return Err(OverflowError);
    }
    var first := DaysFromCivil(year, month, 1);
    var result := first;
    var counts: seq<nat> := [0, 0, 0, 0, 0, 0, 0];
    while result < first + 31
      invariant first <= result <= first + 31
      invariant |counts| == 7
      invariant forall x :: 0 <= x < 7 ==> counts[x] == CountWeekday(first, result - first, x)
      invariant FirstReaching(first, nth, weekday, result - first) == FirstReaching(first, nth, weekday, 0)
      invariant !(0 <= weekday < 7) ==> result == first
    {
      CountsStep(counts, first, result);
      counts := counts[Weekday(result) := counts[Weekday(result)] + 1];
      if !(0 <= weekday < |counts|) {
        return Err(KeyError(IntToString(weekday)));
      }
      assert counts[weekday] == CountWeekday(first, result + 1 - first, weekday);
      if counts[weekday] >= nth {
        assert FirstReaching(first, nth, weekday, result - first) == Some(result);
        return Ok(Some(result * SECONDS_PER_DAY));
      }
      assert FirstReaching(first, nth, weekday, result - first) == FirstReaching(first, nth, weekday, result + 1 - first);
      result := result + 1;
    }
    assert FirstReaching(first, nth, weekday, 31) == None;
    return Ok(None);
  }

  /** The per-weekday tallies over the days before `d`, bumped for day `d`, are the tallies over
      the days up to and including `d`. */
  lemma CountsStep(counts: seq<nat>, first: int, d: int)
    requires first <= d && |counts| == 7
    requires forall x :: 0 <= x < 7 ==> counts[x] == CountWeekday(first, d - first, x)
    ensures var c := counts[Weekday(d) := counts[Weekday(d)] + 1];
            forall x :: 0 <= x < 7 ==> c[x] == CountWeekday(first, d + 1 - first, x)
  {
    var c := counts[Weekday(d) := counts[Weekday(d)] + 1];
    forall x | 0 <= x < 7 ensures c[x] == CountWeekday(first, d + 1 - first, x) {
      assert first + (d + 1 - first) - 1 == d;
    }
  }

  /** The day found for nth >= 1 falls on the requested weekday and is its nth occurrence, and no
      earlier day in the window reached the count; when nothing is found the window holds fewer
      than nth such days. */
  lemma {:induction false} FirstReachingMeaning(start: int, nth: int, w: int, i: nat)
    requires i <= 31
    requires i > 0 ==> CountWeekday(start, i, w) < nth
    ensures match FirstReaching(start, nth, w, i)
            case None => CountWeekday(start, 31, w) < nth
            case Some(d) => start + i <= d < start + 31 &&
                            CountWeekday(start, d - start + 1, w) >= nth &&
                            (d - start > 0 ==> CountWeekday(start, d - start, w) < nth) &&
                            (nth >= 1 ==> Weekday(d) == w && CountWeekday(start, d - start + 1, w) == nth)
    decreases 31 - i
  {
    if i < 31 && CountWeekday(start, i + 1, w) < nth {
      FirstReachingMeaning(start, nth, w, i + 1);
    } else if i < 31 && nth >= 1 && i == 0 {
      assert CountWeekday(start, 0, w) == 0;
    }
  }

  /** A window of seven consecutive days holds each weekday exactly once. */
  lemma SevenDays(start: int, w: int)
    requires 0 <= w < 7
    ensures CountWeekday(start, 7, w) == 1
  {
    WeekOffset(start, w, 7);
  }

  /** Within the first week from `start`, weekday `w` falls only on offset (w - Weekday(start)) % 7. */
  lemma {:induction false} WeekOffset(start: int, w: int, n: nat)
    requires 0 <= w < 7 && n <= 7
    ensures CountWeekday(start, n, w) == if (w - Weekday(start)) % 7 < n then 1 else 0
    decreases n
  {
    if n > 0 {
      WeekOffset(start, w, n - 1);
      WeekdayMatch(start, n - 1, w);
    }
  }

  /** Counting over n + m days is counting over n days and then over the m days after them. */
  lemma {:induction false} CountSplit(start: int, n: nat, m: nat, w: int)
    ensures CountWeekday(start, n + m, w) == CountWeekday(start, n, w) + CountWeekday(start + n, m, w)
    decreases m
  {
    if m > 0 {
      CountSplit(start, n, m - 1, w);
    }
  }

  /** The 31 days from `start` hold at most five of each weekday. */
  lemma WindowAtMostFive(start: int, w: int)
    requires 0 <= w < 7
    ensures CountWeekday(start, 31, w) <= 5
  {
    CountSplit(start, 28, 3, w);
    WeekOffset(start + 28, w, 3);
    assert CountWeekday(start + 28, 3, w) <= 1;
    FourWeeks(start, w);
  }

  /** Four consecutive weeks hold four of each weekday. */
  lemma FourWeeks(start: int, w: int)
    requires 0 <= w < 7
    ensures CountWeekday(start, 28, w) == 4
  {
    CountSplit(start, 21, 7, w);
    CountSplit(start, 14, 7, w);
    CountSplit(start, 7, 7, w);
    SevenDays(start, w);
    SevenDays(start + 7, w);
    SevenDays(start + 14, w);
    SevenDays(start + 21, w);
  }

  /** A 31-day window holds at most five of any weekday, so the sixth or later occurrence is never
      found and nthWeekday returns False (None). */
  lemma NoSixthWeekday(start: int, nth: int, w: int)
    requires 0 <= w < 7 && nth >= 6
    ensures FirstReaching(start, nth, w, 0) == None
  {
    WindowAtMostFive(start, w);
    FirstReachingMeaning(start, nth, w, 0);
    match FirstReaching(start, nth, w, 0)
    case None =>
    case Some(d) =>
      CountSplit(start, d - start + 1, 31 - (d - start + 1), w);
  }

  /** The 31-day window is not clipped to the month: the fifth Sunday of February 2015, a month of
      exactly four weeks starting on a Sunday, is found on 1 March 2015. */
  lemma FifthSundayOfFebruary2015()
    ensures FirstReaching(DaysFromCivil(2015, 2, 1), 5, General.SUNDAY, 0) == Some(DaysFromCivil(2015, 3, 1))
  {
    var start := DaysFromCivil(2015, 2, 1);
    assert start == 16467;
    assert DaysFromCivil(2015, 3, 1) == start + 28;
    FourSundays(start);
    FirstReachingMeaning(start, 5, 6, 0);
    match FirstReaching(start, 5, 6, 0)
    case None =>
      CountSplit(start, 29, 2, 6);
    case Some(d) =>
      if d - start < 28 {
        CountSplit(start, d - start + 1, 28 - (d - start + 1), 6);
      } else if d - start > 28 {
        CountSplit(start, 29, d - start - 29, 6);
      }
  }

  /** From Sunday 1 February 2015 the first 28 days hold four Sundays and the 29th is the fifth. */
  lemma FourSundays(start: int)
    requires start == 16467
    ensures CountWeekday(start, 28, 6) == 4 && CountWeekday(start, 29, 6) == 5
  {
    FourWeeks(start, 6);
    assert Weekday(start + 28) == 6;
  }

  // ---------------------------------------------------------------------------------------------
  // previousWeekday

  /** The latest day on or before `day` that falls on weekday `w`. */
  function LatestOnOrBefore(day: int, w: int): int
    requires 0 <= w < 7
  {
    day - (Weekday(day) - w) % 7
  }

  /** It falls on `w`, at most six days back, and no day in between falls on `w`. */
  lemma LatestOnOrBeforeMeaning(day: int, w: int)
    requires 0 <= w < 7
    ensures var p := LatestOnOrBefore(day, w);
            p <= day && day - p <= 6 && Weekday(p) == w &&
            forall q :: p < q <= day ==> Weekday(q) != w
  {
    var a := Weekday(day);
    var k := (a - w) % 7;
    assert k == if a >= w then a - w else a - w + 7;
    var p := day - k;
    WeekdayMatch(p, k, a);
    WeekdayAdd(p, k);
    assert Weekday(p) == w;
    forall q | p < q <= day ensures Weekday(q) != w {
      WeekdayMatch(p, q - p, w);
    }
  }

  /** previousWeekday: steps back a day at a time until the weekday matches. The loop guard
      compares the date with the 1st of its own (moving) month, so it always holds and the
      function never returns False; instead, stepping back past `datetime.min` raises
      OverflowError, which is what a weekday outside 0..6 always comes to. */
  method PreviousWeekday(date: int, weekday: int) returns (r: Result<Option<int>>)
    requires MIN_DAY <= Day(date)
    ensures 0 <= weekday < 7 && MIN_DAY <= LatestOnOrBefore(Day(date), weekday) ==>
              r == Ok(Some(date - (Day(date) - LatestOnOrBefore(Day(date), weekday)) * SECONDS_PER_DAY))
    ensures 0 <= weekday < 7 && LatestOnOrBefore(Day(date), weekday) < MIN_DAY ==> r == Err(OverflowError)
    ensures !(0 <= weekday < 7) ==> r == Err(OverflowError)
  {
    ghost var k := if 0 <= weekday < 7 then Day(date) - LatestOnOrBefore(Day(date), weekday) else 0;
    if 0 <= weekday < 7 {
      LatestOnOrBeforeMeaning(Day(date), weekday);
    }
    var d := date;
    ghost var steps := 0;
    while d >= MonthStart(Day(d)) * SECONDS_PER_DAY
      invariant d == date - steps * SECONDS_PER_DAY
      invariant Day(d) == Day(date) - steps && MIN_DAY <= Day(d)
      invariant 0 <= steps && (0 <= weekday < 7 ==> steps <= k)
      decreases Day(d) - MIN_DAY
    {
      if Weekday(Day(d)) == weekday {
        assert steps == k;
        return Ok(Some(d));
      }
      if Day(d) - 1 < MIN_DAY {
        return Err(OverflowError);
      }
      DayBefore(d);
      d := d - SECONDS_PER_DAY;
      steps := steps + 1;
    }
    DayFloor(d);
    assert false;
    return Err(OverflowError);
  }

  lemma DayBefore(t: int)
    ensures Day(t - SECONDS_PER_DAY) == Day(t) - 1
  {
  }

  /** A datetime is never before midnight of its own day, nor of the 1st of its month. */
  lemma DayFloor(t: int)
    ensures MonthStart(Day(t)) * SECONDS_PER_DAY <= Day(t) * SECONDS_PER_DAY <= t
  {
  }

  // ---------------------------------------------------------------------------------------------
  // holiday

  const NONE := 0
  const H_US_NYSE_AMCLOSED := 1
  const H_US_NYSE_PMCLOSED := 2
  const H_US_WEEKEND := 4
  const H_US_NEWYEARSDAY := 8
  const H_US_MLKDAY := 16
  const H_US_PRESIDENTSDAY := 32
  const H_US_GOODFRIDAY_HALFDAY := 64
  const H_US_EASTERSUNDAY := 128
  const H_US_MEMORIALDAY := 256
  const H_US_INDEPENDENCEDAY := 512
  const H_US_LABORDAY := 1024
  const H_US_COLUMBUSDAY := 2048
  const H_US_VETERANSDAY := 4096
  const H_US_THANKSGIVING := 8192
  const H_US_CHRISTMAS := 16384

  /** Python's `reduce(lambda x, y: x | y, s, acc)`: folds `|` over `s` from the left. */
  function FoldOr(acc: bv32, s: seq<bv32>): bv32
    decreases |s|
  {
    if s == [] then acc else FoldOr(acc | s[0], s[1..])
  }

  /** `reduce(lambda x, y: x | y, s)` over a non-empty list starts from its first element. */
  function ReduceOr(s: seq<bv32>): bv32
    requires |s| >= 1
  {
    FoldOr(s[0], s[1..])
  }

  /** `[1 << x for x in range(lo, hi)]` */
  function Shifts(lo: nat, hi: nat): seq<bv32>
    requires lo <= hi <= 32
    decreases hi - lo
  {
    if lo == hi then [] else [(1 as bv32) << lo] + Shifts(lo + 1, hi)
  }

  /** h_us_all */
  function UsAllMask(): int
  {
    ReduceOr(Shifts(1, 16)) as int
  }

  lemma ShiftStep(lo: nat)
    requires 1 <= lo < 16
    ensures (((1 as bv32) << lo) - 2) | ((1 as bv32) << lo) == ((1 as bv32) << (lo + 1)) - 2
  {
  }

  /** Or-ing in the flags 1 << lo, ..., 1 << (hi - 1) into a mask of bits 1 to lo - 1 gives the
      mask of bits 1 to hi - 1. */
  lemma {:induction false} FoldShifts(lo: nat, hi: nat)
    requires 1 <= lo <= hi <= 16
    ensures FoldOr(((1 as bv32) << lo) - 2, Shifts(lo, hi)) == ((1 as bv32) << hi) - 2
    decreases hi - lo
  {
    if lo < hi {
      ShiftStep(lo);
      FoldShifts(lo + 1, hi);
    }
  }

  lemma UsAllMaskValue()
    ensures UsAllMask() == 65534
  {
    assert Shifts(1, 16) == [2] + Shifts(2, 16);
    FoldShifts(2, 16);
  }

  lemma Pow2Of16()
    ensures Pow2(16) == 65536
  {
    assert Pow2(4) == 16;
    assert Pow2(8) == 256;
    assert Pow2(12) == 4096;
  }

  /** h_us_all is 65534: exactly the bits 1 to 15, so it leaves out h_us_nyse_amclosed (bit 0)
      and takes in bit 15 (32768), which names no holiday. */
  lemma UsAllMaskBits()
    ensures UsAllMask() == 65534
    ensures forall k: nat :: Bit(UsAllMask(), k) <==> 1 <= k < 16
  {
    UsAllMaskValue();
    Pow2Of16();
    forall k: nat ensures Bit(UsAllMask(), k) <==> 1 <= k < 16 {
      MaskBits(16, k);
    }
  }

  function Pow2(k: nat): (p: nat)
    ensures p >= 1
  {
    if k == 0 then 1 else 2 * Pow2(k - 1)
  }

  /** Bit k of h in two's complement, i.e. `h & (1 << k) != 0` for any Python int. */
  predicate Bit(h: int, k: nat)
    decreases k
  {
    if k == 0 then h % 2 == 1 else Bit(h / 2, k - 1)
  }

  /** 2^m - 1 has exactly its m low bits set. */
  lemma {:induction false} OnesBits(m: nat, k: nat)
    requires k < m
    ensures Bit(Pow2(m) - 1, k)
    decreases k
  {
    assert Pow2(m) == 2 * Pow2(m - 1);
    if k > 0 {
      assert (Pow2(m) - 1) / 2 == Pow2(m - 1) - 1;
      OnesBits(m - 1, k - 1);
    }
  }

  /** A value below 2^m has no bit at m or above. */
  lemma {:induction false} ZeroBits(h: int, m: nat, k: nat)
    requires 0 <= h < Pow2(m) && m <= k
    ensures !Bit(h, k)
    decreases k
  {
    if k > 0 {
      if m > 0 {
        ZeroBits(h / 2, m - 1, k - 1);
      } else {
        ZeroBits(h / 2, 0, k - 1);
      }
    }
  }

  /** 2^n - 2 has exactly bits 1 to n - 1 set. */
  lemma MaskBits(n: nat, k: nat)
    requires 1 <= n
    ensures Bit(Pow2(n) - 2, k) <==> 1 <= k < n
  {
    assert Pow2(n) == 2 * Pow2(n - 1);
    if k > 0 {
      assert (Pow2(n) - 2) / 2 == Pow2(n - 1) - 1;
      if k < n {
        OnesBits(n - 1, k - 1);
      } else {
        ZeroBits(Pow2(n - 1) - 1, n - 1, k - 1);
      }
    }
  }

  /** 2^n, a single holiday flag, has bit n and no other. */
  lemma {:induction false} PowerBits(n: nat, k: nat)
    ensures Bit(Pow2(n), k) <==> k == n
    decreases k
  {
    if k == 0 {
      if n > 0 {
        assert Pow2(n) == 2 * Pow2(n - 1);
      }
    } else if n == 0 {
      ZeroBits(Pow2(0) / 2, 0, k - 1);
    } else {
      assert Pow2(n) / 2 == Pow2(n - 1);
      PowerBits(n - 1, k - 1);
    }
  }

  datatype MonthDay = MonthDay(month: int, day: int)

  /** The Anonymous Gregorian (Meeus/Jones/Butcher) Easter computation exactly as written; for a
      positive divisor Python's `//` and `%` agree with Dafny's `/` and `%`. */
  function Easter(year: int): (md: MonthDay)
    ensures (md.month == 3 && 22 <= md.day <= 31) || (md.month == 4 && 1 <= md.day <= 25)
  {
    var a := year % 19;
    var b := year / 100;
    var c := year % 100;
    var d := (19 * a + b - b / 4 - ((b - (b + 8) / 25 + 1) / 3) + 15) % 30;
    var e := (32 + 2 * (b % 4) + 2 * (c / 4) - d - (c % 4)) % 7;
    EasterBounds(a, d, e);
    var f := d + e - 7 * ((a + 11 * d + 22 * e) / 451) + 114;
    MonthDay(f / 31, f % 31 + 1)
  }

  /** 114 <= f <= 148, whatever the year: the correction term is 0 or 1, and 1 only when d + e
      is large enough to absorb it. */
  lemma EasterBounds(a: int, d: int, e: int)
    requires 0 <= a < 19 && 0 <= d < 30 && 0 <= e < 7
    ensures var f := d + e - 7 * ((a + 11 * d + 22 * e) / 451) + 114;
            114 <= f <= 148
  {
    var n := a + 11 * d + 22 * e;
    assert 0 <= n <= 469;
    var q := n / 451;
    assert q == 0 || q == 1;
    if q == 1 {
      assert 11 * d >= 451 - 18 - 132;
      assert d >= 28;
    } else {
      assert !(d == 29 && e == 6);
    }
  }

  /** 13:00 on the Good Friday of the year: the Friday found by previousWeekday from the computed
      Easter date. */
  function GoodFridayAfternoon(year: int): int
  {
    var easter := Easter(year);
    LatestOnOrBefore(DaysFromCivil(year, easter.month, easter.day), General.FRIDAY) * SECONDS_PER_DAY
      + 13 * 3600
  }

  /** holiday.check(_dt, h). The Easter-Sunday branch calls `dt.date(_dt)` on the datetime
      module's `date` class with a datetime, which raises TypeError; a check that reaches no
      return statement returns None, which is false. */
  function Check(t: int, h: int): Result<bool>
  {
    if Bit(h, 0) && SecondOfDay(t) < 9 * 3600 + 30 * 60 then Ok(true)
    else if Bit(h, 1) && SecondOfDay(t) >= 16 * 3600 then Ok(true)
    else if Bit(h, 7) then Err(TypeError)
    else if Bit(h, 6) then Ok(t >= GoodFridayAfternoon(CivilFromDays(Day(t)).year))
    else Ok(false)
  }

  /** The two bell checks come first, in this order, and win over every other flag. */
  lemma CheckBells(t: int, h: int)
    ensures Bit(h, 0) && SecondOfDay(t) < 34200 ==> Check(t, h) == Ok(true)
    ensures Bit(h, 1) && SecondOfDay(t) >= 57600 ==> Check(t, h) == Ok(true)
    ensures !Bit(h, 0) && !Bit(h, 1) && !Bit(h, 6) && !Bit(h, 7) ==> Check(t, h) == Ok(false)
  {
  }

  /** With the Good-Friday bit alone, check holds from 13:00 on Good Friday onwards, so every
      later datetime of the same year passes too. */
  lemma GoodFridayOnwards(t: int, t': int)
    requires t <= t' && CivilFromDays(Day(t)).year == CivilFromDays(Day(t')).year
    requires Check(t, H_US_GOODFRIDAY_HALFDAY) == Ok(true)
    ensures Check(t', H_US_GOODFRIDAY_HALFDAY) == Ok(true)
  {
    GoodFridayBit();
  }

  lemma GoodFridayBit()
    ensures !Bit(64, 0) && !Bit(64, 1) && !Bit(64, 7) && Bit(64, 6)
  {
    assert Pow2(6) == 64;
    PowerBits(6, 0);
    PowerBits(6, 1);
    PowerBits(6, 6);
    PowerBits(6, 7);
  }

  lemma EasterOf2013()
    ensures Easter(2013) == MonthDay(3, 31)
  {
    assert 2013 % 19 == 18 && 2013 / 100 == 20 && 2013 % 100 == 13;
    assert (19 * 18 + 20 - 20 / 4 - ((20 - (20 + 8) / 25 + 1) / 3) + 15) % 30 == 6;
    assert (32 + 2 * (20 % 4) + 2 * (13 / 4) - 6 - (13 % 4)) % 7 == 3;
    assert 6 + 3 - 7 * ((18 + 11 * 6 + 22 * 3) / 451) + 114 == 123;
  }

  /** Good Friday 2013 was 29 March (Easter Sunday 31 March). */
  lemma GoodFriday2013()
    ensures Easter(2013) == MonthDay(3, 31)
    ensures GoodFridayAfternoon(2013) == DaysFromCivil(2013, 3, 29) * SECONDS_PER_DAY + 13 * 3600
  {
    EasterOf2013();
    EasterDay2013();
    FridayBeforeEaster2013();
    assert GoodFridayAfternoon(2013) == LatestOnOrBefore(15795, 4) * SECONDS_PER_DAY + 13 * 3600;
  }

  lemma EasterDay2013()
    ensures DaysFromCivil(2013, 3, 31) == 15795 && DaysFromCivil(2013, 3, 29) == 15793
  {
  }

  lemma FridayBeforeEaster2013()
    ensures LatestOnOrBefore(15795, 4) == 15793
  {
    assert Weekday(15795) == 6;
  }

  // ---------------------------------------------------------------------------------------------
  // dateCheck

  /** An allow or deny argument: omitted (None), a single flag word, or a list of them. */
  datatype FlagArg = NoneArg | Flag(h: int) | FlagList(hs: seq<int>)

  /** `[arg] if type(arg) != list else arg`: a scalar, None included, is a one-element list. */
  function Items(a: FlagArg): seq<Option<int>>
  {
    match a
    case NoneArg => [None]
    case Flag(h) => [Some(h)]
    case FlagList(hs) => seq(|hs|, i requires 0 <= i < |hs| => Some(hs[i]))
  }

  /** `holiday.check(_dt, item)`; `None & 1` raises TypeError. */
  function CheckItem(t: int, item: Option<int>): Result<bool>
  {
    match item
    case None => Err(TypeError)
    case Some(h) => Check(t, h)
  }

  /** One of dateCheck's loops: the items are checked in order until one holds (Ok(true)) or
      raises; Ok(false) when none holds. */
  function FirstTrue(t: int, items: seq<Option<int>>): Result<bool>
    decreases |items|
  {
    if items == [] then Ok(false)
    else match CheckItem(t, items[0])
         case Err(e) => Err(e)
         case Ok(b) => if b then Ok(true) else FirstTrue(t, items[1..])
  }

  /** dateCheck as written. Its second line tests `allow`, which the first line has already
      replaced by [] when omitted, so `deny` is never defaulted and an omitted deny reaches check
      as None. */
  function DateCheckAsWritten(t: int, allow: FlagArg, deny: FlagArg): Result<bool>
  {
    var allow' := if allow == NoneArg then FlagList([]) else allow;
    var deny' := if allow' == NoneArg then FlagList([]) else deny;
    Decide(FirstTrue(t, Items(allow')), t, deny')
  }

  /** dateCheck with `deny = [] if deny == None else deny`, as the first line is written. */
  function DateCheckIntended(t: int, allow: FlagArg, deny: FlagArg): Result<bool>
  {
    var allow' := if allow == NoneArg then FlagList([]) else allow;
    var deny' := if deny == NoneArg then FlagList([]) else deny;
    Decide(FirstTrue(t, Items(allow')), t, deny')
  }

  /** An allow hit is True; otherwise a deny hit is False; otherwise True. */
  function Decide(allowed: Result<bool>, t: int, deny: FlagArg): Result<bool>
  {
    match allowed
    case Err(e) => Err(e)
    case Ok(a) =>
      if a then Ok(true)
      else match FirstTrue(t, Items(deny))
           case Err(e) => Err(e)
           case Ok(d) => Ok(!d)
  }

  /** dateCheck(_dt, allow, deny) with its two early-return loops. */
  method DateCheck(t: int, allow: FlagArg, deny: FlagArg) returns (r: Result<bool>)
    ensures r == DateCheckAsWritten(t, allow, deny)
  {
    var allow' := if allow == NoneArg then FlagList([]) else allow;
    var deny' := if allow' == NoneArg then FlagList([]) else deny;
    var allowed := Items(allow');
    var i := 0;
    while i < |allowed|
      invariant 0 <= i <= |allowed|
      invariant FirstTrue(t, allowed[i..]) == FirstTrue(t, allowed)
    {
      assert allowed[i..][1..] == allowed[i + 1..];
      var c := CheckItem(t, allowed[i]);
      if c.Err? {
        return Err(c.error);
      }
      if c.value {
        return Ok(true);
      }
      i := i + 1;
    }
    var denied := Items(deny');
    var j := 0;
    while j < |denied|
      invariant 0 <= j <= |denied|
      invariant FirstTrue(t, denied[j..]) == FirstTrue(t, denied)
    {
      assert denied[j..][1..] == denied[j + 1..];
      var c := CheckItem(t, denied[j]);
      if c.Err? {
        return Err(c.error);
      }
      if c.value {
        return Ok(false);
      }
      j := j + 1;
    }
    return Ok(true);
  }

  predicate NoErrors(t: int, items: seq<Option<int>>)
  {
    forall i :: 0 <= i < |items| ==> CheckItem(t, items[i]).Ok?
  }

  predicate SomeHolds(t: int, items: seq<Option<int>>)
  {
    exists i :: 0 <= i < |items| && CheckItem(t, items[i]) == Ok(true)
  }

  /** A loop raises exactly when some item raises before any item holds; when no item raises it
      answers whether some item holds. */
  lemma {:induction false} FirstTrueMeaning(t: int, items: seq<Option<int>>)
    ensures FirstTrue(t, items).Err? <==>
            exists i :: 0 <= i < |items| && CheckItem(t, items[i]).Err? &&
                        forall j :: 0 <= j < i ==> CheckItem(t, items[j]) == Ok(false)
    ensures NoErrors(t, items) ==> FirstTrue(t, items) == Ok(SomeHolds(t, items))
    decreases |items|
  {
    if items != [] {
      FirstTrueMeaning(t, items[1..]);
      var c := CheckItem(t, items[0]);
      if c == Ok(false) {
        if FirstTrue(t, items[1..]).Err? {
          var i :| 0 <= i < |items[1..]| && CheckItem(t, items[1..][i]).Err? &&
                   forall j :: 0 <= j < i ==> CheckItem(t, items[1..][j]) == Ok(false);
          assert CheckItem(t, items[i + 1]).Err?;
          forall j | 0 <= j < i + 1 ensures CheckItem(t, items[j]) == Ok(false) {
            if j > 0 {
              assert items[j] == items[1..][j - 1];
            }
          }
        } else {
          forall i | 0 <= i < |items| && CheckItem(t, items[i]).Err?
            ensures exists j :: 0 <= j < i && CheckItem(t, items[j]) != Ok(false)
          {
            assert i > 0;
            assert items[i] == items[1..][i - 1];
            var j :| 0 <= j < i - 1 && CheckItem(t, items[1..][j]) != Ok(false);
            assert items[j + 1] == items[1..][j];
          }
        }
        if NoErrors(t, items) {
          assert forall i :: 0 <= i < |items[1..]| ==> items[1..][i] == items[i + 1];
          if SomeHolds(t, items[1..]) {
            var i :| 0 <= i < |items[1..]| && CheckItem(t, items[1..][i]) == Ok(true);
            assert CheckItem(t, items[i + 1]) == Ok(true);
          }
          if SomeHolds(t, items) {
            var i :| 0 <= i < |items| && CheckItem(t, items[i]) == Ok(true);
            assert i > 0 && items[1..][i - 1] == items[i];
          }
        }
      } else if c.Err? {
        assert CheckItem(t, items[0]).Err?;
      } else {
        assert CheckItem(t, items[0]) == Ok(true);
      }
    }
  }

  /** Allow/deny precedence of the corrected dateCheck: when no check raises, the answer is True
      iff some allow flag holds or no deny flag holds; an omitted deny is an empty list. */
  lemma DateCheckPrecedence(t: int, allow: FlagArg, deny: FlagArg)
    requires var a := Items(if allow == NoneArg then FlagList([]) else allow);
             var d := Items(if deny == NoneArg then FlagList([]) else deny);
             NoErrors(t, a) && NoErrors(t, d)
    ensures var a := Items(if allow == NoneArg then FlagList([]) else allow);
            var d := Items(if deny == NoneArg then FlagList([]) else deny);
            DateCheckIntended(t, allow, deny) == Ok(SomeHolds(t, a) || !SomeHolds(t, d))
    ensures DateCheckIntended(t, allow, NoneArg) == DateCheckIntended(t, allow, FlagList([]))
  {
    FirstTrueMeaning(t, Items(if allow == NoneArg then FlagList([]) else allow));
    FirstTrueMeaning(t, Items(if deny == NoneArg then FlagList([]) else deny));
  }

  /** As written, a deny that is passed reaches the loops unchanged, as intended; so the
      precedence holds of the code as written whenever deny is given. */
  lemma AsWrittenWithDeny(t: int, allow: FlagArg, deny: FlagArg)
    requires deny != NoneArg
    requires NoErrors(t, Items(if allow == NoneArg then FlagList([]) else allow)) && NoErrors(t, Items(deny))
    ensures DateCheckAsWritten(t, allow, deny) == DateCheckIntended(t, allow, deny)
    ensures DateCheckAsWritten(t, allow, deny)
            == Ok(SomeHolds(t, Items(if allow == NoneArg then FlagList([]) else allow)) || !SomeHolds(t, Items(deny)))
  {
    DateCheckPrecedence(t, allow, deny);
  }

  /** A scalar allow or deny behaves as the one-element list holding it, in both readings. */
  lemma ScalarIsSingleton(t: int, h: int, other: FlagArg)
    ensures DateCheckAsWritten(t, Flag(h), other) == DateCheckAsWritten(t, FlagList([h]), other)
    ensures DateCheckAsWritten(t, other, Flag(h)) == DateCheckAsWritten(t, other, FlagList([h]))
    ensures DateCheckIntended(t, Flag(h), other) == DateCheckIntended(t, FlagList([h]), other)
    ensures DateCheckIntended(t, other, Flag(h)) == DateCheckIntended(t, other, FlagList([h]))
  {
    assert Items(Flag(h)) == Items(FlagList([h]));
  }

  /** As written, the second line never defaults deny: it passes through unchanged, and an
      omitted deny raises TypeError whenever no allow flag holds. */
  lemma OmittedDenyRaises(t: int, allow: FlagArg)
    requires FirstTrue(t, Items(if allow == NoneArg then FlagList([]) else allow)) == Ok(false)
    ensures DateCheckAsWritten(t, allow, NoneArg) == Err(TypeError)
    ensures DateCheckAsWritten(t, NoneArg, NoneArg) == Err(TypeError)
    ensures DateCheckIntended(t, allow, NoneArg) == Ok(true)
  {
  }

  /** The two dateCheck calls of the module's own test: with the NYSE bells and the Good-Friday
      half day denied, 10:00 on Good Friday 2013 passes and 13:01 does not. */
  lemma GoodFridayDenied()
    ensures DateCheckAsWritten(DaysFromCivil(2013, 3, 29) * SECONDS_PER_DAY + 10 * 3600, NoneArg, Flag(67)) == Ok(true)
    ensures DateCheckAsWritten(DaysFromCivil(2013, 3, 29) * SECONDS_PER_DAY + 13 * 3600 + 60, NoneArg, Flag(67)) == Ok(false)
  {
    assert DaysFromCivil(2013, 3, 29) == 15793;
    YearOfGoodFriday2013();
    GoodFriday2013();
    BitsOf67();
    var morning := 15793 * SECONDS_PER_DAY + 10 * 3600;
    var afternoon := 15793 * SECONDS_PER_DAY + 13 * 3600 + 60;
    assert Day(morning) == 15793 && SecondOfDay(morning) == 36000;
    assert Day(afternoon) == 15793 && SecondOfDay(afternoon) == 46860;
    assert Check(morning, 67) == Ok(false);
    assert Check(afternoon, 67) == Ok(true);
  }

  lemma YearOfGoodFriday2013()
    ensures CivilFromDays(15793).year == 2013
  {
    assert (15793 + 719468) / 146097 == 5;
    assert 15793 + 719468 - 5 * 146097 == 4776;
    assert YearOfEra(4776) == (13, 28);
    assert MonthAndDay(28) == (3, 29);
  }

  /** 67 is 64 | 2 | 1. */
  lemma BitsOf67()
    ensures Bit(67, 0) && Bit(67, 1) && Bit(67, 6) && !Bit(67, 7)
  {
    assert Bit(1, 0);
    assert Bit(2, 1);
    assert Bit(4, 2);
    assert Bit(8, 3);
    assert Bit(16, 4);
    assert Bit(33, 5);
    assert Pow2(7) == 128;
    ZeroBits(67, 7, 7);
  }
}
