/** Calendar arithmetic on millisecond clock readings: the local midnight that starts the
    current day, the local midnight that starts the current month, and the UTC day of an
    instant. Local time is UTC shifted by a fixed zone offset. */
module Calendar {

  /** Milliseconds in a day. */
  const DayMs: int := 86400000

  /** The day number (days since 1970-01-01) holding the instant `ms`, in the time zone
      `offset` milliseconds ahead of UTC. */
  function LocalDay(ms: int, offset: int): (d: int)
    ensures d * DayMs <= ms + offset < (d + 1) * DayMs
  {
    (ms + offset) / DayMs
  }

  /** The UTC day of an instant: what `toISOString().split("T")[0]` names. */
  function UtcDay(ms: int): (d: int)
    ensures d * DayMs <= ms < (d + 1) * DayMs
  {
    LocalDay(ms, 0)
  }

  /** The day of the month (proleptic Gregorian calendar) of day number `z`, by the
      days-to-civil conversion of H. Hinnant's date algorithms: `era` counts 400-year
      cycles starting on 0000-03-01, `doe` is the day within the cycle, `yoe` the year
      within the cycle and `doy` the day within a year that starts on March 1st. */
  function DayOfMonth(z: int): (day: int)
    ensures 1 <= day <= 31
  {
    MonthDay(YearDay(DayOfCycle(z)))
  }

  /** The day `doe` of the 400-year cycle holding day number `z`. */
  function DayOfCycle(z: int): (doe: int)
    ensures 0 <= doe < 146097
  {
    (z + 719468) % 146097
  }

  /** The year `yoe` of its cycle holding day `doe`. */
  function CycleYear(doe: int): int {
    CommonDays(doe) / 365
  }

  /** The day `doy` of its March-based year holding day `doe` of a cycle. */
  function YearDay(doe: int): int {
    doe - YearStart(CycleYear(doe))
  }

  /** Day `doe` of a 400-year cycle, counted as if every year had 365 days: the leap
      days (every fourth year but the hundredth, and the four-hundredth) taken out. */
  function CommonDays(doe: int): int {
    doe - doe / 1460 + doe / 36524 - doe / 146096
  }

  /** The first day of year `yoe` of a cycle. */
  function YearStart(yoe: int): int {
    365 * yoe + yoe / 4 - yoe / 100
  }

  /** The day of the month for day `doy` of a March-based year. */
  function MonthDay(doy: int): (day: int)
    ensures 1 <= day <= 31
  {
    var mp := (5 * doy + 2) / 153;
    MonthDayBounds(doy, mp);
    doy - (153 * mp + 2) / 5 + 1
  }

  lemma MonthDayBounds(doy: int, mp: int)
    requires mp == (5 * doy + 2) / 153
    ensures 0 <= doy - (153 * mp + 2) / 5 <= 30
  {
    assert 153 * mp <= 5 * doy + 2 < 153 * mp + 153;
    var q := (153 * mp + 2) / 5;
    assert 5 * q <= 153 * mp + 2 < 5 * q + 5;
  }

  /** One more day of the cycle never lowers the common-day count. */
  lemma CommonDaysStep(a: int)
    requires 0 <= a < 146096
    ensures CommonDays(a) <= CommonDays(a + 1)
  {
    assert (a + 1) / 1460 <= a / 1460 + 1;
    assert a / 36524 <= (a + 1) / 36524;
    if a + 1 == 146096 {
      assert (a + 1) / 36524 == 4 && a / 36524 == 3;
      assert (a + 1) / 146096 == 1 && a / 146096 == 0;
    } else {
      assert (a + 1) / 146096 == 0 && a / 146096 == 0;
    }
  }

  /** The common-day count is non-decreasing along a cycle. */
  lemma {:induction false} CommonDaysMonotone(a: int, b: int)
    requires 0 <= a <= b <= 146096
    ensures CommonDays(a) <= CommonDays(b)
    decreases b - a
  {
    if a < b {
      CommonDaysStep(a);
      CommonDaysMonotone(a + 1, b);
    }
  }

  /** The first day of year `y` of a cycle counts exactly `y` common years. */
  lemma CommonDaysYearStart(y: int)
    requires 0 <= y <= 399
    ensures CommonDays(YearStart(y)) == 365 * y
  {
    var c := y / 100;
    var e := (y % 100) / 4;
    var r := y % 4;
    assert y == 100 * c + 4 * e + r;
    assert y / 4 == 25 * c + e;
    var start := YearStart(y);
    assert start == 36524 * c + 1461 * e + 365 * r;
    assert start == 1460 * (25 * c + e) + (24 * c + e + 365 * r);
    assert start / 1460 == 25 * c + e;
    assert start / 36524 == c;
    assert start / 146096 == 0;
  }

  /** The day before the first day of year `y` (past the first) counts fewer than `y`
      common years. */
  lemma CommonDaysBeforeYear(y: int)
    requires 1 <= y <= 399
    ensures CommonDays(YearStart(y) - 1) < 365 * y
  {
    var c := y / 100;
    var e := (y % 100) / 4;
    var r := y % 4;
    assert y == 100 * c + 4 * e + r;
    assert y / 4 == 25 * c + e;
    var last := YearStart(y) - 1;
    assert last == 36524 * c + 1461 * e + 365 * r - 1;
    if e == 0 && r == 0 {
      assert last == 1460 * (25 * c) + (24 * c - 1);
      assert last / 1460 == 25 * c;
      assert last == 36524 * (c - 1) + 36523;
      assert last / 36524 == c - 1;
    } else {
      assert last == 1460 * (25 * c + e) + (24 * c + e + 365 * r - 1);
      assert last / 1460 == 25 * c + e;
      assert last / 36524 == c;
    }
    assert last / 146096 == 0;
  }

  /** Monotonicity of the common-day count, stated for any two days of a cycle. */
  lemma CommonDaysOrder(a: int, b: int)
    requires 0 <= a <= 146096 && 0 <= b <= 146096
    ensures a <= b ==> CommonDays(a) <= CommonDays(b)
  {
    if a <= b {
      CommonDaysMonotone(a, b);
    }
  }

  /** The year of the cycle holding a day of the cycle, with the bounds that place the day
      in it. */
  lemma YearOfCycle(doe: int)
    requires 0 <= doe < 146097
    ensures 0 <= CycleYear(doe) <= 399
    ensures 0 <= YearStart(CycleYear(doe)) && 0 <= YearDay(doe) <= doe
  {
    CommonDaysMonotone(0, doe);
    CommonDaysMonotone(doe, 146096);
    assert 0 <= CommonDays(doe) <= 145999;
    var y := CommonDays(doe) / 365;
    assert 365 * y <= CommonDays(doe);
    assert 0 <= YearStart(y) by {
      assert y / 4 - y / 100 >= 0;
    }
    if y >= 1 {
      assert 1 <= YearStart(y) <= 145731;
      CommonDaysBeforeYear(y);
      CommonDaysOrder(doe, YearStart(y) - 1);
    }
  }

  /** Going back `j` days from day number `z`, with `j` at most its day of the cycle,
      stays in the cycle. */
  lemma CycleBack(z: int, j: int)
    requires 0 <= j <= DayOfCycle(z)
    ensures DayOfCycle(z - j) == DayOfCycle(z) - j
  {
    var era := (z + 719468) / 146097;
    var doe := (z + 719468) % 146097;
    assert z - j + 719468 == era * 146097 + (doe - j);
  }

  /** Going back `j` days from day `doe` of a cycle, without passing the start of its
      year, stays in that year. */
  lemma YearBack(doe: int, j: int)
    requires 0 <= doe < 146097
    requires 0 <= j <= YearDay(doe)
    ensures CycleYear(doe - j) == CycleYear(doe)
    ensures YearDay(doe - j) == YearDay(doe) - j
  {
    var y := CycleYear(doe);
    YearOfCycle(doe);
    var s := YearStart(y);
    CommonDaysYearStart(y);
    CommonDaysMonotone(s, doe - j);
    CommonDaysMonotone(doe - j, doe);
    SameYear(CommonDays(s), CommonDays(doe - j), CommonDays(doe), y);
  }

  /** A count of days between the start of common year `y` and a later count in the same
      year lies in that year too. */
  lemma SameYear(lo: int, x: int, hi: int, y: int)
    requires lo == 365 * y && lo <= x <= hi && hi / 365 == y
    ensures x / 365 == y
  {
  }

  /** Going back `j` days from day `doy` of a March-based year, without passing the first
      of its month, lowers the day of the month by `j`. */
  lemma MonthBack(doy: int, j: int)
    requires 0 <= doy && 0 <= j < MonthDay(doy)
    ensures j <= doy
    ensures MonthDay(doy - j) == MonthDay(doy) - j
  {
    var mp := (5 * doy + 2) / 153;
    var s := (153 * mp + 2) / 5;
    assert 0 <= mp;
    assert 5 * s <= 153 * mp + 2 < 5 * s + 5;
    assert doy - j >= s;
    assert 153 * mp <= 5 * (doy - j) + 2;
    assert (5 * (doy - j) + 2) / 153 == mp;
  }

  /** Going back `j` days from day `z` that stay inside its month lowers the day of the
      month by `j`. */
  lemma DayOfMonthBack(z: int, j: int)
    requires 0 <= j < DayOfMonth(z)
    ensures DayOfMonth(z - j) == DayOfMonth(z) - j
  {
    var doe := DayOfCycle(z);
    var doy := YearDay(doe);
    YearOfCycle(doe);
    MonthBack(doy, j);
    CycleBack(z, j);
    YearBack(doe, j);
    assert YearDay(DayOfCycle(z - j)) == doy - j;
  }

  /** `new Date(y, m, d)` for today's date: the instant of the local midnight that starts
      the day holding `now`. */
  function Today(now: int, offset: int): (t: int)
    ensures t <= now < t + DayMs
    ensures (t + offset) % DayMs == 0
  {
    LocalDay(now, offset) * DayMs - offset
  }

  /** `new Date(y, m, 1)`: the instant of the local midnight that starts the month holding
      `now`: a local midnight at most 30 days before today's, on a first of the month, with
      no other first of the month between it and today. */
  function MonthStart(now: int, offset: int): (t: int)
    ensures t <= Today(now, offset) <= t + 30 * DayMs
    ensures (t + offset) % DayMs == 0
    ensures DayOfMonth(LocalDay(t, offset)) == 1
    ensures forall z :: LocalDay(t, offset) < z <= LocalDay(now, offset) ==> DayOfMonth(z) != 1
  {
    var d := LocalDay(now, offset);
    var k := DayOfMonth(d) - 1;
    DaysBefore(d, k, offset);
    FirstOfMonth(d);
    (d - k) * DayMs - offset
  }

  /** Going back `k` whole days from a local midnight lands on a local midnight. */
  lemma DaysBefore(d: int, k: int, offset: int)
    requires 0 <= k <= 30
    ensures (d - k) * DayMs - offset <= d * DayMs - offset <= (d - k) * DayMs - offset + 30 * DayMs
    ensures ((d - k) * DayMs - offset + offset) % DayMs == 0
    ensures LocalDay((d - k) * DayMs - offset, offset) == d - k
  {
    assert (d - k) * DayMs == d * DayMs - k * DayMs;
  }

  /** Day `z - DayOfMonth(z) + 1` is the first of `z`'s month, and no day after it up to
      `z` is a first. */
  lemma FirstOfMonth(z: int)
    ensures DayOfMonth(z - (DayOfMonth(z) - 1)) == 1
    ensures forall y :: z - (DayOfMonth(z) - 1) < y <= z ==> DayOfMonth(y) != 1
  {
    var d := DayOfMonth(z);
    DayOfMonthBack(z, d - 1);
    forall y | z - (d - 1) < y <= z
      ensures DayOfMonth(y) != 1
    {
      LaterInMonth(z, y);
    }
  }

  /** A day after the first of `z`'s month, up to `z`, is not a first. */
  lemma LaterInMonth(z: int, y: int)
    requires z - (DayOfMonth(z) - 1) < y <= z
    ensures DayOfMonth(y) >= 2
  {
    var j := z - y;
    DayOfMonthBack(z, j);
    assert z - j == y;
  }
}
