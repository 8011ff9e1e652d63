/** ISO 8601 week dates, computed from a year, a day of the year and a weekday. */
module IsoWeek {

  const DAYS_PER_WEEK: int := 7

  /** Division that truncates toward zero, as the machine's does. */
  function Quot(x: int, y: int): int
    requires y > 0
  {
    if x >= 0 then x / y else -(-x / y)
  }

  function Rem(x: int, y: int): int
    requires y > 0
  {
    x - y * Quot(x, y)
  }

  // ---- The code ----

  function YearPhase(year: int): int {
    Rem(year + Quot(year, 4) - Quot(year, 100) + Quot(year, 400), DAYS_PER_WEEK)
  }

  function IsoYearWeeks(year: int): int {
    52 + if YearPhase(year) == 4 || YearPhase(year - 1) == 3 then 1 else 0
  }

  function IsoWeekNum(yday: int, wday: int): int {
    Quot(yday + 11 - (if wday == 0 then DAYS_PER_WEEK else wday), DAYS_PER_WEEK)
  }

  function IsoWeekYear(year: int, yday: int, wday: int): int {
    var w := IsoWeekNum(yday, wday);
    if w < 1 then year - 1
    else if w > IsoYearWeeks(year) then year + 1
    else year
  }

  function IsoWeekOfYear(year: int, yday: int, wday: int): int {
    var w := IsoWeekNum(yday, wday);
    if w < 1 then IsoYearWeeks(year - 1)
    else if w > IsoYearWeeks(year) then 1
    else w
  }

  // ---- The proleptic Gregorian calendar ----

  /** Days from 1 January of year 1 to 1 January of year y. */
  function DaysBefore(y: int): int {
    365 * (y - 1) + (y - 1) / 4 - (y - 1) / 100 + (y - 1) / 400
  }

  predicate IsLeap(y: int) {
    y % 4 == 0 && (y % 100 != 0 || y % 400 == 0)
  }

  function YearLength(y: int): int {
    if IsLeap(y) then 366 else 365
  }

  lemma YearsFollow(y: int)
    ensures DaysBefore(y + 1) == DaysBefore(y) + YearLength(y)
  {
    QuotientStep(y, 4);
    QuotientStep(y, 100);
    QuotientStep(y, 400);
    NestedYears(y);
  }

  lemma NestedYears(y: int)
    ensures y % 400 == 0 ==> y % 100 == 0
    ensures y % 100 == 0 ==> y % 4 == 0
  {
    if y % 400 == 0 {
      MultipleOf(y, 4 * (y / 400), 100);
    }
    if y % 100 == 0 {
      MultipleOf(y, 25 * (y / 100), 4);
    }
  }

  lemma MultipleOf(y: int, k: int, d: int)
    requires (d == 4 || d == 100) && y == d * k
    ensures y % d == 0
  {
  }

  lemma QuotientStep(y: int, d: int)
    requires d == 4 || d == 100 || d == 400
    ensures y / d == (y - 1) / d + if y % d == 0 then 1 else 0
  {
  }

  /** Weekday of a day number, Sunday being 0; 1 January of year 1 is a Monday. */
  function Weekday(day: int): int {
    (day + 1) % 7
  }

  predicate InYear(day: int, y: int) {
    DaysBefore(y) <= day < DaysBefore(y + 1)
  }

  lemma {:induction false} YearsApart(y: int, z: int)
    requires y <= z
    ensures DaysBefore(y) + 365 * (z - y) <= DaysBefore(z)
    decreases z - y
  {
    if y < z {
      YearsApart(y, z - 1);
      YearsFollow(z - 1);
    }
  }

  /** A day lies in one year only. */
  lemma YearUnique(day: int, y: int, z: int)
    requires InYear(day, y) && InYear(day, z)
    ensures y == z
  {
    if y < z {
      YearsApart(y + 1, z);
    } else if z < y {
      YearsApart(z + 1, y);
    }
  }

  /** The Thursday of the Monday-to-Sunday week a day belongs to. */
  function ThursdayOf(day: int): int {
    day + 4 - if Weekday(day) == 0 then 7 else Weekday(day)
  }

  lemma ThursdayIsThursday(day: int)
    ensures Weekday(ThursdayOf(day)) == 4 && -3 <= ThursdayOf(day) - day <= 3
  {
  }

  // ---- The code agrees with the calendar ----

  lemma Mod7(q: int, n: int)
    ensures (7 * q + n) % 7 == n % 7
  {
  }

  /** The phase of a year is the weekday of its last day. */
  lemma PhaseIsLastWeekday(y: int)
    requires y >= 0
    ensures YearPhase(y) == Weekday(DaysBefore(y + 1) - 1)
  {
    var n := y + y / 4 - y / 100 + y / 400;
    assert n >= 0;
    assert YearPhase(y) == n % 7;
    assert DaysBefore(y + 1) == 7 * (52 * y) + n;
    Mod7(52 * y, n);
  }

  lemma DayBeforeThursday(day: int)
    ensures Weekday(day - 1) == 3 <==> Weekday(day) == 4
  {
  }

  /** The weeks of a year that starts on day first and has the given length. */
  function WeeksFrom(first: int, length: int): int {
    52 + if Weekday(first) == 4 || Weekday(first + length - 1) == 4 then 1 else 0
  }

  /** A year has 53 weeks exactly when it starts or ends on a Thursday. */
  lemma LongYears(y: int)
    requires y >= -1
    ensures IsoYearWeeks(y) == WeeksFrom(DaysBefore(y), YearLength(y))
  {
    hide YearPhase, DaysBefore, YearLength;
    if y >= 1 {
      YearsFollow(y);
      PhaseIsLastWeekday(y);
      PhaseIsLastWeekday(y - 1);
      DayBeforeThursday(DaysBefore(y));
    } else {
      YearsZero();
    }
  }

  /** The years around zero. */
  lemma YearsZero()
    ensures YearPhase(0) == 0 && YearPhase(-1) == -1 && YearPhase(-2) == -2 && YearPhase(-3) == -3
    ensures DaysBefore(0) == -366 && DaysBefore(-1) == -731 && DaysBefore(-2) == -1096
    ensures YearLength(0) == 366 && YearLength(-1) == 365
  {
    hide Quot, Rem;
    SmallQuotients(0);
    SmallQuotients(-1);
    SmallQuotients(-2);
    SmallQuotients(-3);
  }

  lemma SmallQuotients(y: int)
    requires -3 <= y <= 0
    ensures Quot(y, 4) == 0 && Quot(y, 100) == 0 && Quot(y, 400) == 0 && Rem(y, 7) == y
  {
  }

  /** Thursdays number k and later lie in the year as long as their week number does. */
  lemma ThursdaysInYear(first: int, length: int, k: int)
    requires 365 <= length <= 366 && Weekday(first + k) == 4
    ensures 0 <= k < length <==> 1 <= k / 7 + 1 <= WeeksFrom(first, length)
  {
    var m := (first + k + 1) / 7;
    assert first + 1 == 7 * m + 4 - k;
    var a := k / 7;
    var b := k % 7;
    assert k == 7 * a + b;
    StartsOnThursday(m - a, b);
    assert first + 1 == 7 * (m - a) + 4 - b;
    EndsOnThursday(m - a, b, length);
  }

  lemma StartsOnThursday(q: int, b: int)
    requires 0 <= b < 7
    ensures (7 * q + 4 - b) % 7 == 4 <==> b == 0
  {
  }

  lemma EndsOnThursday(q: int, b: int, length: int)
    requires 0 <= b < 7 && 365 <= length <= 366
    ensures (7 * q + 4 - b + length - 1) % 7 == 4 <==> b == length - 365
  {
  }

  /** A Thursday in the last days of the year before belongs to that year's last week. */
  lemma ThursdayBefore(first: int, length: int, k: int)
    requires 365 <= length <= 366 && Weekday(first + k) == 4 && -3 <= k < 0
    ensures (length + k) / 7 + 1 == WeeksFrom(first - length, length)
  {
    ThursdaysInYear(first - length, length, length + k);
    ThursdaysInYear(first - length, length, length + k + 7);
    Mod7(1, first + k + 1);
  }

  /** Year and week of the code are those of the Thursday of the week. */
  predicate IsThursdaysWeek(year: int, yday: int) {
    var day := DaysBefore(year) + yday;
    var wday, thursday := Weekday(day), ThursdayOf(day);
    var y := IsoWeekYear(year, yday, wday);
    InYear(thursday, y) && IsoWeekOfYear(year, yday, wday) == (thursday - DaysBefore(y)) / 7 + 1
  }

  lemma IsoWeekDate(year: int, yday: int)
    requires year >= 0 && 0 <= yday < YearLength(year)
    ensures IsThursdaysWeek(year, yday)
  {
    hide YearPhase, DaysBefore, YearLength, IsoWeekNum, IsoYearWeeks;
    LengthRange(year);
    LengthRange(year - 1);
    LengthRange(year + 1);
    var first := DaysBefore(year);
    var day := first + yday;
    var k := ThursdayOf(day) - first;
    ThursdayIsThursday(day);
    ThursdaysInYear(first, YearLength(year), k);
    YearsFollow(year);
    YearsFollow(year - 1);
    YearsFollow(year + 1);
    LongYears(year);
    WeekNumber(yday, Weekday(day), k);
    if k < 0 {
      LongYears(year - 1);
      ThursdayBefore(first, YearLength(year - 1), k);
    }
  }

  lemma LengthRange(y: int)
    ensures 365 <= YearLength(y) <= 366
  {
  }

  lemma WeekNumber(yday: int, wday: int, k: int)
    requires yday >= 0 && 0 <= wday < 7 && k == yday + 4 - if wday == 0 then 7 else wday
    ensures IsoWeekNum(yday, wday) == k / 7 + 1
  {
  }

  // ---- Negative years ----

  /** The remainders of negative years are never positive, so no negative year gets 53 weeks. */
  lemma NegativeYearsAreShort(y: int)
    requires y < 0
    ensures IsoYearWeeks(y) == 52
  {
    hide Quot, Rem;
    NegativePhase(y);
    NegativePhase(y - 1);
  }

  lemma NegativePhase(y: int)
    requires y < 0
    ensures YearPhase(y) <= 0
  {
    hide Rem;
    var n := y + Quot(y, 4) - Quot(y, 100) + Quot(y, 400);
    assert n <= 0;
    NegativeRemainder(n);
  }

  lemma NegativeRemainder(n: int)
    requires n <= 0
    ensures Rem(n, 7) <= 0
  {
  }

  /** The year whose length decides the week of a day near the turn of the year. */
  function DecidingYear(year: int, w: int): int {
    if w < 1 then year - 1 else year
  }

  /**
   For all years: the week date is right except at the turn of a negative year, when the year that decides it has
   53 weeks.
   */
  lemma IsoWeekDateExactly(year: int, yday: int)
    requires 0 <= yday < YearLength(year)
    ensures var w := IsoWeekNum(yday, Weekday(DaysBefore(year) + yday));
            var y := DecidingYear(year, w);
            IsThursdaysWeek(year, yday) <==>
            year >= 0 || 1 <= w <= 52 || WeeksFrom(DaysBefore(y), YearLength(y)) == 52
  {
    if year >= 0 {
      IsoWeekDate(year, yday);
    } else {
      NegativeYear(year, yday);
    }
  }

  lemma NegativeYear(year: int, yday: int)
    requires year < 0 && 0 <= yday < YearLength(year)
    ensures var w := IsoWeekNum(yday, Weekday(DaysBefore(year) + yday));
            var y := DecidingYear(year, w);
            IsThursdaysWeek(year, yday) <==> 1 <= w <= 52 || WeeksFrom(DaysBefore(y), YearLength(y)) == 52
  {
    hide YearPhase, DaysBefore, YearLength, IsoWeekNum, IsoYearWeeks;
    LengthRange(year);
    LengthRange(year - 1);
    LengthRange(year + 1);
    var first := DaysBefore(year);
    var day := first + yday;
    var k := ThursdayOf(day) - first;
    ThursdayIsThursday(day);
    ThursdaysInYear(first, YearLength(year), k);
    YearsFollow(year);
    YearsFollow(year - 1);
    YearsFollow(year + 1);
    NegativeYearsAreShort(year);
    NegativeYearsAreShort(year - 1);
    WeekNumber(yday, Weekday(day), k);
    if k < 0 {
      ThursdayBefore(first, YearLength(year - 1), k);
    }
  }

  /** One such day: the first of year -1 belongs to week 53 of year -2 and is put into week 52. */
  lemma NegativeYearsFail()
    ensures Weekday(DaysBefore(-1)) == 5
    ensures IsoWeekYear(-1, 0, 5) == -2 && IsoWeekOfYear(-1, 0, 5) == 52
    ensures InYear(ThursdayOf(DaysBefore(-1)), -2)
    ensures (ThursdayOf(DaysBefore(-1)) - DaysBefore(-2)) / 7 + 1 == 53 && !IsThursdaysWeek(-1, 0)
  {
    hide YearPhase, DaysBefore, YearLength;
    YearsZero();
  }
}
