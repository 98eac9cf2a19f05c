/** The day count to calendar conversion behind every ledger timestamp, against the calendar itself. */
module CivilDate {
  import opened Wrappers

  datatype DateTime = DateTime(year: int, month: int, day: int, hour: int, minute: int, second: int)

  /* ---- The Gregorian calendar (section 5.7 and appendix C of RFC 3339) ---- */

  predicate Leap(year: int) {
    year % 4 == 0 && (year % 100 != 0 || year % 400 == 0)
  }

  function YearLength(year: int): int {
    if Leap(year) then 366 else 365
  }

  function MonthLength(year: int, month: int): int {
    if month == 2 then (if Leap(year) then 29 else 28)
    else if month == 4 || month == 6 || month == 9 || month == 11 then 30
    else 31
  }

  predicate Valid(t: DateTime) {
    && 1970 <= t.year && 1 <= t.month <= 12 && 1 <= t.day <= MonthLength(t.year, t.month)
    && 0 <= t.hour < 24 && 0 <= t.minute < 60 && 0 <= t.second < 60
  }

  /** Days from 1970 to the start of a year, year by year. */
  function DaysBeforeYear(year: int): int
    decreases year
  {
    if year <= 1970 then 0 else DaysBeforeYear(year - 1) + YearLength(year - 1)
  }

  /** Days from the start of a year to the start of a month, month by month. */
  function DaysBeforeMonth(year: int, month: int): int
    decreases month
  {
    if month <= 1 then 0 else DaysBeforeMonth(year, month - 1) + MonthLength(year, month - 1)
  }

  function UnixDays(year: int, month: int, day: int): int {
    DaysBeforeYear(year) + DaysBeforeMonth(year, month) + day - 1
  }

  /** Seconds since 1970, leap seconds aside. */
  function UnixSeconds(t: DateTime): int {
    86_400 * UnixDays(t.year, t.month, t.day) + 3_600 * t.hour + 60 * t.minute + t.second
  }

  /* ---- The conversion ---- */

  /** Rust's `as i32`. */
  function AsI32(n: int): (r: int)
    ensures -0x8000_0000 <= r < 0x8000_0000
    ensures -0x8000_0000 <= n < 0x8000_0000 ==> r == n
  {
    var m := n % 0x1_0000_0000;
    if m < 0x8000_0000 then m else m - 0x1_0000_0000
  }

  /** Year of the 400-year era that starts in March, from the day of the era. */
  function YearOfEra(doe: int): int {
    (doe - doe / 1460 + doe / 36_524 - doe / 146_096) / 365
  }

  function MonthPart(doy: int): int {
    (5 * doy + 2) / 153
  }

  /** Year, month and day before the year is narrowed. */
  function CivilFromDays(days: nat): (int, int, int) {
    var z := days + 719_468;
    var era := z / 146_097;
    var doe := z - era * 146_097;
    var yoe := YearOfEra(doe);
    var y := yoe + era * 400;
    var doy := doe - (365 * yoe + yoe / 4 - yoe / 100);
    var mp := MonthPart(doy);
    var d := doy - (153 * mp + 2) / 5 + 1;
    var m := if mp < 10 then mp + 3 else mp - 9;
    (if m <= 2 then y + 1 else y, m, d)
  }

  /** `unix_to_ymd_hms`. */
  function UnixToYmdHms(secs: u64): DateTime {
    var (y, m, d) := CivilFromDays(secs / 86_400);
    var tod := secs % 86_400;
    DateTime(AsI32(y), m, d, tod / 3_600, tod % 3_600 / 60, tod % 60)
  }

  /* ---- Arithmetic of the era ---- */

  /** Days of the era before one of its years. */
  function EraYearStart(yoe: int): int {
    365 * yoe + yoe / 4 - yoe / 100
  }

  ghost predicate InEraYear(doe: int) {
    var y := YearOfEra(doe);
    0 <= y < 400 && EraYearStart(y) <= doe && (y == 399 || doe < EraYearStart(y + 1))
  }

  /**
    A day of the era as century, four-year cycle and day of the cycle. The quotient of the day by
    1460 exceeds the one by 1461 by at most one, and only near the end of a cycle.
   */
  lemma YearOfCycle(c: int, q: int, s: int, a: int, y: int)
    requires 0 <= c < 4 && 0 <= q < 25 && 0 <= s < 1461
    requires 1460 * a <= 36_524 * c + 1461 * q + s < 1460 * (a + 1)
    requires 365 * y <= 36_525 * c + 1461 * q + s - a < 365 * (y + 1)
    ensures y == 100 * c + 4 * q + (if s == 1460 then 3 else s / 365)
  {
    assert a == 25 * c + q || a == 25 * c + q + 1;
  }

  lemma CycleStart(c: int, q: int, k: int)
    requires 0 <= c < 4 && 0 <= q < 25 && 0 <= k <= 4
    ensures EraYearStart(100 * c + 4 * q + k) == 36_524 * c + 1461 * q + 365 * k + (if k == 4 && q < 24 then 1 else 0)
  {
  }

  lemma YearOfEraBounds(doe: int)
    requires 0 <= doe < 146_097
    ensures InEraYear(doe)
  {
    hide EraYearStart;
    if doe < 146_096 {
      var c := doe / 36_524;
      var r := doe - 36_524 * c;
      var q, s := r / 1461, r % 1461;
      YearOfCycle(c, q, s, doe / 1460, YearOfEra(doe));
      var k := if s == 1460 then 3 else s / 365;
      CycleStart(c, q, k);
      CycleStart(c, q, k + 1);
    } else {
      CycleStart(3, 24, 3);
    }
  }

  /** The month table, March first. */
  function MarchOffset(mp: int): int {
    (153 * mp + 2) / 5
  }

  lemma MonthPartBounds(doy: int)
    requires 0 <= doy <= 365
    ensures var mp := MonthPart(doy);
      0 <= mp <= 11 && MarchOffset(mp) <= doy && (mp == 11 || doy < MarchOffset(mp + 1))
  {
  }

  /* ---- The calendar in closed form ---- */

  /** Leap years up to and including a year, of all counted from year 0. */
  function LeapCount(year: int): int {
    year / 4 - year / 100 + year / 400
  }

  lemma QuotientStep4(n: int)
    ensures (n + 1) / 4 == n / 4 + if (n + 1) % 4 == 0 then 1 else 0
  {
  }

  lemma QuotientStep100(n: int)
    ensures (n + 1) / 100 == n / 100 + if (n + 1) % 100 == 0 then 1 else 0
  {
  }

  lemma QuotientStep400(n: int)
    ensures (n + 1) / 400 == n / 400 + if (n + 1) % 400 == 0 then 1 else 0
  {
  }

  lemma CenturyIsFourth(n: int)
    ensures n % 100 == 0 ==> n % 4 == 0
  {
    assert n == 100 * (n / 100) + n % 100;
  }

  lemma EraIsCentury(n: int)
    ensures n % 400 == 0 ==> n % 100 == 0
  {
    assert n == 400 * (n / 400) + n % 400;
  }

  lemma LeapStep(year: int)
    ensures LeapCount(year + 1) == LeapCount(year) + (if Leap(year + 1) then 1 else 0)
  {
    QuotientStep4(year);
    QuotientStep100(year);
    QuotientStep400(year);
    CenturyIsFourth(year + 1);
    EraIsCentury(year + 1);
  }

  lemma {:induction false} YearStart(year: int)
    requires year >= 1970
    ensures DaysBeforeYear(year) == 365 * (year - 1970) + LeapCount(year - 1) - 477
    decreases year
  {
    hide Leap, LeapCount;
    if year > 1970 {
      YearStart(year - 1);
      LeapStep(year - 2);
    } else {
      LeapsBefore1970();
    }
  }

  lemma LeapsBefore1970()
    ensures LeapCount(1969) == 477
  {
  }

  /** Months from March on, counted from the start of their year. */
  lemma MonthStart(year: int, month: int)
    requires 1 <= month <= 12
    ensures DaysBeforeMonth(year, month) ==
      if month <= 2 then 31 * (month - 1) else 59 + (if Leap(year) then 1 else 0) + MarchOffset(month - 3)
    ensures DaysBeforeMonth(year, month) + MonthLength(year, month)
      == if month == 12 then YearLength(year) else DaysBeforeMonth(year, month + 1)
  {
    hide Leap;
    assert DaysBeforeMonth(year, 1) == 0;
    assert DaysBeforeMonth(year, 2) == 31;
    assert DaysBeforeMonth(year, 3) == 59 + if Leap(year) then 1 else 0;
    assert DaysBeforeMonth(year, 4) == DaysBeforeMonth(year, 3) + 31;
    assert DaysBeforeMonth(year, 5) == DaysBeforeMonth(year, 4) + 30;
    assert DaysBeforeMonth(year, 6) == DaysBeforeMonth(year, 5) + 31;
    assert DaysBeforeMonth(year, 7) == DaysBeforeMonth(year, 6) + 30;
    assert DaysBeforeMonth(year, 8) == DaysBeforeMonth(year, 7) + 31;
    assert DaysBeforeMonth(year, 9) == DaysBeforeMonth(year, 8) + 31;
    assert DaysBeforeMonth(year, 10) == DaysBeforeMonth(year, 9) + 30;
    assert DaysBeforeMonth(year, 11) == DaysBeforeMonth(year, 10) + 31;
    assert DaysBeforeMonth(year, 12) == DaysBeforeMonth(year, 11) + 30;
  }

  /* ---- The conversion is exact ---- */

  /** Days since the first of March of year 0 up to the first of March of a year. */
  function MarchStart(year: int): int {
    365 * year + LeapCount(year)
  }

  lemma EraSplits(era: int, yoe: int)
    requires 0 <= yoe < 400
    ensures MarchStart(400 * era + yoe) == 146_097 * era + EraYearStart(yoe)
  {
    assert (400 * era + yoe) / 4 == 100 * era + yoe / 4;
    assert (400 * era + yoe) / 100 == 4 * era + yoe / 100;
    assert (400 * era + yoe) / 400 == era;
  }

  /** The March-based year of a day. */
  lemma MarchYear(z: nat)
    ensures var era := z / 146_097;
      var doe := z - era * 146_097;
      var y := YearOfEra(doe) + 400 * era;
      && 0 <= y && 0 <= doe < 146_097 && doe - EraYearStart(YearOfEra(doe)) == z - MarchStart(y)
      && MarchStart(y) <= z < MarchStart(y + 1)
  {
    hide YearOfEra, EraYearStart, MarchStart;
    var era := z / 146_097;
    var doe := z - era * 146_097;
    YearOfEraBounds(doe);
    var yoe := YearOfEra(doe);
    EraSplits(era, yoe);
    if yoe < 399 {
      EraSplits(era, yoe + 1);
    } else {
      EraSplits(era + 1, 0);
      assert 400 * (era + 1) + 0 == 400 * era + yoe + 1;
      assert EraYearStart(0) == 0 by {
        EraStartsAtZero();
      }
    }
  }

  lemma EraStartsAtZero()
    ensures EraYearStart(0) == 0
  {
  }

  lemma {:induction false} MarchStartsGrow(a: int, b: int)
    requires a <= b
    ensures MarchStart(a) <= MarchStart(b)
    decreases b - a
  {
    hide LeapCount, Leap;
    if a < b {
      MarchStartsGrow(a, b - 1);
      LeapStep(b - 1);
    }
  }

  /** Day 719468 is the first of January 1970. */
  lemma YearFrom1970(z: nat, y: int)
    requires z >= 719_468 && MarchStart(y) <= z < MarchStart(y + 1)
    ensures y >= 1970 || (y == 1969 && z - MarchStart(y) >= 306)
  {
    assert MarchStart(1969) == 719_162;
    if y < 1969 {
      MarchStartsGrow(y + 1, 1969);
    }
  }

  predicate ValidDate(year: int, month: int, day: int) {
    1970 <= year && 1 <= month <= 12 && 1 <= day <= MonthLength(year, month)
  }

  function DayPart(doy: int): int {
    doy - MarchOffset(MonthPart(doy)) + 1
  }

  /** Days from March to December. */
  lemma MarchToDecember(y: int, doy: int)
    requires 0 <= doy < 306
    ensures var mp, d := MonthPart(doy), DayPart(doy);
      && 0 <= mp < 10 && 1 <= d <= MonthLength(y, mp + 3)
      && DaysBeforeMonth(y, mp + 3) + d - 1 == 59 + (if Leap(y) then 1 else 0) + doy
  {
    hide Leap, DaysBeforeMonth;
    MonthPartBounds(doy);
    MonthStart(y, MonthPart(doy) + 3);
  }

  /** Days of January and February, which belong to the next calendar year. */
  lemma JanuaryFebruary(y: int, doy: int)
    requires 306 <= doy < 365 + if Leap(y + 1) then 1 else 0
    ensures var mp, d := MonthPart(doy), DayPart(doy);
      && 10 <= mp <= 11 && 1 <= d <= MonthLength(y + 1, mp - 9)
      && DaysBeforeMonth(y + 1, mp - 9) + d - 1 == doy - 306
  {
    hide Leap, DaysBeforeMonth;
    MonthPartBounds(doy);
    MonthStart(y + 1, MonthPart(doy) - 9);
  }

  /** The conversion in terms of the March-based year and its day. */
  lemma CivilFields(days: nat) returns (y: int, doy: int)
    ensures doy == days + 719_468 - MarchStart(y) && MarchStart(y) <= days + 719_468 < MarchStart(y + 1)
    ensures var mp := MonthPart(doy);
      0 <= mp <= 11 ==>
        CivilFromDays(days) == (if mp < 10 then y else y + 1, if mp < 10 then mp + 3 else mp - 9, DayPart(doy))
  {
    hide YearOfEra, MonthPart;
    var z := days + 719_468;
    MarchYear(z);
    var era := z / 146_097;
    var doe := z - era * 146_097;
    var yoe := YearOfEra(doe);
    y := yoe + era * 400;
    doy := doe - (365 * yoe + yoe / 4 - yoe / 100);
    assert doy == z - MarchStart(y);
  }

  /** The converted date is valid and has the day number converted. */
  lemma CivilIsExact(days: nat)
    ensures var (y, m, d) := CivilFromDays(days);
      ValidDate(y, m, d) && UnixDays(y, m, d) == days
  {
    hide CivilFromDays, Leap, LeapCount, DaysBeforeYear, DaysBeforeMonth, MonthPart, MonthLength, DayPart;
    var y, doy := CivilFields(days);
    YearFrom1970(days + 719_468, y);
    LeapStep(y);
    LeapStep(y - 1);
    if doy < 306 {
      MarchToDecember(y, doy);
      YearStart(y);
    } else {
      JanuaryFebruary(y, doy);
      YearStart(y + 1);
    }
  }

  /** First second whose year does not fit 32 bits. */
  const FIRST_WIDE_SECOND: int := 67_767_976_233_532_800

  /** A calendar time that names a second. */
  predicate Names(t: DateTime, secs: int) {
    Valid(t) && UnixSeconds(t) == secs
  }

  lemma {:induction false} YearsGrow(a: int, b: int)
    requires 1970 <= a <= b
    ensures DaysBeforeYear(a) + 365 * (b - a) <= DaysBeforeYear(b)
    decreases b - a
  {
    if a < b {
      YearsGrow(a, b - 1);
    }
  }

  /** Days within a year stay within it. */
  lemma DayInYear(y: int, m: int, d: int)
    requires ValidDate(y, m, d)
    ensures 0 <= DaysBeforeMonth(y, m) + d - 1 < YearLength(y)
  {
    hide Leap;
    MonthStart(y, m);
    if m < 12 {
      MonthStart(y, 12);
      if m < 11 {
        MonthStart(y, m + 1);
      }
    }
  }

  predicate DateBefore(y: int, m: int, d: int, y': int, m': int, d': int) {
    y < y' || (y == y' && (m < m' || (m == m' && d < d')))
  }

  lemma MonthsGrow(y: int, m: int, n: int)
    requires 1 <= m < n <= 12
    ensures DaysBeforeMonth(y, m) + MonthLength(y, m) <= DaysBeforeMonth(y, n)
    decreases n - m
  {
    if m + 1 < n {
      MonthsGrow(y, m, n - 1);
    }
  }

  /** Earlier dates have smaller day numbers. */
  lemma DatesGrow(y: int, m: int, d: int, y': int, m': int, d': int)
    requires ValidDate(y, m, d) && ValidDate(y', m', d') && DateBefore(y, m, d, y', m', d')
    ensures UnixDays(y, m, d) < UnixDays(y', m', d')
  {
    hide Leap;
    if y < y' {
      DayInYear(y, m, d);
      DayInYear(y', m', d');
      YearsGrow(y + 1, y');
      assert DaysBeforeYear(y + 1) == DaysBeforeYear(y) + YearLength(y);
    } else if m < m' {
      MonthsGrow(y, m, m');
    }
  }

  /** Lexicographic order of the six fields. */
  predicate Before(a: DateTime, b: DateTime) {
    || DateBefore(a.year, a.month, a.day, b.year, b.month, b.day)
    || ((a.year, a.month, a.day) == (b.year, b.month, b.day)
        && (a.hour < b.hour || (a.hour == b.hour && (a.minute < b.minute || (a.minute == b.minute && a.second < b.second)))))
  }

  /** Valid times are ordered as the seconds they name, so no second has two names. */
  lemma OrderedAsSeconds(a: DateTime, b: DateTime)
    requires Valid(a) && Valid(b)
    ensures Before(a, b) <==> UnixSeconds(a) < UnixSeconds(b)
    ensures UnixSeconds(a) == UnixSeconds(b) ==> a == b
  {
    hide UnixDays, MonthLength;
    assert ValidDate(a.year, a.month, a.day) && ValidDate(b.year, b.month, b.day);
    if DateBefore(a.year, a.month, a.day, b.year, b.month, b.day) {
      DatesGrow(a.year, a.month, a.day, b.year, b.month, b.day);
    } else if DateBefore(b.year, b.month, b.day, a.year, a.month, a.day) {
      DatesGrow(b.year, b.month, b.day, a.year, a.month, a.day);
    }
  }

  lemma LeapsBeforeWide(year: int)
    requires year == 0x7fff_ffff
    ensures LeapCount(year) == 520_764_784
  {
  }

  lemma WideSecond()
    ensures UnixSeconds(DateTime(0x8000_0000, 1, 1, 0, 0, 0)) == FIRST_WIDE_SECOND
  {
    hide LeapCount, DaysBeforeYear;
    YearStart(0x8000_0000);
    LeapsBeforeWide(0x8000_0000 - 1);
    assert DaysBeforeMonth(0x8000_0000, 1) == 0;
  }

  /** Before narrowing, the fields always name the second. */
  lemma UnnarrowedIsExact(secs: u64)
    ensures var (y, _, _) := CivilFromDays(secs / 86_400);
      Names(UnixToYmdHms(secs).(year := y), secs)
  {
    hide CivilFromDays, UnixDays, MonthLength;
    CivilIsExact(secs / 86_400);
    var tod := secs % 86_400;
    assert tod == 3_600 * (tod / 3_600) + tod % 3_600;
  }

  /**
    The conversion names its second in the Gregorian calendar exactly for the seconds before
    the year 2147483648; after that the narrowed year is wrong.
   */
  lemma UnixToYmdHmsIsExact(secs: u64)
    ensures Names(UnixToYmdHms(secs), secs) <==> secs < FIRST_WIDE_SECOND
  {
    hide CivilFromDays, UnixSeconds;
    UnnarrowedIsExact(secs);
    WideSecond();
    var (y, _, _) := CivilFromDays(secs / 86_400);
    var t := UnixToYmdHms(secs).(year := y);
    OrderedAsSeconds(t, DateTime(0x8000_0000, 1, 1, 0, 0, 0));
    assert t.year < 0x8000_0000 <==> secs < FIRST_WIDE_SECOND;
    if secs >= FIRST_WIDE_SECOND && Valid(UnixToYmdHms(secs)) {
      OrderedAsSeconds(UnixToYmdHms(secs), t);
    }
  }

  /** Every valid time of a narrow year is the conversion of the second it names. */
  lemma EveryTimeIsReached(t: DateTime)
    requires Valid(t) && t.year < 0x8000_0000
    ensures 0 <= UnixSeconds(t) < FIRST_WIDE_SECOND && UnixToYmdHms(UnixSeconds(t)) == t
  {
    hide UnixSeconds, UnixToYmdHms;
    WideSecond();
    OrderedAsSeconds(t, DateTime(0x8000_0000, 1, 1, 0, 0, 0));
    SecondsAreNonnegative(t);
    UnixToYmdHmsIsExact(UnixSeconds(t));
    OrderedAsSeconds(t, UnixToYmdHms(UnixSeconds(t)));
  }

  lemma SecondsAreNonnegative(t: DateTime)
    requires Valid(t)
    ensures UnixSeconds(t) >= 0
  {
    hide DaysBeforeMonth, MonthLength;
    assert ValidDate(t.year, t.month, t.day);
    assert DaysBeforeYear(1970) == 0;
    YearsGrow(1970, t.year);
    DayInYear(t.year, t.month, t.day);
  }

  /** Later seconds give lexicographically later tuples. */
  lemma LaterIsLater(a: u64, b: u64)
    requires a < b < FIRST_WIDE_SECOND
    ensures Before(UnixToYmdHms(a), UnixToYmdHms(b))
  {
    hide UnixSeconds, UnixToYmdHms, Before;
    UnixToYmdHmsIsExact(a);
    UnixToYmdHmsIsExact(b);
    OrderedAsSeconds(UnixToYmdHms(a), UnixToYmdHms(b));
  }
}
