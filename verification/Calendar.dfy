/** Timestamps: from a clock reading to an RFC 3339 string (src/catalogue.rs). */
module Calendar {
  import opened Common
  import opened Decimal

  datatype Date = Date(year: int, month: int, day: int)

  // ----------------------------------------------------- the Gregorian calendar

  predicate IsLeap(year: int) {
    year % 4 == 0 && (year % 100 != 0 || year % 400 == 0)
  }

  /** RFC 3339, section 5.7 and appendix C. */
  function DaysInMonth(year: int, month: int): int {
    if month == 2 then (if IsLeap(year) then 29 else 28)
    else if month == 4 || month == 6 || month == 9 || month == 11 then 30
    else 31
  }

  predicate ValidDate(date: Date) {
    1 <= date.month <= 12 && 1 <= date.day <= DaysInMonth(date.year, date.month)
  }

  function NextDay(date: Date): Date {
    if date.day < DaysInMonth(date.year, date.month) then date.(day := date.day + 1)
    else if date.month < 12 then Date(date.year, date.month + 1, 1)
    else Date(date.year + 1, 1, 1)
  }

  const EPOCH := Date(1970, 1, 1)

  // -------------------------------------------------------------- the program

  /** Year of the era, counted from March, of a day of the 400-year era. */
  function YearOfEra(doe: int): int {
    (doe - doe / 1460 + doe / 36_524 - doe / 146_096) / 365
  }

  /** The civil date of a day count, as `now_plus_iso8601` computes it. Dafny's division
      is the Euclidean one that the source asks for. */
  function Civil(days: int): Date {
    var z := days + 719_468;
    var era := z / 146_097;
    var doe := z % 146_097;
    var yoe := YearOfEra(doe);
    var y := yoe + era * 400;
    var doy := doe - (365 * yoe + yoe / 4 - yoe / 100);
    var mp := (5 * doy + 2) / 153;
    var d := doy - (153 * mp + 2) / 5 + 1;
    var m := if mp < 10 then mp + 3 else mp - 9;
    Date(if m <= 2 then y + 1 else y, m, d)
  }

  /** First day of a March-based year of the era. */
  function YearStart(yoe: int): int {
    365 * yoe + yoe / 4 - yoe / 100
  }

  /** Days in the March-based year `yoe`, which ends with the February of the next year. */
  function YearDays(yoe: int): int {
    if IsLeap(yoe + 1) then 366 else 365
  }

  /** A day of the era by century, four-year cycle, year and day. */
  predicate Parts(doe: int, c: int, q: int, k: int, doy: int) {
    && 0 <= c < 4 && 0 <= q < 25 && 0 <= k < 4 && 0 <= doy <= 365
    && (doy == 365 ==> k == 3 && (q < 24 || c == 3))
    && doe == 36_524 * c + 1461 * q + 365 * k + doy
  }

  lemma PartsOf(doe: int) returns (c: int, q: int, k: int, doy: int)
    requires 0 <= doe < 146_097
    ensures Parts(doe, c, q, k, doy)
  {
    c := if doe < 146_096 then doe / 36_524 else 3;
    var r := doe - 36_524 * c;
    assert 0 <= r <= 36_524;
    q := r / 1461;
    var t := r - 1461 * q;
    assert 0 <= t < 1461;
    k := if t < 1460 then t / 365 else 3;
    doy := t - 365 * k;
  }

  lemma PartsStart(c: int, q: int, k: int)
    requires 0 <= c < 4 && 0 <= q < 25 && 0 <= k < 4
    ensures YearStart(100 * c + 4 * q + k) == 36_524 * c + 1461 * q + 365 * k
  {
    var y := 100 * c + 4 * q + k;
    assert y / 4 == 25 * c + q;
    assert y / 100 == c;
  }

  lemma PartsYear(doe: int, c: int, q: int, k: int, doy: int)
    requires Parts(doe, c, q, k, doy)
    ensures YearOfEra(doe) == 100 * c + 4 * q + k
  {
    var e := if 24 * c + q + 365 * k + doy >= 1460 then 1 else 0;
    assert doe == 1460 * (25 * c + q + e) + (24 * c + q + 365 * k + doy - 1460 * e);
    assert doe / 1460 == 25 * c + q + e;
    assert doe / 36_524 - doe / 146_096 == c;
    assert 0 <= doy - e < 365;
  }

  lemma PartsLeap(c: int, q: int, k: int)
    requires 0 <= c < 4 && 0 <= q < 25 && 0 <= k < 4
    ensures IsLeap(100 * c + 4 * q + k + 1) <==> k == 3 && (q < 24 || c == 3)
  {
    var y := 100 * c + 4 * q + k + 1;
    assert y == 4 * (25 * c + q) + (k + 1);
    assert y % 4 == (k + 1) % 4;
    if k == 3 {
      assert y == 100 * c + 4 * (q + 1);
      assert y % 100 == 0 <==> q == 24;
    }
  }

  lemma YearsAbut(yoe: int)
    requires 0 <= yoe < 399
    ensures YearStart(yoe + 1) == YearStart(yoe) + YearDays(yoe)
  {
    var c, q, k := yoe / 100, yoe % 100 / 4, yoe % 4;
    assert yoe == 100 * c + 4 * q + k;
    hide YearStart, IsLeap;
    PartsStart(c, q, k);
    PartsLeap(c, q, k);
    if k < 3 {
      PartsStart(c, q, k + 1);
    } else if q < 24 {
      PartsStart(c, q + 1, 0);
    } else {
      PartsStart(c + 1, 0, 0);
    }
  }

  lemma YearOfEraIsRight(doe: int)
    requires 0 <= doe < 146_097
    ensures var yoe := YearOfEra(doe);
            0 <= yoe < 400 && YearStart(yoe) <= doe < YearStart(yoe) + YearDays(yoe)
  {
    var c, q, k, doy := PartsOf(doe);
    hide YearOfEra, YearStart, IsLeap;
    PartsYear(doe, c, q, k, doy);
    PartsStart(c, q, k);
    PartsLeap(c, q, k);
  }

  /** A day lies in one March-based year only. */
  lemma {:induction false} YearStartsGrow(a: int, b: int)
    requires 0 <= a <= b < 400
    ensures YearStart(b) >= YearStart(a) + 365 * (b - a)
    decreases b - a
  {
    if a < b {
      YearStartsGrow(a, b - 1);
      YearsAbut(b - 1);
    }
  }

  /** Month and day within a March-based year. */
  function MonthIndex(doy: int): int {
    (5 * doy + 2) / 153
  }

  function MonthStart(mp: int): int {
    (153 * mp + 2) / 5
  }

  function MonthOf(mp: int): int {
    if mp < 10 then mp + 3 else mp - 9
  }

  lemma MonthIndexIsRight(doy: int)
    requires 0 <= doy < 366
    ensures var mp := MonthIndex(doy); 0 <= mp < 12 && MonthStart(mp) <= doy < MonthStart(mp + 1)
  {
  }

  lemma MonthLengths(mp: int, year: int)
    requires 0 <= mp < 11
    ensures MonthStart(mp + 1) - MonthStart(mp) == DaysInMonth(year, MonthOf(mp))
  {
  }

  /** The date of day `doy` of March-based year `y`. */
  function MarchDate(y: int, doy: int): Date {
    var mp := MonthIndex(doy);
    var m := MonthOf(mp);
    Date(if m <= 2 then y + 1 else y, m, doy - MonthStart(mp) + 1)
  }

  predicate LeapEnd(y: int) {
    IsLeap(y + 1)
  }

  lemma MarchDateIsValid(y: int, doy: int)
    requires 0 <= doy < (if LeapEnd(y) then 366 else 365)
    ensures ValidDate(MarchDate(y, doy))
  {
    MonthIndexIsRight(doy);
    var mp := MonthIndex(doy);
    if mp < 11 {
      MonthLengths(mp, MarchDate(y, doy).year);
    }
  }

  lemma MarchDateSteps(y: int, doy: int)
    requires 0 <= doy < (if LeapEnd(y) then 366 else 365)
    ensures if doy + 1 < (if LeapEnd(y) then 366 else 365) then MarchDate(y, doy + 1) == NextDay(MarchDate(y, doy))
            else MarchDate(y + 1, 0) == NextDay(MarchDate(y, doy))
  {
    MonthIndexIsRight(doy);
    var mp := MonthIndex(doy);
    if mp < 11 {
      MonthLengths(mp, MarchDate(y, doy).year);
    }
    if doy + 1 < 366 {
      MonthIndexIsRight(doy + 1);
    }
  }

  lemma CivilIsMarchDate(days: int)
    ensures var z := days + 719_468;
            var (era, doe) := (z / 146_097, z % 146_097);
            var yoe := YearOfEra(doe);
            && Civil(days) == MarchDate(yoe + 400 * era, doe - YearStart(yoe))
            && LeapEnd(yoe + 400 * era) == IsLeap(yoe + 1)
            && 0 <= doe - YearStart(yoe) < (if LeapEnd(yoe + 400 * era) then 366 else 365)
  {
    hide YearOfEra, IsLeap;
    var z := days + 719_468;
    YearOfEraIsRight(z % 146_097);
    LeapPeriod(YearOfEra(z % 146_097) + 1, z / 146_097);
  }

  lemma LeapPeriod(y: int, era: int)
    ensures IsLeap(y + 400 * era) == IsLeap(y)
  {
    SameRemainder(y, 4, 100 * era);
    SameRemainder(y, 100, 4 * era);
    SameRemainder(y, 400, era);
  }

  lemma SameRemainder(y: int, unit: int, times: int)
    requires unit > 0
    ensures (y + unit * times) % unit == y % unit
  {
    DivisionIs(y + unit * times, unit, y / unit + times, y % unit);
  }

  /** Every day count yields a valid date. */
  lemma CivilIsValid(days: int)
    ensures ValidDate(Civil(days))
  {
    CivilIsMarchDate(days);
    var z := days + 719_468;
    var yoe := YearOfEra(z % 146_097);
    MarchDateIsValid(yoe + 400 * (z / 146_097), z % 146_097 - YearStart(yoe));
  }

  lemma SameYear(doe: int, yoe: int)
    requires 0 <= doe < 146_097 && 0 <= yoe < 400
    requires YearStart(yoe) <= doe < YearStart(yoe) + YearDays(yoe)
    ensures YearOfEra(doe) == yoe
  {
    hide YearOfEra, YearStart;
    YearOfEraIsRight(doe);
    var other := YearOfEra(doe);
    if other < yoe {
      YearsAbut(other);
      YearStartsGrow(other + 1, yoe);
    } else if yoe < other {
      YearsAbut(yoe);
      YearStartsGrow(yoe + 1, other);
    }
  }

  /** Consecutive days have consecutive dates. */
  lemma CivilSteps(days: int)
    ensures Civil(days + 1) == NextDay(Civil(days))
  {
    hide Civil, MarchDate, NextDay, YearOfEra, YearStart, IsLeap;
    CivilIsMarchDate(days);
    CivilIsMarchDate(days + 1);
    var z := days + 719_468;
    var era, doe := z / 146_097, z % 146_097;
    var yoe := YearOfEra(doe);
    var y, doy := yoe + 400 * era, doe - YearStart(yoe);
    YearOfEraIsRight(doe);
    MarchDateSteps(y, doy);
    if doe + 1 < 146_097 {
      assert (z + 1) / 146_097 == era && (z + 1) % 146_097 == doe + 1;
      NextDayOfEra(doe);
    } else {
      assert (z + 1) / 146_097 == era + 1 && (z + 1) % 146_097 == 0;
      LastDayOfEra();
    }
  }

  lemma NextDayOfEra(doe: int)
    requires 0 <= doe && doe + 1 < 146_097
    ensures var yoe := YearOfEra(doe);
            var doy := doe - YearStart(yoe);
            if doy + 1 < YearDays(yoe) then YearOfEra(doe + 1) == yoe
            else YearOfEra(doe + 1) == yoe + 1 && YearStart(yoe + 1) == doe + 1
  {
    hide YearOfEra, YearStart;
    YearOfEraIsRight(doe);
    var yoe := YearOfEra(doe);
    if doe + 1 - YearStart(yoe) < YearDays(yoe) {
      SameYear(doe + 1, yoe);
    } else {
      LastYearEnds(yoe, doe + 1);
      YearsAbut(yoe);
      SameYear(doe + 1, yoe + 1);
    }
  }

  lemma LastYearEnds(yoe: int, doe: int)
    requires 0 <= yoe < 400 && doe == YearStart(yoe) + YearDays(yoe) < 146_097
    ensures yoe < 399
  {
    assert YearStart(399) + YearDays(399) == 146_097;
  }

  lemma LastDayOfEra()
    ensures YearOfEra(146_096) == 399 && 146_096 - YearStart(399) == 365 && YearDays(399) == 366
    ensures YearOfEra(0) == 0 && YearStart(0) == 0
  {
  }

  // ------------------------------------------------- the inverse, and the order

  /** Days before January 1 of `year`, from January 1 of year 1, by the leap-year rule. */
  function DaysBeforeYear(year: int): int {
    365 * (year - 1) + (year - 1) / 4 - (year - 1) / 100 + (year - 1) / 400
  }

  function DaysBeforeMonth(year: int, month: int): int
    decreases month
  {
    if month <= 1 then 0 else DaysBeforeMonth(year, month - 1) + DaysInMonth(year, month - 1)
  }

  /** Day count of a date, from the epoch. */
  function DayNumber(date: Date): int {
    DaysBeforeYear(date.year) + DaysBeforeMonth(date.year, date.month) + date.day - 1 - 719_162
  }

  function Divides(unit: int, n: int): int
    requires unit > 0
  {
    if n % unit == 0 then 1 else 0
  }

  lemma LeapByDivisors(year: int)
    ensures Divides(4, year) - Divides(100, year) + Divides(400, year) == if IsLeap(year) then 1 else 0
  {
    assert year % 400 == 0 ==> year % 100 == 0 by {
      SameRemainder(year % 400, 100, 4 * (year / 400));
    }
    assert year % 100 == 0 ==> year % 4 == 0 by {
      SameRemainder(year % 100, 4, 25 * (year / 100));
    }
  }

  lemma YearLength(year: int)
    ensures DaysBeforeYear(year + 1) == DaysBeforeYear(year) + if IsLeap(year) then 366 else 365
  {
    hide IsLeap, Divides;
    LeapByDivisors(year);
    Quotients(year, 4);
    Quotients(year, 100);
    Quotients(year, 400);
  }

  lemma Quotients(n: int, unit: int)
    requires unit > 1
    ensures n / unit == (n - 1) / unit + Divides(unit, n)
  {
    var q, r := n / unit, n % unit;
    assert n == unit * q + r;
    if r == 0 {
      assert unit * (q - 1) == unit * q - unit;
      DivisionIs(n - 1, unit, q - 1, unit - 1);
    } else {
      DivisionIs(n - 1, unit, q, r - 1);
    }
  }

  lemma MonthsFillYear(year: int)
    ensures DaysBeforeMonth(year, 12) + 31 == if IsLeap(year) then 366 else 365
  {
    hide IsLeap;
    assert DaysBeforeMonth(year, 3) == 31 + DaysInMonth(year, 2);
    assert DaysBeforeMonth(year, 6) == DaysBeforeMonth(year, 3) + 92;
    assert DaysBeforeMonth(year, 9) == DaysBeforeMonth(year, 6) + 92;
    assert DaysBeforeMonth(year, 12) == DaysBeforeMonth(year, 9) + 91;
  }

  lemma NextDayCounts(date: Date)
    requires ValidDate(date)
    ensures DayNumber(NextDay(date)) == DayNumber(date) + 1
  {
    if date.day == DaysInMonth(date.year, date.month) && date.month == 12 {
      YearLength(date.year);
      MonthsFillYear(date.year);
    }
  }

  lemma EpochIsZero()
    ensures Civil(0) == EPOCH && DayNumber(EPOCH) == 0
  {
  }

  /** The date of a day count counts back to it, by the calendar's own rule. */
  lemma {:induction false} CivilRoundTrip(days: int)
    ensures DayNumber(Civil(days)) == days
    decreases if days < 0 then -days else days
  {
    hide Civil, DayNumber, NextDay, ValidDate;
    if days == 0 {
      EpochIsZero();
    } else if days > 0 {
      CivilRoundTrip(days - 1);
      CivilSteps(days - 1);
      CivilIsValid(days - 1);
      NextDayCounts(Civil(days - 1));
    } else {
      CivilRoundTrip(days + 1);
      CivilSteps(days);
      CivilIsValid(days);
      NextDayCounts(Civil(days));
    }
  }

  predicate Earlier(a: Date, b: Date) {
    a.year < b.year || (a.year == b.year && (a.month < b.month || (a.month == b.month && a.day < b.day)))
  }

  lemma NextDayIsLater(date: Date)
    requires ValidDate(date)
    ensures Earlier(date, NextDay(date))
  {
  }

  lemma {:induction false} CivilIncreases(a: int, b: int)
    requires a < b
    ensures Earlier(Civil(a), Civil(b))
    decreases b - a
  {
    hide Civil, NextDay, ValidDate;
    CivilSteps(b - 1);
    CivilIsValid(b - 1);
    NextDayIsLater(Civil(b - 1));
    if a < b - 1 {
      CivilIncreases(a, b - 1);
    }
  }

  // ---------------------------------------------------------------- the string

  const DASH: Byte := 0x2D
  const COLON: Byte := 0x3A
  const DOT: Byte := 0x2E
  const T: Byte := 0x54
  const Z: Byte := 0x5A
  const DAY_MS := 86_400_000

  function DayOf(totalMs: nat): nat {
    totalMs / 1000 / 86_400
  }

  function DateText(date: Date): seq<Byte>
    requires date.year >= 0 && date.month >= 0 && date.day >= 0
  {
    Filled(date.year, 4) + [DASH] + Filled(date.month, 2) + [DASH] + Filled(date.day, 2)
  }

  /** Time of day, from the seconds of the day and the milliseconds of the second. */
  function TimeText(secondsOfDay: nat, ms: nat): seq<Byte> {
    Filled(secondsOfDay / 3600, 2) + [COLON] + Filled(secondsOfDay % 3600 / 60, 2) + [COLON]
    + Filled(secondsOfDay % 60, 2) + [DOT] + Filled(ms, 3)
  }

  /** `now_plus_iso8601` of a clock reading in milliseconds since the epoch. */
  function Stamp(totalMs: nat): seq<Byte> {
    var secs := totalMs / 1000;
    var date := Civil(secs / 86_400);
    CivilFrom1970(secs / 86_400);
    DateText(date) + [T] + TimeText(secs % 86_400, totalMs % 1000) + [Z]
  }

  lemma CivilFrom1970(days: nat)
    ensures Civil(days).year >= 1970 && ValidDate(Civil(days))
  {
    hide Civil, ValidDate;
    EpochIsZero();
    CivilIsValid(days);
    if days > 0 {
      CivilIncreases(0, days);
    }
  }

  // ------------------------------------------------------ reading the string back

  /** "-MM-DDThh:mm:ss.sssZ" after a year of `w` digits, at least four. */
  predicate IsStamp(s: seq<Byte>, w: nat) {
    && w >= 4 && |s| == w + 20
    && AllDigits(s[..w]) && (w > 4 ==> s[0] != 0x30)
    && s[w] == DASH && AllDigits(s[w + 1..w + 3])
    && s[w + 3] == DASH && AllDigits(s[w + 4..w + 6])
    && s[w + 6] == T && AllDigits(s[w + 7..w + 9])
    && s[w + 9] == COLON && AllDigits(s[w + 10..w + 12])
    && s[w + 12] == COLON && AllDigits(s[w + 13..w + 15])
    && s[w + 15] == DOT && AllDigits(s[w + 16..w + 19]) && s[w + 19] == Z
  }

  function DateIn(s: seq<Byte>, w: nat): Date
    requires |s| == w + 20
  {
    Date(ValueOf(s[..w]), ValueOf(s[w + 1..w + 3]), ValueOf(s[w + 4..w + 6]))
  }

  /** Milliseconds into the day. */
  function TimeIn(s: seq<Byte>, w: nat): int
    requires |s| == w + 20
  {
    1000 * (3600 * ValueOf(s[w + 7..w + 9]) + 60 * ValueOf(s[w + 10..w + 12]) + ValueOf(s[w + 13..w + 15]))
    + ValueOf(s[w + 16..w + 19])
  }

  /** Every string is well made, and the date and time that it spells, counted by the
      calendar's rule, are the clock reading. */
  lemma StampReads(totalMs: nat) returns (w: nat)
    ensures var s := Stamp(totalMs);
            && IsStamp(s, w) && ValidDate(DateIn(s, w)) && 0 <= TimeIn(s, w) < DAY_MS
            && DAY_MS * DayNumber(DateIn(s, w)) + TimeIn(s, w) == totalMs
  {
    hide Civil, Filled, ValidDate, DayNumber;
    var days, second := DayOf(totalMs), totalMs / 1000 % 86_400;
    CivilFrom1970(days);
    CivilRoundTrip(days);
    var date := Civil(days);
    DateIsSmall(date);
    w := FieldsRead(date, second, totalMs % 1000);
    Clock(second);
  }

  lemma DateIsSmall(date: Date)
    requires ValidDate(date)
    ensures 0 <= date.month < 100 && 0 <= date.day < 100
  {
  }

  lemma FieldsRead(date: Date, second: nat, ms: nat) returns (w: nat)
    requires date.year >= 0 && 0 <= date.month < 100 && 0 <= date.day < 100 && second < 86_400 && ms < 1000
    ensures var s := DateText(date) + [T] + TimeText(second, ms) + [Z];
            && IsStamp(s, w) && DateIn(s, w) == date
            && TimeIn(s, w) == 1000 * (3600 * (second / 3600) + 60 * (second % 3600 / 60) + second % 60) + ms
  {
    hide Filled, ValueOf, AllDigits;
    var year := Filled(date.year, 4);
    w := |year|;
    FilledReads(date.year, 4);
    var s := DateText(date) + [T] + TimeText(second, ms) + [Z];
    TwoDigits(date.month);
    TwoDigits(date.day);
    TwoDigits(second / 3600);
    TwoDigits(second % 3600 / 60);
    TwoDigits(second % 60);
    ThreeDigits(ms);
    assert s[..w] == year;
    assert s[w + 1..w + 3] == Filled(date.month, 2);
    assert s[w + 4..w + 6] == Filled(date.day, 2);
    assert s[w + 7..w + 9] == Filled(second / 3600, 2);
    assert s[w + 10..w + 12] == Filled(second % 3600 / 60, 2);
    assert s[w + 13..w + 15] == Filled(second % 60, 2);
    assert s[w + 16..w + 19] == Filled(ms, 3);
  }

  lemma TwoDigits(n: nat)
    requires n < 100
    ensures |Filled(n, 2)| == 2 && AllDigits(Filled(n, 2)) && ValueOf(Filled(n, 2)) == n
  {
    Powers();
    FilledReads(n, 2);
  }

  lemma ThreeDigits(n: nat)
    requires n < 1000
    ensures |Filled(n, 3)| == 3 && AllDigits(Filled(n, 3)) && ValueOf(Filled(n, 3)) == n
  {
    Powers();
    FilledReads(n, 3);
  }

  // ------------------------------------------------------------- the strings' order

  lemma Powers()
    ensures Pow10(2) == 100 && Pow10(3) == 1000 && Pow10(4) == 10_000
  {
  }

  /** Fixed-width fields with a separator compare as their numbers, then as what follows. */
  lemma FieldOrder(a: nat, b: nat, width: nat, sep: Byte, x: seq<Byte>, y: seq<Byte>)
    requires a < Pow10(width) && b < Pow10(width)
    ensures Less(Filled(a, width) + [sep] + x, Filled(b, width) + [sep] + y) <==> a < b || (a == b && Less(x, y))
  {
    FixedOrder(a, b, width);
    assert Filled(a, width) + [sep] + x == Fixed(a, width) + ([sep] + x);
    assert Filled(b, width) + [sep] + y == Fixed(b, width) + ([sep] + y);
    LessSplit(Fixed(a, width), Fixed(b, width), [sep] + x, [sep] + y);
    LessSplit([sep], [sep], x, y);
  }

  lemma TimeOrder(s: nat, ms: nat, s': nat, ms': nat, x: seq<Byte>, y: seq<Byte>)
    requires s < 86_400 && s' < 86_400 && ms < 1000 && ms' < 1000
    ensures Less(TimeText(s, ms) + [Z] + x, TimeText(s', ms') + [Z] + y)
            <==> s < s' || (s == s' && (ms < ms' || (ms == ms' && Less(x, y))))
  {
    hide Filled, Less;
    Powers();
    var c, c' := Filled(ms, 3) + [Z] + x, Filled(ms', 3) + [Z] + y;
    var b, b' := Filled(s % 60, 2) + [DOT] + c, Filled(s' % 60, 2) + [DOT] + c';
    var a, a' := Filled(s % 3600 / 60, 2) + [COLON] + b, Filled(s' % 3600 / 60, 2) + [COLON] + b';
    assert TimeText(s, ms) + [Z] + x == Filled(s / 3600, 2) + [COLON] + a;
    assert TimeText(s', ms') + [Z] + y == Filled(s' / 3600, 2) + [COLON] + a';
    FieldOrder(ms, ms', 3, Z, x, y);
    FieldOrder(s % 60, s' % 60, 2, DOT, c, c');
    FieldOrder(s % 3600 / 60, s' % 3600 / 60, 2, COLON, b, b');
    FieldOrder(s / 3600, s' / 3600, 2, COLON, a, a');
    ClockOrder(s, s');
  }

  lemma ClockOrder(s: nat, s': nat)
    ensures (s / 3600 < s' / 3600
             || (s / 3600 == s' / 3600 && (s % 3600 / 60 < s' % 3600 / 60
                                           || (s % 3600 / 60 == s' % 3600 / 60 && s % 60 < s' % 60))))
            <==> s < s'
    ensures s / 3600 == s' / 3600 && s % 3600 / 60 == s' % 3600 / 60 && s % 60 == s' % 60 <==> s == s'
  {
    Clock(s);
    Clock(s');
    ClockParts(s / 3600, s % 3600 / 60, s % 60, s' / 3600, s' % 3600 / 60, s' % 60);
  }

  lemma Clock(s: nat)
    ensures s == 3600 * (s / 3600) + 60 * (s % 3600 / 60) + s % 60 && s % 3600 / 60 < 60
  {
    assert s % 3600 == 60 * (s % 3600 / 60) + s % 3600 % 60;
    SameRemainder(s % 3600, 60, 60 * (s / 3600));
    assert s == s % 3600 + 60 * (60 * (s / 3600));
  }

  lemma ClockParts(h: int, m: int, s: int, h': int, m': int, s': int)
    requires 0 <= m < 60 && 0 <= s < 60 && 0 <= m' < 60 && 0 <= s' < 60
    ensures h < h' || (h == h' && (m < m' || (m == m' && s < s')))
            <==> 3600 * h + 60 * m + s < 3600 * h' + 60 * m' + s'
    ensures h == h' && m == m' && s == s' <==> 3600 * h + 60 * m + s == 3600 * h' + 60 * m' + s'
  {
  }

  lemma FilledIsFixed(n: nat, width: nat)
    ensures var w := |Filled(n, width)|; Filled(n, width) == Fixed(n, w) && n < Pow10(w)
  {
    NumeralIsFixed(n);
    NumeralLength(n);
  }

  /** Years of one width compare as numbers, then what follows decides. */
  lemma YearOrder(a: nat, b: nat, x: seq<Byte>, y: seq<Byte>)
    requires |Filled(a, 4)| == |Filled(b, 4)|
    ensures Less(Filled(a, 4) + [DASH] + x, Filled(b, 4) + [DASH] + y) <==> a < b || (a == b && Less(x, y))
  {
    var w := |Filled(a, 4)|;
    FilledIsFixed(a, 4);
    FilledIsFixed(b, 4);
    hide Filled, Less;
    FixedOrder(a, b, w);
    assert Filled(a, 4) + [DASH] + x == Fixed(a, w) + ([DASH] + x);
    assert Filled(b, 4) + [DASH] + y == Fixed(b, w) + ([DASH] + y);
    LessSplit(Fixed(a, w), Fixed(b, w), [DASH] + x, [DASH] + y);
    LessSplit([DASH], [DASH], x, y);
    OneByte();
  }

  lemma OneByte()
    ensures !Less([DASH], [DASH])
  {
  }

  /** A year with fewer digits comes first exactly when it is at most the leading digits of
      the other; a dash sorts before every digit. */
  lemma ShorterYearOrder(a: nat, b: nat, x: seq<Byte>, y: seq<Byte>)
    requires |Filled(a, 4)| < |Filled(b, 4)|
    ensures var q := b / Pow10(|Filled(b, 4)| - |Filled(a, 4)|);
            && (Less(Filled(a, 4) + [DASH] + x, Filled(b, 4) + [DASH] + y) <==> a <= q)
            && (Less(Filled(b, 4) + [DASH] + y, Filled(a, 4) + [DASH] + x) <==> q < a)
  {
    hide Fixed, Filled, Less, Pow10;
    var w, more := |Filled(a, 4)|, |Filled(b, 4)| - |Filled(a, 4)|;
    var q := b / Pow10(more);
    FilledIsFixed(a, 4);
    FilledIsFixed(b, 4);
    FixedLeads(b, w, more);
    LeadingFits(b, w, more);
    var digits := Fixed(b, w + more);
    FixedReads(b, w + more);
    var s, t := [DASH] + x, digits[w..] + [DASH] + y;
    assert t[0] == digits[w] && digits[w] in digits;
    assert digits == Fixed(q, w) + digits[w..];
    assert Filled(a, 4) + [DASH] + x == Fixed(a, w) + s;
    assert Filled(b, 4) + [DASH] + y == Fixed(q, w) + t;
    DashFirst(s, t);
    LessSplit(Fixed(a, w), Fixed(q, w), s, t);
    LessSplit(Fixed(q, w), Fixed(a, w), t, s);
    FixedOrder(a, q, w);
    FixedOrder(q, a, w);
  }

  lemma DashFirst(s: seq<Byte>, t: seq<Byte>)
    requires s != [] && t != [] && s[0] == DASH && t[0] >= 0x30
    ensures Less(s, t) && !Less(t, s)
  {
  }

  lemma LeadingFits(n: nat, width: nat, more: nat)
    requires n < Pow10(width + more)
    ensures n / Pow10(more) < Pow10(width)
  {
    Pow10Adds(width, more);
    QuotientBelow(n, Pow10(width), Pow10(more));
  }

  lemma QuotientBelow(n: nat, p: nat, d: nat)
    requires d > 0 && n < p * d
    ensures n / d < p
  {
    var more := n / d - p;
    assert n == d * (n / d) + n % d;
    assert d * (n / d) == d * p + d * more && d * p == p * d;
    assert more >= 0 ==> d * more >= 0;
  }

  lemma DateOrder(a: Date, b: Date, x: seq<Byte>, y: seq<Byte>)
    requires ValidDate(a) && ValidDate(b) && 0 <= a.year && 0 <= b.year && |Filled(a.year, 4)| == |Filled(b.year, 4)|
    ensures Less(DateText(a) + [T] + x, DateText(b) + [T] + y) <==> Earlier(a, b) || (a == b && Less(x, y))
  {
    hide Filled, Less;
    Powers();
    assert a.day <= 31 && b.day <= 31;
    var d, d' := Filled(a.day, 2) + [T] + x, Filled(b.day, 2) + [T] + y;
    var m, m' := Filled(a.month, 2) + [DASH] + d, Filled(b.month, 2) + [DASH] + d';
    assert DateText(a) + [T] + x == Filled(a.year, 4) + [DASH] + m;
    assert DateText(b) + [T] + y == Filled(b.year, 4) + [DASH] + m';
    FieldOrder(a.day, b.day, 2, T, x, y);
    FieldOrder(a.month, b.month, 2, DASH, d, d');
    YearOrder(a.year, b.year, m, m');
  }

  lemma CivilOrder(a: int, b: int)
    ensures Earlier(Civil(a), Civil(b)) <==> a < b
    ensures Civil(a) == Civil(b) <==> a == b
  {
    hide Civil;
    if a < b {
      CivilIncreases(a, b);
    } else if b < a {
      CivilIncreases(b, a);
    }
  }

  /** The year of a clock reading, and how many digits it is written with: at least four. */
  function YearOf(totalMs: nat): (year: nat) {
    CivilFrom1970(DayOf(totalMs));
    Civil(DayOf(totalMs)).year
  }

  function YearWidth(totalMs: nat): nat {
    |Filled(YearOf(totalMs), 4)|
  }

  /** As long as the years have equally many digits, the strings are ordered as the times. */
  lemma SameWidthOrder(a: nat, b: nat)
    requires YearWidth(a) == YearWidth(b)
    ensures Less(Stamp(a), Stamp(b)) <==> a < b
  {
    hide Civil, TimeText, DateText, Less, Filled;
    var (da, sa, ma) := (a / 1000 / 86_400, a / 1000 % 86_400, a % 1000);
    var (db, sb, mb) := (b / 1000 / 86_400, b / 1000 % 86_400, b % 1000);
    CivilFrom1970(da);
    CivilFrom1970(db);
    var x, y := TimeText(sa, ma) + [Z] + [], TimeText(sb, mb) + [Z] + [];
    assert Stamp(a) == DateText(Civil(da)) + [T] + x;
    assert Stamp(b) == DateText(Civil(db)) + [T] + y;
    DateOrder(Civil(da), Civil(db), x, y);
    TimeOrder(sa, ma, sb, mb, [], []);
    CivilOrder(da, db);
    NothingIsLess();
    assert a == 1000 * (86_400 * da + sa) + ma && b == 1000 * (86_400 * db + sb) + mb;
  }

  /** The exact order of the strings of any two times. Where the years have equally many
      digits it is the order of the times; where `a`'s year has fewer, `a` comes first exactly
      when its year is at most the leading digits of `b`'s. */
  lemma StampOrderIff(a: nat, b: nat)
    requires YearWidth(a) <= YearWidth(b)
    ensures YearWidth(a) == YearWidth(b) ==> (Less(Stamp(a), Stamp(b)) <==> a < b)
    ensures YearWidth(a) < YearWidth(b) ==>
              var leading := YearOf(b) / Pow10(YearWidth(b) - YearWidth(a));
              && (Less(Stamp(a), Stamp(b)) <==> YearOf(a) <= leading)
              && (Less(Stamp(b), Stamp(a)) <==> leading < YearOf(a))
  {
    hide Civil, TimeText, Less, Filled;
    if YearWidth(a) == YearWidth(b) {
      SameWidthOrder(a, b);
    } else {
      var x := AfterYear(a);
      var y := AfterYear(b);
      ShorterYearOrder(YearOf(a), YearOf(b), x, y);
    }
  }

  lemma AfterYear(totalMs: nat) returns (rest: seq<Byte>)
    ensures Stamp(totalMs) == Filled(YearOf(totalMs), 4) + [DASH] + rest
  {
    hide Civil, TimeText, Filled;
    var text := Stamp(totalMs);
    var year := Filled(YearOf(totalMs), 4);
    CivilFrom1970(DayOf(totalMs));
    rest := text[|year| + 1..];
    assert text == year + [DASH] + rest;
  }

  /** For years up to 9999, the strings are ordered as the times. */
  lemma StampOrder(a: nat, b: nat)
    requires YearOf(a) <= 9999 && YearOf(b) <= 9999
    ensures Less(Stamp(a), Stamp(b)) <==> a < b
  {
    hide Stamp, Less, YearOf;
    Powers();
    SameWidthOrder(a, b);
  }

  lemma NothingIsLess()
    ensures !Less([], [])
  {
  }

  /** In the year 10000 the order breaks: its strings sort before all earlier ones. */
  lemma StampOrderEndsAt10000(a: nat, b: nat)
    requires YearOf(a) <= 9999 && YearOf(b) == 10_000
    ensures a < b && Less(Stamp(b), Stamp(a))
  {
    hide Civil, Stamp, Less;
    CivilOrder(DayOf(a), DayOf(b));
    assert DayOf(a) < DayOf(b) ==> a < b;
    CivilFrom1970(DayOf(a));
    Powers();
    TenThousand();
    StampOrderIff(a, b);
    assert Pow10(1) == 10;
  }

  lemma TenThousand()
    ensures |Filled(10_000, 4)| == 5
  {
    Powers();
    assert Numeral(10_000) == Numeral(1000) + [0x30];
    assert Numeral(1000) == Numeral(100) + [0x30];
    assert Numeral(100) == Numeral(10) + [0x30];
    assert Numeral(10) == Numeral(1) + [0x30];
  }
}
