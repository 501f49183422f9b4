/** The UTC calendar arithmetic behind the profile editor's date fields:
    `Date.UTC(year, monthIndex, day)` (with its month/day overflow
    normalisation and its two-digit-year rule), the `getUTCFullYear` /
    `getUTCMonth` / `getUTCDate` decomposition, the `YYYY-MM-DD` display
    format and the `split('-').map(Number)` parse of the date input.

    Day numbers count days since 1970-01-01 in the proleptic Gregorian
    calendar. Internally the count is taken in 400-year eras starting at
    2000-01-01, because every era has exactly 146097 days. */
module CivilDate {
  import opened JsValues
  import opened Text

  predicate IsLeapYear(y: int) {
    y % 4 == 0 && (y % 100 != 0 || y % 400 == 0)
  }

  function DaysInYear(y: int): int {
    if IsLeapYear(y) then 366 else 365
  }

  function DaysInMonth(y: int, m: int): int
    requires 1 <= m <= 12
  {
    if m == 2 then (if IsLeapYear(y) then 29 else 28)
    else if m == 4 || m == 6 || m == 9 || m == 11 then 30
    else 31
  }

  /** Days of year `y` that lie before the first of month `m` (`m == 13`
      stands for the first day of the next year). */
  function DaysBeforeMonth(y: int, m: int): int
    requires 1 <= m <= 13
  {
    var common := [0, 31, 59, 90, 120, 151, 181, 212, 243, 273, 304, 334, 365];
    common[m - 1] + (if m > 2 && IsLeapYear(y) then 1 else 0)
  }

  lemma MonthStep(y: int, m: int)
    requires 1 <= m <= 12
    ensures DaysBeforeMonth(y, m + 1) == DaysBeforeMonth(y, m) + DaysInMonth(y, m)
    ensures DaysBeforeMonth(y, 13) == DaysInYear(y)
  {
  }

  /** Days in one 400-year era. */
  const DaysPerEra: int := 146097

  /** Days from 1970-01-01 to 2000-01-01. */
  const DaysTo2000: int := 10957

  /** Days from the start of an era to the start of its `k`-th year: one
      leap day for every era year before `k` divisible by 4, except the
      ones divisible by 100 but not by 400. */
  function DaysBeforeEraYear(k: int): int
    requires 0 <= k <= 400
  {
    365 * k + (k + 3) / 4 - (k + 99) / 100 + (k + 399) / 400
  }

  /** Days from 1970-01-01 to January 1 of year `y`. */
  function DaysBeforeYear(y: int): int {
    DaysTo2000 + DaysPerEra * ((y - 2000) / 400) + DaysBeforeEraYear((y - 2000) % 400)
  }

  /** Each leap-rule term of `DaysBeforeEraYear` grows by one exactly at a
      multiple of its period. */
  lemma CeilSteps(k: int)
    ensures (k + 4) / 4 - (k + 3) / 4 == (if k % 4 == 0 then 1 else 0)
    ensures (k + 100) / 100 - (k + 99) / 100 == (if k % 100 == 0 then 1 else 0)
    ensures (k + 400) / 400 - (k + 399) / 400 == (if k % 400 == 0 then 1 else 0)
  {
    CeilStep4(k);
    CeilStep100(k);
    CeilStep400(k);
  }

  lemma CeilStep4(k: int)
    ensures (k + 4) / 4 - (k + 3) / 4 == (if k % 4 == 0 then 1 else 0)
  {
    var q, r := k / 4, k % 4;
    assert k == 4 * q + r && 0 <= r < 4;
    assert (k + 4) / 4 == q + 1;
    assert (k + 3) / 4 == (if r == 0 then q else q + 1);
  }

  lemma CeilStep100(k: int)
    ensures (k + 100) / 100 - (k + 99) / 100 == (if k % 100 == 0 then 1 else 0)
  {
    var q, r := k / 100, k % 100;
    assert k == 100 * q + r && 0 <= r < 100;
    assert (k + 100) / 100 == q + 1;
    assert (k + 99) / 100 == (if r == 0 then q else q + 1);
  }

  lemma CeilStep400(k: int)
    ensures (k + 400) / 400 - (k + 399) / 400 == (if k % 400 == 0 then 1 else 0)
  {
    var q, r := k / 400, k % 400;
    assert k == 400 * q + r && 0 <= r < 400;
    assert (k + 400) / 400 == q + 1;
    assert (k + 399) / 400 == (if r == 0 then q else q + 1);
  }

  lemma ModShift4(k: int, q: int)
    ensures (k + 4 * q) % 4 == k % 4
  {
  }

  lemma ModShift100(k: int, q: int)
    ensures (k + 100 * q) % 100 == k % 100
  {
  }

  lemma ModShift400(k: int, q: int)
    ensures (k + 400 * q) % 400 == k % 400
  {
  }

  /** Adding whole eras does not change a year's position in the leap cycle. */
  lemma LeapPeriodic(k: int, e: int)
    ensures (2000 + 400 * e + k) % 4 == k % 4
    ensures (2000 + 400 * e + k) % 100 == k % 100
    ensures (2000 + 400 * e + k) % 400 == k % 400
  {
    ModShift4(k, 500 + 100 * e);
    ModShift100(k, 20 + 4 * e);
    ModShift400(k, 5 + e);
  }

  /** Era year `k` of any era is as long as the calendar year it denotes. */
  lemma EraYearStep(k: int, y: int)
    requires 0 <= k < 400 && (y - 2000) % 400 == k
    ensures DaysBeforeEraYear(k + 1) == DaysBeforeEraYear(k) + DaysInYear(y)
  {
    var e := (y - 2000) / 400;
    assert y == 2000 + 400 * e + k;
    LeapPeriodic(k, e);
    CeilSteps(k);
    assert IsLeapYear(y) == IsLeapYear(k);
  }

  /** Consecutive years are `DaysInYear` apart. */
  lemma YearStep(y: int)
    ensures DaysBeforeYear(y + 1) == DaysBeforeYear(y) + DaysInYear(y)
  {
    var k := (y - 2000) % 400;
    var e := (y - 2000) / 400;
    EraYearStep(k, y);
    YearSplit(y - 2000, e, k);
    if k < 399 {
      YearSplit(y + 1 - 2000, e, k + 1);
    } else {
      YearSplit(y + 1 - 2000, e + 1, 0);
      assert DaysBeforeEraYear(400) == DaysPerEra;
    }
  }

  lemma {:induction false} EraYearMonotone(j: int, k: int)
    requires 0 <= j <= k <= 400
    ensures DaysBeforeEraYear(j) + 365 * (k - j) <= DaysBeforeEraYear(k)
    decreases k - j
  {
    if j < k {
      EraYearMonotone(j + 1, k);
      EraYearStep(j, 2000 + j);
    }
  }

  /** A calendar date: `month` in 1..12, `day` in 1..31. */
  datatype Civil = Civil(year: int, month: int, day: int)

  predicate ValidCivil(c: Civil) {
    1 <= c.month <= 12 && 1 <= c.day <= DaysInMonth(c.year, c.month)
  }

  /** Day number of a valid calendar date. */
  function DaysFromCivil(y: int, m: int, d: int): int
    requires 1 <= m <= 12
  {
    DaysBeforeYear(y) + DaysBeforeMonth(y, m) + d - 1
  }

  /** The era year holding day `doe` of an era, searched from era year `k`. */
  function YearInEra(doe: int, k: int): (r: int)
    requires 0 <= k <= 399
    ensures k <= r <= 399
    decreases 399 - k
  {
    if k == 399 || doe < DaysBeforeEraYear(k + 1) then k else YearInEra(doe, k + 1)
  }

  /** The month holding day `doy` of year `y`, searched from month `m`. */
  function MonthOfDay(y: int, doy: int, m: int): (r: int)
    requires 1 <= m <= 12
    ensures m <= r <= 12
    decreases 12 - m
  {
    if m == 12 || doy < DaysBeforeMonth(y, m + 1) then m else MonthOfDay(y, doy, m + 1)
  }

  lemma {:induction false} YearInEraBounds(doe: int, k: int)
    requires 0 <= k <= 399 && DaysBeforeEraYear(k) <= doe < DaysPerEra
    ensures var r := YearInEra(doe, k);
      DaysBeforeEraYear(r) <= doe < DaysBeforeEraYear(r + 1)
    decreases 399 - k
  {
    if !(k == 399 || doe < DaysBeforeEraYear(k + 1)) {
      YearInEraBounds(doe, k + 1);
    }
  }

  lemma {:induction false} YearInEraFinds(doe: int, j: int, k: int)
    requires 0 <= j <= k <= 399
    requires DaysBeforeEraYear(k) <= doe < DaysBeforeEraYear(k + 1)
    ensures YearInEra(doe, j) == k
    decreases k - j
  {
    if j < k {
      EraYearMonotone(j + 1, k);
      YearInEraFinds(doe, j + 1, k);
    }
  }

  lemma {:induction false} MonthOfDayBounds(y: int, doy: int, m: int)
    requires 1 <= m <= 12 && DaysBeforeMonth(y, m) <= doy < DaysInYear(y)
    ensures var r := MonthOfDay(y, doy, m);
      DaysBeforeMonth(y, r) <= doy < DaysBeforeMonth(y, r + 1)
    decreases 12 - m
  {
    MonthStep(y, m);
    if !(m == 12 || doy < DaysBeforeMonth(y, m + 1)) {
      MonthOfDayBounds(y, doy, m + 1);
    }
  }

  lemma {:induction false} MonthOfDayFinds(y: int, doy: int, j: int, m: int)
    requires 1 <= j <= m <= 12
    requires DaysBeforeMonth(y, m) <= doy < DaysBeforeMonth(y, m + 1)
    ensures MonthOfDay(y, doy, j) == m
    decreases m - j
  {
    if j < m {
      MonthOfDayFinds(y, doy, j + 1, m);
    }
  }

  /** The date of day `doy` (counted from 0) of year `y`. */
  function CivilInYear(y: int, doy: int): (c: Civil)
    requires 0 <= doy < DaysInYear(y)
    ensures ValidCivil(c) && c.year == y
  {
    MonthStep(y, 1);
    MonthOfDayBounds(y, doy, 1);
    var m := MonthOfDay(y, doy, 1);
    MonthStep(y, m);
    Civil(y, m, doy - DaysBeforeMonth(y, m) + 1)
  }

  lemma CivilInYearFinds(y: int, m: int, d: int)
    requires ValidCivil(Civil(y, m, d))
    ensures 0 <= DaysBeforeMonth(y, m) + d - 1 < DaysInYear(y)
    ensures CivilInYear(y, DaysBeforeMonth(y, m) + d - 1) == Civil(y, m, d)
  {
    MonthStep(y, m);
    MonthStep(y, 1);
    MonthOfDayFinds(y, DaysBeforeMonth(y, m) + d - 1, 1, m);
  }

  /** The era (counted from the one starting 2000-01-01) holding day `n`. */
  function EraOf(n: int): int {
    (n - DaysTo2000) / DaysPerEra
  }

  /** Position of day `n` within its era. */
  function DayOfEra(n: int): (doe: int)
    ensures 0 <= doe < DaysPerEra
  {
    (n - DaysTo2000) % DaysPerEra
  }

  /** The era year holding day number `n`. */
  function EraYearOf(n: int): (k: int)
    ensures 0 <= k <= 399
  {
    YearInEra(DayOfEra(n), 0)
  }

  /** The calendar year holding day number `n`. */
  function YearOf(n: int): int {
    2000 + 400 * EraOf(n) + EraYearOf(n)
  }

  /** Position of day number `n` within its year, counted from 0. */
  function DayOfYear(n: int): int {
    DayOfEra(n) - DaysBeforeEraYear(EraYearOf(n))
  }

  /** Day `n` falls inside the year `YearOf` names, which starts
      `DayOfYear` days before it. */
  lemma DayOfYearBounds(n: int)
    ensures 0 <= DayOfYear(n) < DaysInYear(YearOf(n))
    ensures DaysBeforeYear(YearOf(n)) + DayOfYear(n) == n
  {
    var e := EraOf(n);
    var doe := DayOfEra(n);
    YearInEraBounds(doe, 0);
    YearOfEraYear(e, EraYearOf(n), doe);
    assert n - DaysTo2000 == DaysPerEra * e + doe;
  }

  /** Era year `k` of era `e`, holding day `doe` of the era, is the
      calendar year `2000 + 400 * e + k`, which starts where the era year
      does. */
  lemma YearOfEraYear(e: int, k: int, doe: int)
    requires 0 <= k <= 399 && DaysBeforeEraYear(k) <= doe < DaysBeforeEraYear(k + 1)
    ensures 0 <= doe - DaysBeforeEraYear(k) < DaysInYear(2000 + 400 * e + k)
    ensures DaysBeforeYear(2000 + 400 * e + k) == DaysTo2000 + DaysPerEra * e + DaysBeforeEraYear(k)
  {
    var y := 2000 + 400 * e + k;
    YearSplit(y - 2000, e, k);
    EraYearStep(k, y);
  }

  /** The calendar date of day number `n`: the UTC year, month and day
      `getUTCFullYear`, `getUTCMonth() + 1` and `getUTCDate` report. */
  function CivilFromDays(n: int): (c: Civil)
    ensures ValidCivil(c)
  {
    DayOfYearBounds(n);
    CivilInYear(YearOf(n), DayOfYear(n))
  }

  lemma EraSplit(t: int, e: int, doe: int)
    requires t == DaysPerEra * e + doe && 0 <= doe < DaysPerEra
    ensures t / DaysPerEra == e && t % DaysPerEra == doe
  {
  }

  lemma YearSplit(t: int, e: int, k: int)
    requires t == 400 * e + k && 0 <= k < 400
    ensures t / 400 == e && t % 400 == k
  {
  }

  /** Valid calendar dates and day numbers are in one-to-one
      correspondence: date -> day -> date is the identity ... */
  lemma CivilRoundTrip(c: Civil)
    requires ValidCivil(c)
    ensures CivilFromDays(DaysFromCivil(c.year, c.month, c.day)) == c
  {
    var n := DaysFromCivil(c.year, c.month, c.day);
    DayNumberParts(c);
    DayOfYearBounds(n);
    CivilInYearFinds(c.year, c.month, c.day);
    assert CivilFromDays(n) == CivilInYear(YearOf(n), DayOfYear(n));
  }

  /** The year and the position in it of the day number of a valid date. */
  lemma DayNumberParts(c: Civil)
    requires ValidCivil(c)
    ensures var n := DaysFromCivil(c.year, c.month, c.day);
      YearOf(n) == c.year && DayOfYear(n) == DaysBeforeMonth(c.year, c.month) + c.day - 1
  {
    var y, m, d := c.year, c.month, c.day;
    var n := DaysFromCivil(y, m, d);
    var e := (y - 2000) / 400;
    var k := (y - 2000) % 400;
    var doy := DaysBeforeMonth(y, m) + d - 1;
    DayNumberEra(c);
    CivilInYearFinds(y, m, d);
    EraYearStep(k, y);
    EraYearMonotone(k + 1, 400);
    YearInEraFinds(DaysBeforeEraYear(k) + doy, 0, k);
    assert EraYearOf(n) == k;
    assert y == 2000 + 400 * e + k;
  }

  /** The era of the day number of a valid date, and its position in the
      era. */
  lemma DayNumberEra(c: Civil)
    requires ValidCivil(c)
    ensures var n := DaysFromCivil(c.year, c.month, c.day);
      var k := (c.year - 2000) % 400;
      && EraOf(n) == (c.year - 2000) / 400
      && DayOfEra(n) == DaysBeforeEraYear(k) + DaysBeforeMonth(c.year, c.month) + c.day - 1
  {
    var y, m, d := c.year, c.month, c.day;
    var n := DaysFromCivil(y, m, d);
    var e := (y - 2000) / 400;
    var k := (y - 2000) % 400;
    CivilInYearFinds(y, m, d);
    EraYearStep(k, y);
    EraYearMonotone(k + 1, 400);
    var doe := DaysBeforeEraYear(k) + DaysBeforeMonth(y, m) + d - 1;
    assert n - DaysTo2000 == DaysPerEra * e + doe;
    EraSplit(n - DaysTo2000, e, doe);
  }

  /** ... and day -> date -> day is the identity too. */
  lemma DaysRoundTrip(n: int)
    ensures var c := CivilFromDays(n); DaysFromCivil(c.year, c.month, c.day) == n
  {
    DayOfYearBounds(n);
    var c := CivilFromDays(n);
    assert c == CivilInYear(YearOf(n), DayOfYear(n));
  }

  // ---------------------------------------------------------------- Date.UTC

  /** UTC midnight of day `days` lies on that day. */
  lemma DayMs(days: int)
    ensures (days * MsPerDay) / MsPerDay == days && (days * MsPerDay) % MsPerDay == 0
  {
  }

  /** Largest magnitude of a valid time value: 8.64e15 ms, 1e8 days. */
  const MaxTimeMs: int := 8_640_000_000_000_000

  /** `TimeClip`: time values beyond 1e8 days either side of 1970 are invalid. */
  function TimeClip(ms: int): Moment {
    if -MaxTimeMs <= ms <= MaxTimeMs then At(ms) else Invalid
  }

  /** `Date.UTC(year, monthIndex, day)` on integer arguments, `None` standing
      for `NaN`: a year in 0..99 means 1900 + year, a month index outside
      0..11 carries into the year, and the day counts on from the first of
      the month (so day 0 is the last day of the previous month). */
  function DateUtc(year: Option<int>, monthIndex: Option<int>, day: Option<int>): Moment {
    if year.None? || monthIndex.None? || day.None? then Invalid
    else
      var y := if 0 <= year.value <= 99 then 1900 + year.value else year.value;
      var ym := y + monthIndex.value / 12;
      var mn := monthIndex.value % 12;
      TimeClip((DaysFromCivil(ym, mn + 1, 1) + day.value - 1) * MsPerDay)
  }

  /** `formatDate` (UserDataPage.tsx): `""` for `undefined`, otherwise
      `${year}-${MM}-${DD}` from the UTC fields, month and day padded to two
      digits; an invalid date prints `NaN-NaN-NaN`. */
  function FormatDate(date: Option<Moment>): string {
    match date
    case None => ""
    case Some(Invalid) => "NaN-NaN-NaN"
    case Some(At(ms)) =>
      var c := CivilFromDays(ms / MsPerDay);
      IntToString(c.year) + "-" + Pad2(c.month) + "-" + Pad2(c.day)
  }

  /** `handleDateChange` (UserDataPage.tsx): `value.split('-').map(Number)`
      destructured into year, month and day, then
      `new Date(Date.UTC(year, month - 1, day))`. Missing parts are
      `undefined`, which turns into `NaN`. */
  function ParseDateInput(value: string): Moment {
    var parts := Split(value, '-');
    var year := NumberOf(parts[0]);
    var month := if |parts| > 1 then NumberOf(parts[1]) else None;
    var day := if |parts| > 2 then NumberOf(parts[2]) else None;
    var monthIndex := if month.Some? then Some(month.value - 1) else None;
    DateUtc(year, monthIndex, day)
  }

  // ---------------------------------------------------------------- YYYY-MM-DD

  /** Four digits, a dash, two digits, a dash, two digits. */
  predicate IsoShape(s: string) {
    && |s| == 10 && s[4] == '-' && s[7] == '-'
    && AllDigits(s[..4]) && AllDigits(s[5..7]) && AllDigits(s[8..])
  }

  /** A well-formed `YYYY-MM-DD` text of an existing calendar date: four
      year digits, two month digits in 01..12, two day digits within the
      month — the values a date input produces. */
  predicate IsIsoDateText(s: string) {
    && IsoShape(s)
    && 1 <= DigitsValue(s[5..7]) <= 12
    && 1 <= DigitsValue(s[8..]) <= DaysInMonth(DigitsValue(s[..4]), DigitsValue(s[5..7]))
  }

  /** The date an `IsIsoDateText` text names. */
  function IsoCivil(s: string): (c: Civil)
    requires IsIsoDateText(s)
    ensures ValidCivil(c)
  {
    Civil(DigitsValue(s[..4]), DigitsValue(s[5..7]), DigitsValue(s[8..]))
  }

  /** The reading of `new Date(text)` assumed for a date input's value,
      which is empty or a real `YYYY-MM-DD` date: such a date-only ISO text
      denotes UTC midnight of that day, and every other text is taken as an
      invalid date. Engines may read other texts, and out-of-range days,
      as valid dates; this reading does not cover them. */
  function IsoDateMoment(s: string): (m: Moment)
    ensures m.At? <==> IsIsoDateText(s)
    ensures m.At? ==> m.ms % MsPerDay == 0 && CivilFromDays(m.ms / MsPerDay) == IsoCivil(s)
  {
    if IsIsoDateText(s) then
      var c := IsoCivil(s);
      var days := DaysFromCivil(c.year, c.month, c.day);
      CivilRoundTrip(c);
      DayMs(days);
      At(days * MsPerDay)
    else Invalid
  }

  // ---------------------------------------------------------------- round trip

  /** The pieces of a `YYYY-MM-DD` text, as `split('-')` cuts them. */
  lemma IsoSplit(s: string)
    requires IsoShape(s)
    ensures Split(s, '-') == [s[..4], s[5..7], s[8..]]
  {
    var parts := [s[..4], s[5..7], s[8..]];
    forall k | 0 <= k < 3 ensures !Contains(parts[k], '-') {
      assert AllDigits(parts[k]);
    }
    SplitJoin(parts, '-');
    assert parts[1..] == [s[5..7], s[8..]] && parts[1..][1..] == [s[8..]];
    assert Join(parts[1..][1..], '-') == s[8..];
    assert Join(parts[1..], '-') == s[5..7] + "-" + s[8..];
    assert Join(parts, '-') == s[..4] + "-" + (s[5..7] + "-" + s[8..]);
    assert s == s[..4] + "-" + (s[5..7] + "-" + s[8..]);
  }

  /** What the parse makes of a `YYYY-MM-DD` text: `Date.UTC(Y, M - 1, D)`
      with `Y`, `M`, `D` the values of the three digit groups. */
  lemma ParseIsoText(s: string)
    requires IsoShape(s)
    ensures ParseDateInput(s) == DateUtc(Some(DigitsValue(s[..4])), Some(DigitsValue(s[5..7]) - 1), Some(DigitsValue(s[8..])))
  {
    IsoSplit(s);
    var parts := Split(s, '-');
    assert |parts| == 3 && parts[0] == s[..4] && parts[1] == s[5..7] && parts[2] == s[8..];
    NumberOfDigits(s[..4]);
    NumberOfDigits(s[5..7]);
    NumberOfDigits(s[8..]);
    var year, month, day := NumberOf(parts[0]), NumberOf(parts[1]), NumberOf(parts[2]);
    assert year == Some(DigitsValue(s[..4]));
    assert month == Some(DigitsValue(s[5..7]));
    assert day == Some(DigitsValue(s[8..]));
  }

  /** Day numbers of the years 100..9999 are far inside the `TimeClip` range. */
  lemma DaysInClipRange(y: int, m: int, d: int)
    requires 100 <= y <= 9999 && ValidCivil(Civil(y, m, d))
    ensures -MaxTimeMs <= DaysFromCivil(y, m, d) * MsPerDay <= MaxTimeMs
  {
    var e := (y - 2000) / 400;
    var k := (y - 2000) % 400;
    assert -5 <= e <= 19;
    EraYearMonotone(k, 400);
    EraYearMonotone(0, k);
    var n := DaysFromCivil(y, m, d);
    assert -1_000_000 <= n <= 4_000_000;
  }

  /** `Date.UTC(y, m - 1, d)` for a year 100..9999, a month 1..12 and a
      day 1..31 is UTC midnight of the `d - 1`-th day after the first of
      the month. */
  lemma DateUtcOfFields(y: int, m: int, d: int)
    requires 100 <= y <= 9999 && 1 <= m <= 12 && 1 <= d <= 31
    ensures DateUtc(Some(y), Some(m - 1), Some(d)) == At((DaysFromCivil(y, m, 1) + d - 1) * MsPerDay)
  {
    assert (m - 1) / 12 == 0 && (m - 1) % 12 == m - 1;
    DaysInClipRange(y, m, 1);
    var e := (y - 2000) / 400;
    assert -5 <= e <= 19;
  }

  /** `Date.UTC` reads a year 0..99 as 1900 + year. */
  lemma DateUtcTwoDigitYear(y: int, mi: int, d: int)
    requires 0 <= y <= 99
    ensures DateUtc(Some(y), Some(mi), Some(d)) == DateUtc(Some(1900 + y), Some(mi), Some(d))
  {
  }

  /** `formatDate` of UTC midnight of a valid date of a year 0..9999. */
  lemma FormatMidnight(c: Civil)
    requires ValidCivil(c) && 0 <= c.year
    ensures FormatDate(Some(At(DaysFromCivil(c.year, c.month, c.day) * MsPerDay)))
      == NatToString(c.year) + "-" + Pad2(c.month) + "-" + Pad2(c.day)
  {
    DayMs(DaysFromCivil(c.year, c.month, c.day));
    CivilRoundTrip(c);
  }

  /** A `YYYY-MM-DD` text is its three groups joined by dashes. */
  lemma IsoGroups(s: string)
    requires |s| == 10 && s[4] == '-' && s[7] == '-'
    ensures s == s[..4] + "-" + s[5..7] + "-" + s[8..]
  {
  }

  /** Displaying what the date input parsed gives back the text typed, for
      every `YYYY-MM-DD` date whose year has no leading zero. */
  lemma FormatParseRoundTrip(s: string)
    requires IsIsoDateText(s) && s[0] != '0'
    ensures FormatDate(Some(ParseDateInput(s))) == s
  {
    var c := IsoCivil(s);
    ParseIsoText(s);
    CanonicalDigits(s[..4]);
    DigitsValueLowerBound(s[..4]);
    DigitsValueBound(s[..4]);
    assert 1000 <= c.year <= 9999;
    DateUtcOfFields(c.year, c.month, c.day);
    var n := DaysFromCivil(c.year, c.month, c.day);
    assert ParseDateInput(s) == At(n * MsPerDay);
    FormatMidnight(c);
    Pad2Digits(s[5..7]);
    Pad2Digits(s[8..]);
    IsoGroups(s);
  }

  /** Positions of a `year-MM-DD` text built from its groups. */
  lemma DisplayShape(year: string, mm: string, dd: string)
    requires year != []
    ensures (year + "-" + mm + "-" + dd)[0] == year[0]
    ensures (year + "-" + mm + "-" + dd)[|year|] == '-'
  {
  }

  /** Years written 0100..0999 come back with three year digits. */
  lemma ThreeDigitYearShortened(s: string)
    requires IsIsoDateText(s) && s[0] == '0' && s[1] != '0'
    ensures FormatDate(Some(ParseDateInput(s))) != s
  {
    var c := IsoCivil(s);
    ParseIsoText(s);
    ThreeDigitYearValue(s);
    assert 100 <= c.year <= 999;
    DateUtcOfFields(c.year, c.month, c.day);
    var n := DaysFromCivil(c.year, c.month, c.day);
    assert ParseDateInput(s) == At(n * MsPerDay);
    FormatMidnight(c);
    NatToStringShort(c.year);
    DisplayShape(NatToString(c.year), Pad2(c.month), Pad2(c.day));
    assert IsDigit(s[..4][3]);
  }

  /** A leap year 1..99 stays a leap year 1900 years later. */
  lemma TwoDigitLeap(y: int)
    requires 1 <= y <= 99 && IsLeapYear(y)
    ensures IsLeapYear(1900 + y)
  {
    assert 1900 + y == 4 * (475 + y / 4);
    assert 1900 + y == 100 * 19 + y;
  }

  /** Where `Date.UTC` puts day `d` of month `m` of year `1900 + y`, for a
      date valid in year `y` 0..99: the same date, except that 1900 has no
      29 February and that day rolls over to 1 March. */
  function ShiftedCivil(c: Civil): (r: Civil)
    requires ValidCivil(c) && 0 <= c.year <= 99
    ensures ValidCivil(r) && 1900 <= r.year <= 1999
  {
    if c.year == 0 && c.month == 2 && c.day == 29 then
      Civil(1900, 3, 1)
    else if c.month == 2 && c.day == 29 then
      TwoDigitLeap(c.year);
      Civil(1900 + c.year, c.month, c.day)
    else
      Civil(1900 + c.year, c.month, c.day)
  }

  /** The shifted date is the day `Date.UTC` counts to: day `d` of month
      `m` of year `1900 + y`, counted on from the first of that month. */
  lemma ShiftedDays(c: Civil)
    requires ValidCivil(c) && 0 <= c.year <= 99
    ensures var r := ShiftedCivil(c);
      DaysFromCivil(1900 + c.year, c.month, 1) + c.day - 1 == DaysFromCivil(r.year, r.month, r.day)
  {
    DayOffset(1900 + c.year, c.month, c.day);
    if c.year == 0 && c.month == 2 && c.day == 29 {
      MonthStep(1900, 2);
      DayOffset(1900, 3, 1);
    }
  }

  /** Day `d` of a month is `d - 1` days after its first. */
  lemma DayOffset(y: int, m: int, d: int)
    requires 1 <= m <= 12
    ensures DaysFromCivil(y, m, 1) + d - 1 == DaysFromCivil(y, m, d)
  {
  }

  /** `Date.UTC` of a date valid in a year 0..99 is displayed with a year
      of 1900..1999, which starts with `1`. */
  lemma TwoDigitYearDisplay(c: Civil)
    requires ValidCivil(c) && 0 <= c.year <= 99
    ensures FormatDate(Some(DateUtc(Some(c.year), Some(c.month - 1), Some(c.day))))[0] == '1'
  {
    var r := ShiftedCivil(c);
    TwoDigitDateUtc(c);
    CenturyDisplay(r);
  }

  /** `Date.UTC` of a date valid in a year 0..99 is UTC midnight of its
      shifted date. */
  lemma TwoDigitDateUtc(c: Civil)
    requires ValidCivil(c) && 0 <= c.year <= 99
    ensures var r := ShiftedCivil(c);
      DateUtc(Some(c.year), Some(c.month - 1), Some(c.day)) == At(DaysFromCivil(r.year, r.month, r.day) * MsPerDay)
  {
    DateUtcOfTwoDigitYear(c.year, c.month, c.day);
    ShiftedDays(c);
  }

  /** `Date.UTC(y, m - 1, d)` for a year 0..99, a month 1..12 and a day
      1..31 is UTC midnight of the `d - 1`-th day after the first of month
      `m` of year `1900 + y`. */
  lemma DateUtcOfTwoDigitYear(y: int, m: int, d: int)
    requires 0 <= y <= 99 && 1 <= m <= 12 && 1 <= d <= 31
    ensures DateUtc(Some(y), Some(m - 1), Some(d)) == At((DaysFromCivil(1900 + y, m, 1) + d - 1) * MsPerDay)
  {
    assert (m - 1) / 12 == 0 && (m - 1) % 12 == m - 1;
    DaysInClipRange(1900 + y, m, 1);
  }

  /** UTC midnight of a date of 1900..1999 is displayed starting with `1`. */
  lemma CenturyDisplay(r: Civil)
    requires ValidCivil(r) && 1900 <= r.year <= 1999
    ensures FormatDate(Some(At(DaysFromCivil(r.year, r.month, r.day) * MsPerDay)))[0] == '1'
  {
    FormatMidnight(r);
    NatToStringLeadingOne(r.year);
    DisplayShape(NatToString(r.year), Pad2(r.month), Pad2(r.day));
  }

  /** Years written 0000..0099 come back as 1900..1999, `Date.UTC`'s
      two-digit-year rule (and 0000-02-29 as 1900-03-01). */
  lemma TwoDigitYearShifted(s: string)
    requires IsIsoDateText(s) && s[0] == '0' && s[1] == '0'
    ensures FormatDate(Some(ParseDateInput(s))) != s
  {
    var y, m, d := DigitsValue(s[..4]), DigitsValue(s[5..7]), DigitsValue(s[8..]);
    ParseIsoText(s);
    TwoDigitYearValue(s);
    TwoDigitYearDisplay(Civil(y, m, d));
    assert FormatDate(Some(ParseDateInput(s)))[0] == '1';
  }

  /** Four year digits starting `00` denote at most 99. */
  lemma TwoDigitYearValue(s: string)
    requires IsoShape(s) && s[0] == '0' && s[1] == '0'
    ensures DigitsValue(s[..4]) <= 99
  {
    LeadingZeroValue(s[..4]);
    assert s[..4][1..] == s[1..4];
    LeadingZeroValue(s[1..4]);
    assert s[1..4][1..] == s[2..4];
    DigitsValueBound(s[2..4]);
  }

  /** Four year digits starting with one `0` denote a three-digit year. */
  lemma ThreeDigitYearValue(s: string)
    requires IsoShape(s) && s[0] == '0' && s[1] != '0'
    ensures 100 <= DigitsValue(s[..4]) <= 999
  {
    LeadingZeroValue(s[..4]);
    assert s[..4][1..] == s[1..4];
    DigitsValueBound(s[1..4]);
    DigitsValueLowerBound(s[1..4]);
  }

  /** A year written with a leading zero never survives the round trip. */
  lemma LeadingZeroYearNotRestored(s: string)
    requires IsIsoDateText(s) && s[0] == '0'
    ensures FormatDate(Some(ParseDateInput(s))) != s
  {
    if s[1] == '0' {
      TwoDigitYearShifted(s);
    } else {
      ThreeDigitYearShortened(s);
    }
  }
}
