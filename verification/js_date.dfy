/**
 * The part of ECMAScript `Date` that frontend/src/utils/generateCalendarLink.js
 * uses: time values in milliseconds since the epoch, the civil calendar on
 * top of them (Day, YearFromTime, MonthFromTime, DateFromTime, MakeDay,
 * MakeDate, TimeClip, as section 21.4.1 of ECMA-262 defines them), a `Date`
 * object whose `setDate` and `setMonth` change its time value in place, and
 * `toISOString`.
 *
 * The local time zone is fixed to UTC, so local time and UTC coincide.
 */
module JsDates {
  import opened Chars

  const MsPerSecond: int := 1000
  const MsPerMinute: int := 60000
  const MsPerHour: int := 3600000
  const MsPerDay: int := 86400000
  /** The largest magnitude a time value may have (TimeClip). */
  const MaxTime: int := 8640000000000000

  /** A time value: an integral number of milliseconds, or NaN for an
      invalid date. */
  datatype TimeValue = Valid(ms: int) | NaN

  predicate InRange(t: int) {
    -MaxTime <= t <= MaxTime
  }

  /** TimeClip. */
  function TimeClip(t: int): (v: TimeValue)
    ensures v.Valid? <==> InRange(t)
    ensures v.Valid? ==> v.ms == t
  {
    if InRange(t) then Valid(t) else NaN
  }

  // Days, years, months --------------------------------------------------

  /** Day(t): the day number, rounding toward minus infinity. */
  function Day(t: int): int {
    t / MsPerDay
  }

  function TimeWithinDay(t: int): (w: int)
    ensures 0 <= w < MsPerDay
  {
    t % MsPerDay
  }

  lemma DayTimeSplit(t: int)
    ensures t == Day(t) * MsPerDay + TimeWithinDay(t)
  {
  }

  function DaysInYear(y: int): (n: int)
    ensures n == 365 || n == 366
  {
    if y % 4 != 0 then 365
    else if y % 100 != 0 then 366
    else if y % 400 != 0 then 365
    else 366
  }

  predicate InLeapYear(y: int) {
    DaysInYear(y) == 366
  }

  /** DayFromYear: the day number of the first day of year `y`. */
  function DayFromYear(y: int): int {
    365 * (y - 1970) + (y - 1969) / 4 - (y - 1901) / 100 + (y - 1601) / 400
  }

  /** Consecutive years are DaysInYear apart. */
  lemma DayFromYearStep(y: int)
    ensures DayFromYear(y + 1) == DayFromYear(y) + DaysInYear(y)
  {
    FourYearStep(y);
    CenturyStep(y);
    FourCenturyStep(y);
    MultiplesNest(y);
  }

  /** A multiple of 400 is a multiple of 100, and that one of 4. */
  lemma MultiplesNest(y: int)
    ensures y % 400 == 0 ==> y % 100 == 0
    ensures y % 100 == 0 ==> y % 4 == 0
  {
    if y % 400 == 0 {
      CenturyOfFourCenturies(y);
    }
    if y % 100 == 0 {
      FourOfCentury(y);
    }
  }

  lemma CenturyOfFourCenturies(y: int)
    requires y % 400 == 0
    ensures y % 100 == 0
  {
    var q := y / 400;
    assert y == 400 * q;
    assert (100 * (4 * q)) % 100 == 0;
  }

  lemma FourOfCentury(y: int)
    requires y % 100 == 0
    ensures y % 4 == 0
  {
    var q := y / 100;
    assert y == 100 * q;
    assert (4 * (25 * q)) % 4 == 0;
  }

  /** The leap days counted by DayFromYear grow by one in each multiple of 4,
      of 100 and of 400. */
  lemma FourYearStep(y: int)
    ensures (y + 1 - 1969) / 4 == (y - 1969) / 4 + (if y % 4 == 0 then 1 else 0)
  {
  }

  lemma CenturyStep(y: int)
    ensures (y + 1 - 1901) / 100 == (y - 1901) / 100 + (if y % 100 == 0 then 1 else 0)
  {
  }

  lemma FourCenturyStep(y: int)
    ensures (y + 1 - 1601) / 400 == (y - 1601) / 400 + (if y % 400 == 0 then 1 else 0)
  {
  }

  lemma {:induction false} DayFromYearMono(a: int, b: int)
    requires a < b
    ensures DayFromYear(a) + 365 <= DayFromYear(b)
    decreases b - a
  {
    DayFromYearStep(a);
    if a + 1 < b {
      DayFromYearMono(a + 1, b);
    }
  }

  /** The year containing day `d`, searched upwards from year `y`. */
  function YearUp(d: int, y: int): (r: int)
    requires DayFromYear(y) <= d
    ensures DayFromYear(r) <= d < DayFromYear(r + 1)
    decreases d - DayFromYear(y)
  {
    DayFromYearStep(y);
    if DayFromYear(y + 1) <= d then YearUp(d, y + 1) else y
  }

  /** The year containing day `d`, searched downwards from year `y`. */
  function YearDown(d: int, y: int): (r: int)
    requires d < DayFromYear(y + 1)
    ensures DayFromYear(r) <= d < DayFromYear(r + 1)
    decreases DayFromYear(y + 1) - d
  {
    DayFromYearStep(y);
    if DayFromYear(y) <= d then y else YearDown(d, y - 1)
  }

  /** The year of day number `d`. */
  function YearOfDay(d: int): (y: int)
    ensures DayFromYear(y) <= d < DayFromYear(y + 1)
  {
    if d >= 0 then YearUp(d, 1970) else YearDown(d, 1969)
  }

  /** A day lies in exactly one year. */
  lemma YearOfDayUnique(d: int, y: int)
    requires DayFromYear(y) <= d < DayFromYear(y + 1)
    ensures YearOfDay(d) == y
  {
    var r := YearOfDay(d);
    if r < y {
      DayFromYearMono(r, y);
      if r + 1 < y {
        DayFromYearMono(r + 1, y);
      }
    } else if y < r {
      DayFromYearMono(y, r);
      if y + 1 < r {
        DayFromYearMono(y + 1, r);
      }
    }
  }

  /** Days of year `leap`-dependent before month `m` (0 = January). */
  function DaysBeforeMonth(m: int, leap: bool): (n: int)
    requires 0 <= m <= 12
    ensures 0 <= n <= 366
  {
    var common := [0, 31, 59, 90, 120, 151, 181, 212, 243, 273, 304, 334, 365];
    common[m] + (if leap && m >= 2 then 1 else 0)
  }

  /** DaysBeforeMonth grows by 28 to 31 days a month and a year is 12 months. */
  lemma DaysBeforeMonthFacts(leap: bool)
    ensures forall m :: 0 <= m < 12 ==> DaysBeforeMonth(m, leap) + 28 <= DaysBeforeMonth(m + 1, leap) <= DaysBeforeMonth(m, leap) + 31
    ensures DaysBeforeMonth(12, leap) == if leap then 366 else 365
  {
  }

  /** The month of day `dwy` of a year, searched downwards from month `m`. */
  function MonthDown(dwy: int, leap: bool, m: int): (r: int)
    requires 0 <= m <= 11 && 0 <= dwy
    ensures 0 <= r <= m && DaysBeforeMonth(r, leap) <= dwy
    ensures r == m || dwy < DaysBeforeMonth(r + 1, leap)
    decreases m
  {
    if m == 0 || DaysBeforeMonth(m, leap) <= dwy then m else MonthDown(dwy, leap, m - 1)
  }

  function DaysInMonth(y: int, m: int): (n: int)
    requires 0 <= m < 12
    ensures 28 <= n <= 31
  {
    DaysBeforeMonthFacts(InLeapYear(y));
    DaysBeforeMonth(m + 1, InLeapYear(y)) - DaysBeforeMonth(m, InLeapYear(y))
  }

  // The civil fields of a time value ----------------------------------------

  /** YearFromTime. */
  function YearFromTime(t: int): int {
    YearOfDay(Day(t))
  }

  /** DayWithinYear. */
  function DayWithinYear(t: int): (d: int)
    ensures 0 <= d < DaysInYear(YearFromTime(t))
  {
    var y := YearFromTime(t);
    DayFromYearStep(y);
    assert DayFromYear(y) <= Day(t) < DayFromYear(y + 1);
    Day(t) - DayFromYear(y)
  }

  /** MonthFromTime: 0 for January to 11 for December. */
  function MonthFromTime(t: int): (m: int)
    ensures 0 <= m < 12
    ensures DaysBeforeMonth(m, InLeapYear(YearFromTime(t))) <= DayWithinYear(t) < DaysBeforeMonth(m + 1, InLeapYear(YearFromTime(t)))
  {
    var leap := InLeapYear(YearFromTime(t));
    DaysBeforeMonthFacts(leap);
    MonthDown(DayWithinYear(t), leap, 11)
  }

  /** DateFromTime: the day of the month, from 1. */
  function DateFromTime(t: int): (d: int)
    ensures 1 <= d <= DaysInMonth(YearFromTime(t), MonthFromTime(t))
  {
    DayWithinYear(t) - DaysBeforeMonth(MonthFromTime(t), InLeapYear(YearFromTime(t))) + 1
  }

  function HourFromTime(t: int): (h: int)
    ensures 0 <= h < 24
  {
    (t / MsPerHour) % 24
  }

  function MinFromTime(t: int): (m: int)
    ensures 0 <= m < 60
  {
    (t / MsPerMinute) % 60
  }

  function SecFromTime(t: int): (s: int)
    ensures 0 <= s < 60
  {
    (t / MsPerSecond) % 60
  }

  function MsFromTime(t: int): (ms: int)
    ensures 0 <= ms < 1000
  {
    t % MsPerSecond
  }

  // Building a time value from civil fields ---------------------------------

  /** MakeDay: the day number of day `date` of month `month` of year `year`;
      a month outside 0..11 carries into the year and a date past the end of
      the month runs on into the following months. */
  function MakeDay(year: int, month: int, date: int): int {
    var ym := CarryYear(year, month);
    var mn := CarryMonth(month);
    DayFromYear(ym) + DaysBeforeMonth(mn, InLeapYear(ym)) + date - 1
  }

  /** The year once the whole years in `month` are carried into it. */
  function CarryYear(year: int, month: int): int {
    year + month / 12
  }

  /** The month of the year that is left: `month` modulo 12. */
  function CarryMonth(month: int): (mn: int)
    ensures 0 <= mn < 12
  {
    month % 12
  }

  /** Carrying a second time changes nothing. */
  lemma CarryTwice(year: int, month: int)
    ensures CarryYear(CarryYear(year, month), CarryMonth(month)) == CarryYear(year, month)
    ensures CarryMonth(CarryMonth(month)) == CarryMonth(month)
  {
    var mn := CarryMonth(month);
    assert mn / 12 == 0 && mn % 12 == mn;
  }

  /** MakeDate. */
  function MakeDate(day: int, time: int): int {
    day * MsPerDay + time
  }

  lemma DayOfMakeDate(day: int, time: int)
    requires 0 <= time < MsPerDay
    ensures Day(MakeDate(day, time)) == day && TimeWithinDay(MakeDate(day, time)) == time
  {
  }

  /** The civil fields of a time value give back its day. */
  lemma CivilRoundTrip(t: int)
    ensures MakeDay(YearFromTime(t), MonthFromTime(t), DateFromTime(t)) == Day(t)
  {
    var y, m := YearFromTime(t), MonthFromTime(t);
    MakeDayInYear(y, m, DateFromTime(t));
  }

  /** MakeDay for a month of the year itself. */
  lemma MakeDayInYear(y: int, m: int, d: int)
    requires 0 <= m < 12
    ensures MakeDay(y, m, d) == DayFromYear(y) + DaysBeforeMonth(m, InLeapYear(y)) + d - 1
  {
    assert CarryYear(y, m) == y && CarryMonth(m) == m;
  }

  /** A date of a month, taken apart again, gives back its year, month and date. */
  lemma CivilFieldsOfMakeDay(y: int, m: int, d: int, time: int)
    requires 0 <= m < 12 && 1 <= d <= DaysInMonth(y, m) && 0 <= time < MsPerDay
    ensures var t := MakeDate(MakeDay(y, m, d), time);
      YearFromTime(t) == y && MonthFromTime(t) == m && DateFromTime(t) == d && TimeWithinDay(t) == time
  {
    MakeDayInYear(y, m, d);
    DayOfMakeDate(MakeDay(y, m, d), time);
    CivilFieldsOfDay(MakeDate(MakeDay(y, m, d), time), y, m, d);
  }

  lemma CivilFieldsOfDay(t: int, y: int, m: int, d: int)
    requires 0 <= m < 12 && 1 <= d <= DaysInMonth(y, m)
    requires Day(t) == DayFromYear(y) + DaysBeforeMonth(m, InLeapYear(y)) + d - 1
    ensures YearFromTime(t) == y && MonthFromTime(t) == m && DateFromTime(t) == d
  {
    var leap := InLeapYear(y);
    var dwy := DaysBeforeMonth(m, leap) + d - 1;
    MonthsBeforeMono(leap, m + 1, 12);
    DaysBeforeMonthFacts(leap);
    YearOfTime(t, y, dwy);
    MonthOfTime(t, y, m, d);
  }

  /** A time value on day `dwy` of year `y` has that year and that day of
      the year. */
  lemma YearOfTime(t: int, y: int, dwy: int)
    requires 0 <= dwy < DaysInYear(y) && Day(t) == DayFromYear(y) + dwy
    ensures YearFromTime(t) == y && DayWithinYear(t) == dwy
  {
    DayFromYearStep(y);
    YearOfDayUnique(Day(t), y);
  }

  /** A time value on date `d` of month `m` of its year has that month and
      that date. */
  lemma MonthOfTime(t: int, y: int, m: int, d: int)
    requires 0 <= m < 12 && 1 <= d <= DaysInMonth(y, m)
    requires YearFromTime(t) == y && DayWithinYear(t) == DaysBeforeMonth(m, InLeapYear(y)) + d - 1
    ensures MonthFromTime(t) == m && DateFromTime(t) == d
  {
    MonthUnique(InLeapYear(y), DayWithinYear(t), MonthFromTime(t), m);
  }

  /** A day of a year lies in exactly one month. */
  lemma MonthUnique(leap: bool, dwy: int, r: int, m: int)
    requires 0 <= r < 12 && 0 <= m < 12
    requires DaysBeforeMonth(r, leap) <= dwy < DaysBeforeMonth(r + 1, leap)
    requires DaysBeforeMonth(m, leap) <= dwy < DaysBeforeMonth(m + 1, leap)
    ensures r == m
  {
    if r < m {
      MonthsBeforeMono(leap, r + 1, m);
    } else if m < r {
      MonthsBeforeMono(leap, m + 1, r);
    }
  }

  lemma MonthsBeforeMono(leap: bool, a: int, b: int)
    requires 0 <= a <= b <= 12
    ensures DaysBeforeMonth(a, leap) <= DaysBeforeMonth(b, leap)
  {
  }

  /** The time value `t` with its date of the month replaced by `date`. */
  function WithDate(t: int, date: int): TimeValue {
    TimeClip(MakeDate(MakeDay(YearFromTime(t), MonthFromTime(t), date), TimeWithinDay(t)))
  }

  /** The time value `t` with its month replaced by `month`. */
  function WithMonth(t: int, month: int): TimeValue {
    TimeClip(MakeDate(MakeDay(YearFromTime(t), month, DateFromTime(t)), TimeWithinDay(t)))
  }

  /** Setting the date to the current date plus `n` moves a time value by
      exactly `n` days, across month and year ends alike. */
  lemma ShiftByDays(t: int, n: int)
    ensures WithDate(t, DateFromTime(t) + n) == TimeClip(t + n * MsPerDay)
  {
    CivilRoundTrip(t);
    DayTimeSplit(t);
    assert MakeDate(MakeDay(YearFromTime(t), MonthFromTime(t), DateFromTime(t) + n), TimeWithinDay(t)) == t + n * MsPerDay;
  }

  /** For a year from 0 to 9999, `toISOString` writes the 24 characters
      `YYYY-MM-DDTHH:mm:ss.sssZ`: the separators stand at fixed places, and
      each field, read back as a decimal number, is that field of the
      instant. */
  lemma IsoStringFields(t: int)
    requires 0 <= YearFromTime(t) <= 9999
    ensures IsoFields(IsoString(t), YearFromTime(t), MonthFromTime(t) + 1, DateFromTime(t),
      HourFromTime(t), MinFromTime(t), SecFromTime(t), MsFromTime(t))
  {
    assert IsoYear(YearFromTime(t)) == PadDigits(YearFromTime(t), 4);
    assert Pow10(2) == 100 && Pow10(3) == 1000 && Pow10(4) == 10000;
    PadSpells(YearFromTime(t), 4);
    PadSpells(MonthFromTime(t) + 1, 2);
    PadSpells(DateFromTime(t), 2);
    PadSpells(HourFromTime(t), 2);
    PadSpells(MinFromTime(t), 2);
    PadSpells(SecFromTime(t), 2);
    PadSpells(MsFromTime(t), 3);
    IsoTextFields(PadDigits(YearFromTime(t), 4), PadDigits(MonthFromTime(t) + 1, 2), PadDigits(DateFromTime(t), 2),
      PadDigits(HourFromTime(t), 2), PadDigits(MinFromTime(t), 2), PadDigits(SecFromTime(t), 2), PadDigits(MsFromTime(t), 3),
      YearFromTime(t), MonthFromTime(t) + 1, DateFromTime(t),
      HourFromTime(t), MinFromTime(t), SecFromTime(t), MsFromTime(t));
  }

  /** `iso` is 24 characters `YYYY-MM-DDTHH:mm:ss.sssZ`, with separators at
      their places and the seven fields spelling the given numbers. */
  predicate IsoFields(iso: string, year: int, month: int, date: int, hour: int, min: int, sec: int, ms: int) {
    && |iso| == 24
    && iso[4] == '-' && iso[7] == '-' && iso[10] == 'T' && iso[13] == ':' && iso[16] == ':' && iso[19] == '.' && iso[23] == 'Z'
    && Spells(iso[..4], year) && Spells(iso[5..7], month) && Spells(iso[8..10], date)
    && Spells(iso[11..13], hour) && Spells(iso[14..16], min) && Spells(iso[17..19], sec)
    && Spells(iso[20..23], ms)
  }

  /** `ds` is decimal digits whose value is `v`. */
  predicate Spells(ds: string, v: int) {
    AllDigits(ds) && DecimalValue(ds) == v
  }

  /** A number below `10^w`, written with `w` zero-padded digits, reads back as itself. */
  lemma PadSpells(n: nat, w: nat)
    requires n < Pow10(w)
    ensures |PadDigits(n, w)| == w && Spells(PadDigits(n, w), n)
  {
    PadDigitsValue(n, w);
  }

  /** Fields that spell numbers, joined with the separators, spell them at their places. */
  lemma IsoTextFields(y: string, mo: string, d: string, h: string, mi: string, se: string, mss: string,
                      year: int, month: int, date: int, hour: int, min: int, sec: int, ms: int)
    requires |y| == 4 && |mo| == 2 && |d| == 2 && |h| == 2 && |mi| == 2 && |se| == 2 && |mss| == 3
    requires Spells(y, year) && Spells(mo, month) && Spells(d, date) && Spells(h, hour)
    requires Spells(mi, min) && Spells(se, sec) && Spells(mss, ms)
    ensures IsoFields(y + ("-" + (mo + ("-" + (d + ("T" + (h + (":" + (mi + (":" + (se + ("." + (mss + "Z")))))))))))),
      year, month, date, hour, min, sec, ms)
  {
    IsoSeparators(y, mo, d, h, mi, se, mss);
    IsoDateLayout(y, mo, d, h, mi, se, mss);
    IsoTimeLayout(y, mo, d, h, mi, se, mss);
  }

  /** Where the separators of the date-time string stand. */
  lemma IsoSeparators(y: string, mo: string, d: string, h: string, mi: string, se: string, ms: string)
    requires |y| == 4 && |mo| == 2 && |d| == 2 && |h| == 2 && |mi| == 2 && |se| == 2 && |ms| == 3
    ensures var iso := y + ("-" + (mo + ("-" + (d + ("T" + (h + (":" + (mi + (":" + (se + ("." + (ms + "Z"))))))))))));
      && |iso| == 24
      && iso[4] == '-' && iso[7] == '-' && iso[10] == 'T' && iso[13] == ':' && iso[16] == ':' && iso[19] == '.' && iso[23] == 'Z'
  {
    var iso := y + ("-" + (mo + ("-" + (d + ("T" + (h + (":" + (mi + (":" + (se + ("." + (ms + "Z"))))))))))));
    assert iso == y + "-" + mo + "-" + d + "T" + h + ":" + mi + ":" + se + "." + ms + "Z";
  }

  /** Where the date fields of the date-time string stand. */
  lemma IsoDateLayout(y: string, mo: string, d: string, h: string, mi: string, se: string, ms: string)
    requires |y| == 4 && |mo| == 2 && |d| == 2 && |h| == 2 && |mi| == 2 && |se| == 2 && |ms| == 3
    ensures var iso := y + ("-" + (mo + ("-" + (d + ("T" + (h + (":" + (mi + (":" + (se + ("." + (ms + "Z"))))))))))));
      && |iso| == 24 && iso[..4] == y && iso[5..7] == mo && iso[8..10] == d
  {
    var iso := y + ("-" + (mo + ("-" + (d + ("T" + (h + (":" + (mi + (":" + (se + ("." + (ms + "Z"))))))))))));
    assert iso == y + "-" + mo + "-" + d + "T" + h + ":" + mi + ":" + se + "." + ms + "Z";
  }

  /** Where the time fields of the date-time string stand. */
  lemma IsoTimeLayout(y: string, mo: string, d: string, h: string, mi: string, se: string, ms: string)
    requires |y| == 4 && |mo| == 2 && |d| == 2 && |h| == 2 && |mi| == 2 && |se| == 2 && |ms| == 3
    ensures var iso := y + ("-" + (mo + ("-" + (d + ("T" + (h + (":" + (mi + (":" + (se + ("." + (ms + "Z"))))))))))));
      && |iso| == 24 && iso[11..13] == h && iso[14..16] == mi && iso[17..19] == se && iso[20..23] == ms
  {
    var iso := y + ("-" + (mo + ("-" + (d + ("T" + (h + (":" + (mi + (":" + (se + ("." + (ms + "Z"))))))))))));
    assert iso == y + "-" + mo + "-" + d + "T" + h + ":" + mi + ":" + se + "." + ms + "Z";
  }

  // The Date object -----------------------------------------------------------

  /** A `Date` object: a mutable time value. */
  class JsDate {
    var time: TimeValue

    /** `new Date(v)` for a time value or a `Date` whose time value is `v`. */
    constructor (v: TimeValue)
      ensures time == v
    {
      time := v;
    }

    /** `getTime()`. */
    function GetTime(): int
      reads this
      requires time.Valid?
    {
      time.ms
    }

    /** `getDate()`. */
    function GetDate(): (d: int)
      reads this
      requires time.Valid?
      ensures 1 <= d <= 31
    {
      DateFromTime(time.ms)
    }

    /** `getMonth()`. */
    function GetMonth(): (m: int)
      reads this
      requires time.Valid?
      ensures 0 <= m < 12
    {
      MonthFromTime(time.ms)
    }

    /** `setDate(date)`: same year, month and time of day, another date. */
    method SetDate(date: int)
      modifies this
      ensures old(time).NaN? ==> time.NaN?
      ensures old(time).Valid? ==> time == WithDate(old(time).ms, date)
    {
      if time.Valid? {
        time := WithDate(time.ms, date);
      }
    }

    /** `setMonth(month)`: same year, date and time of day, another month. */
    method SetMonth(month: int)
      modifies this
      ensures old(time).NaN? ==> time.NaN?
      ensures old(time).Valid? ==> time == WithMonth(old(time).ms, month)
    {
      if time.Valid? {
        time := WithMonth(time.ms, month);
      }
    }

    /** `toISOString()`: `None` stands for the RangeError it throws on an
        invalid date. */
    function ToIsoString(): (o: Option<string>)
      reads this
      ensures o.Some? <==> time.Valid?
    {
      if time.Valid? then Some(IsoString(time.ms)) else None
    }
  }

  // toISOString ---------------------------------------------------------------

  /** The year of the date-time string format: four digits for years 0 to
      9999, otherwise a sign and six digits. */
  function IsoYear(y: int): (s: string)
    ensures 0 <= y <= 9999 ==> |s| == 4 && AllDigits(s)
  {
    if 0 <= y <= 9999 then PadDigits(y, 4)
    else (if y < 0 then "-" else "+") + PadDigits(if y < 0 then -y else y, 6)
  }

  /** `YYYY-MM-DDTHH:mm:ss.sssZ` for the time value `t`. */
  function IsoString(t: int): string {
    IsoYear(YearFromTime(t)) + ("-" + (PadDigits(MonthFromTime(t) + 1, 2) + ("-" + (PadDigits(DateFromTime(t), 2)
      + ("T" + (PadDigits(HourFromTime(t), 2) + (":" + (PadDigits(MinFromTime(t), 2) + (":" + (PadDigits(SecFromTime(t), 2)
      + ("." + (PadDigits(MsFromTime(t), 3) + "Z"))))))))))))
  }
}
