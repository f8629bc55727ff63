/**
 Calendar fields of a Unix time (`SigningTime` in `cades.rs`).

 The conversion walks the 400-year Gregorian cycle with divisions only. It is compared with the
 calendar everyone knows: leap years, month lengths, and day counts added up one year and one month
 at a time.
 */
module Calendar {
  import opened Octets

  datatype SigningTime = SigningTime(year: nat, month: nat, day: nat, hour: nat, minute: nat, second: nat)

  const SECS_PER_DAY: nat := 86_400
  const DAYS_TO_CIVIL_SHIFT: nat := 719_468
  const DAYS_PER_ERA: nat := 146_097
  const MONTHS_SHIFT: nat := 153

  /** Days into the 400-year cycle to the year of the cycle, years starting in March. */
  function YearOfEra(dayOfEra: nat): int {
    (dayOfEra - dayOfEra / 1460 + dayOfEra / 36_524 - dayOfEra / 146_096) / 365
  }

  /** A value that does not fit its field is replaced by the fallback, as `try_from(..).unwrap_or`. */
  function Fitted(value: int, limit: int, fallback: nat): nat {
    if 0 <= value < limit then value else fallback
  }

  /** Days in the first `years` March-based years of a cycle. */
  function MarchDays(years: int): int {
    365 * years + years / 4 - years / 100
  }

  /** Days from 1 March to the first day of the month `mp` months later. */
  function MarchMonthStart(mp: int): int {
    (MONTHS_SHIFT * mp + 2) / 5
  }

  /** Calendar year, month and day of a day of a March-based year. */
  function CivilOf(marchYear: int, dayOfYear: int): (int, int, int) {
    var monthPrime := (5 * dayOfYear + 2) / MONTHS_SHIFT;
    var day := dayOfYear - MarchMonthStart(monthPrime) + 1;
    var month := if monthPrime < 10 then monthPrime + 3 else monthPrime - 9;
    (if month <= 2 then marchYear + 1 else marchYear, month, day)
  }

  /** March-based year, and day of it, of a day counted from 1 March of the year 0. */
  function CycleDay(z: nat): (int, int) {
    var era := z / DAYS_PER_ERA;
    var dayOfEra := z - era * DAYS_PER_ERA;
    var yearOfEra := YearOfEra(dayOfEra);
    (yearOfEra + era * 400, dayOfEra - MarchDays(yearOfEra))
  }

  /** Year, month and day of a day counted from 1 March of the year 0, before fitting. */
  function CivilDate(z: nat): (int, int, int) {
    CivilOf(CycleDay(z).0, CycleDay(z).1)
  }

  function FromUnixSecs(secs: nat): SigningTime {
    var daySecs := secs % SECS_PER_DAY;
    var (year, month, day) := CivilDate(secs / SECS_PER_DAY + DAYS_TO_CIVIL_SHIFT);
    SigningTime(Fitted(year, U16_LIMIT, 1970), Fitted(month, 256, 1), Fitted(day, 256, 1),
                Fitted(daySecs / 3600, 256, 0), Fitted(daySecs / 60 % 60, 256, 0), Fitted(daySecs % 60, 256, 0))
  }

  /** Two zero-padded ASCII digits. */
  function DigitPair(value: nat): octets {
    [48 + value / 10 % 10, 48 + value % 10]
  }

  /** The `UTCTime` body, or `None` outside the years its two-digit form can express. */
  function ToUtcTime(t: SigningTime): Option<octets> {
    if t.year < 1950 || t.year >= 2050 then None
    else
      Some(DigitPair(t.year % 100) + DigitPair(t.month) + DigitPair(t.day)
           + DigitPair(t.hour) + DigitPair(t.minute) + DigitPair(t.second) + [90])
  }

  // ----- The Gregorian calendar -----

  predicate IsLeap(year: nat) {
    year % 4 == 0 && (year % 100 != 0 || year % 400 == 0)
  }

  function DaysInMonth(year: nat, month: nat): nat {
    if month == 2 then (if IsLeap(year) then 29 else 28)
    else if month in {4, 6, 9, 11} then 30
    else 31
  }

  /** Days from 1 January 1970 to 1 January of `year`. */
  function DaysBeforeYear(year: nat): nat {
    if year <= 1970 then 0
    else DaysBeforeYear(year - 1) + (if IsLeap(year - 1) then 366 else 365)
  }

  /** Days from 1 January to the first day of `month`. */
  function DaysBeforeMonth(year: nat, month: nat): nat {
    if month <= 1 then 0 else DaysBeforeMonth(year, month - 1) + DaysInMonth(year, month - 1)
  }

  predicate IsDate(t: SigningTime) {
    && t.year >= 1970
    && 1 <= t.month <= 12
    && 1 <= t.day <= DaysInMonth(t.year, t.month)
    && t.hour < 24 && t.minute < 60 && t.second < 60
  }

  function DayNumber(year: nat, month: nat, day: nat): int {
    DaysBeforeYear(year) + DaysBeforeMonth(year, month) + day - 1
  }

  function UnixSecs(t: SigningTime): int {
    DayNumber(t.year, t.month, t.day) * SECS_PER_DAY + t.hour * 3600 + t.minute * 60 + t.second
  }

  // ----- The conversion agrees with it -----

  /** The cycle day as `c` centuries, `q` four-year groups and `r` days. */
  lemma YearOfEraSplit(c: nat, q: nat, r: nat)
    requires c < 4 && q < 25 && r < 1461 && 1461 * q + r < 36_524
    ensures YearOfEra(36_524 * c + 1461 * q + r) == 100 * c + 4 * q + (if r == 1460 then 3 else r / 365)
  {
    var d := 36_524 * c + 1461 * q + r;
    var t := if 24 * c + q + r >= 1460 then 1 else 0;
    assert d / 1460 == 25 * c + q + t;
    assert d / 36_524 == c;
    assert d / 146_096 == 0;
    assert d - d / 1460 + d / 36_524 == 365 * (100 * c + 4 * q) + r - t;
  }

  lemma YearOfEraFits(d: nat)
    requires d < DAYS_PER_ERA
    ensures 0 <= YearOfEra(d) <= 399
    ensures MarchDays(YearOfEra(d)) <= d
    ensures d < MarchDays(YearOfEra(d) + 1) + (if YearOfEra(d) == 399 then 1 else 0)
  {
    if d == 146_096 {
      assert YearOfEra(d) == 399;
    } else {
      var c, inCentury := d / 36_524, d % 36_524;
      var q, r := inCentury / 1461, inCentury % 1461;
      YearOfEraSplit(c, q, r);
      MarchDaysSplit(c, q, if r == 1460 then 3 else r / 365);
    }
  }

  lemma MarchDaysSplit(c: nat, q: nat, y: nat)
    requires c < 4 && q < 25 && y < 4
    ensures MarchDays(100 * c + 4 * q + y) == 36_524 * c + 1461 * q + 365 * y
    ensures MarchDays(100 * c + 4 * q + y + 1)
      == 36_524 * c + 1461 * q + 365 * (y + 1) + (if y == 3 && q != 24 then 1 else 0)
  {
    var years := 100 * c + 4 * q + y;
    assert years / 4 == 25 * c + q;
    assert years / 100 == c;
    assert (years + 1) / 4 == 25 * c + q + (if y == 3 then 1 else 0);
    assert (years + 1) / 100 == c + (if q == 24 && y == 3 then 1 else 0);
  }

  /** Days of the March-based years 0 to `year`, leap days included. */
  function MarchYearStart(year: nat): int {
    365 * year + year / 4 - year / 100 + year / 400
  }

  lemma {:induction false} DaysBeforeYearClosed(year: nat)
    requires year >= 1970
    ensures DaysBeforeYear(year) == MarchYearStart(year - 1) - 719_162
  {
    if year > 1970 {
      DaysBeforeYearClosed(year - 1);
      LeapYearDay(year - 1);
    }
  }

  lemma LeapYearDay(year: nat)
    requires year >= 1
    ensures MarchYearStart(year) - MarchYearStart(year - 1) == (if IsLeap(year) then 366 else 365)
  {
    DivisionStep4(year);
    DivisionStep100(year);
    DivisionStep400(year);
  }

  lemma DivisionStep4(year: nat)
    requires year >= 1
    ensures year / 4 - (year - 1) / 4 == if year % 4 == 0 then 1 else 0
  {
  }

  lemma DivisionStep100(year: nat)
    requires year >= 1
    ensures year / 100 - (year - 1) / 100 == if year % 100 == 0 then 1 else 0
    ensures year % 100 == 0 ==> year % 4 == 0
  {
    var q := year / 100;
    if year % 100 == 0 {
      assert year == 4 * (25 * q);
    }
  }

  lemma DivisionStep400(year: nat)
    requires year >= 1
    ensures year / 400 - (year - 1) / 400 == if year % 400 == 0 then 1 else 0
    ensures year % 400 == 0 ==> year % 100 == 0
  {
    var q := year / 400;
    if year % 400 == 0 {
      assert year == 100 * (4 * q);
    }
  }

  lemma MonthOffsets(year: nat)
    ensures DaysBeforeMonth(year, 1) == 0 && DaysBeforeMonth(year, 2) == 31
    ensures var f := if IsLeap(year) then 60 else 59;
      && DaysBeforeMonth(year, 3) == f && DaysBeforeMonth(year, 4) == f + 31
      && DaysBeforeMonth(year, 5) == f + 61 && DaysBeforeMonth(year, 6) == f + 92
      && DaysBeforeMonth(year, 7) == f + 122 && DaysBeforeMonth(year, 8) == f + 153
      && DaysBeforeMonth(year, 9) == f + 184 && DaysBeforeMonth(year, 10) == f + 214
      && DaysBeforeMonth(year, 11) == f + 245 && DaysBeforeMonth(year, 12) == f + 275
  {
  }

  lemma MarchMonthStarts()
    ensures MarchMonthStart(0) == 0 && MarchMonthStart(1) == 31 && MarchMonthStart(2) == 61
    ensures MarchMonthStart(3) == 92 && MarchMonthStart(4) == 122 && MarchMonthStart(5) == 153
    ensures MarchMonthStart(6) == 184 && MarchMonthStart(7) == 214 && MarchMonthStart(8) == 245
    ensures MarchMonthStart(9) == 275 && MarchMonthStart(10) == 306 && MarchMonthStart(11) == 337
  {
  }

  lemma MonthPrimeFits(dayOfYear: nat)
    requires dayOfYear <= 365
    ensures var mp := (5 * dayOfYear + 2) / MONTHS_SHIFT;
      && mp <= 11
      && MarchMonthStart(mp) <= dayOfYear
      && (mp < 11 ==> dayOfYear < MarchMonthStart(mp + 1))
  {
  }

  /** The calendar's month starts are the March-based ones, counted from the year's 1 January. */
  lemma MonthStartShift(year: nat, mp: nat)
    requires year >= 1970 && mp <= 11
    ensures mp < 10 ==>
      DaysBeforeYear(year) + DaysBeforeMonth(year, mp + 3)
        == MarchYearStart(year) + MarchMonthStart(mp) - DAYS_TO_CIVIL_SHIFT
    ensures mp >= 10 ==>
      DaysBeforeYear(year) + DaysBeforeMonth(year, mp - 9)
        == MarchYearStart(year - 1) + MarchMonthStart(mp) - DAYS_TO_CIVIL_SHIFT
    ensures mp < 10 ==> DaysInMonth(year, mp + 3) == MarchMonthStart(mp + 1) - MarchMonthStart(mp)
  {
    DaysBeforeYearClosed(year);
    LeapYearDay(year);
    MonthOffsets(year);
    MarchMonthStarts();
  }

  /** A day of a March-based year, as month and day of the calendar. */
  lemma MarchDayIsCalendarDay(marchYear: nat, dayOfYear: nat)
    requires marchYear >= 1969 && dayOfYear <= 365
    requires MarchYearStart(marchYear) + dayOfYear < MarchYearStart(marchYear + 1)
    requires marchYear == 1969 ==> dayOfYear >= 306
    ensures var (year, month, day) := CivilOf(marchYear, dayOfYear);
      && year >= 1970
      && 1 <= month <= 12
      && 1 <= day <= DaysInMonth(year, month)
      && DayNumber(year, month, day) == MarchYearStart(marchYear) + dayOfYear - DAYS_TO_CIVIL_SHIFT
  {
    var mp := (5 * dayOfYear + 2) / MONTHS_SHIFT;
    MonthPrimeFits(dayOfYear);
    MarchMonthStarts();
    var year := if mp < 10 then marchYear else marchYear + 1;
    MonthStartShift(year, mp);
    LeapYearDay(marchYear + 1);
  }

  /** A day count from the civil shift lies in the March-based year the cycle arithmetic finds. */
  lemma CycleDayFits(z: nat)
    requires z >= DAYS_TO_CIVIL_SHIFT
    ensures var (marchYear, dayOfYear) := CycleDay(z);
      && marchYear >= 1969
      && 0 <= dayOfYear <= 365
      && (marchYear == 1969 ==> dayOfYear >= 306)
      && MarchYearStart(marchYear) + dayOfYear == z < MarchYearStart(marchYear + 1)
  {
    hide MarchYearStart, MarchDays, YearOfEra;
    var era, d := z / DAYS_PER_ERA, z % DAYS_PER_ERA;
    assert d == z - era * DAYS_PER_ERA;
    YearOfEraFits(d);
    var yoe := YearOfEra(d);
    var marchYear := yoe + era * 400;
    EraYear(era, yoe);
    LeapYearDay(marchYear + 1);
    MarchYearFrom1970(marchYear, d - MarchDays(yoe));
  }

  lemma EraYear(era: nat, yoe: nat)
    requires yoe <= 399
    ensures MarchYearStart(yoe + era * 400) == DAYS_PER_ERA * era + MarchDays(yoe)
    ensures MarchYearStart(yoe + era * 400 + 1)
      == DAYS_PER_ERA * era + MarchDays(yoe + 1) + (if yoe == 399 then 1 else 0)
  {
    var y := yoe + 1 + era * 400;
    assert y / 4 == (yoe + 1) / 4 + era * 100;
    assert y / 100 == (yoe + 1) / 100 + era * 4;
    assert y / 400 == (yoe + 1) / 400 + era;
    assert (y - 1) / 4 == yoe / 4 + era * 100;
    assert (y - 1) / 100 == yoe / 100 + era * 4;
    assert (y - 1) / 400 == era;
  }

  /** The epoch is day 306 of March-based year 1969. */
  lemma MarchYearFrom1970(marchYear: nat, dayOfYear: nat)
    requires MarchYearStart(marchYear) + dayOfYear >= DAYS_TO_CIVIL_SHIFT && dayOfYear <= 365
    requires MarchYearStart(marchYear) + dayOfYear < MarchYearStart(marchYear + 1)
    ensures marchYear >= 1969
    ensures marchYear == 1969 ==> dayOfYear >= 306
  {
  }

  /** The cycle arithmetic finds the calendar's date, for every day from the epoch on. */
  lemma CivilDateCorrect(z: nat)
    requires z >= DAYS_TO_CIVIL_SHIFT
    ensures var (year, month, day) := CivilDate(z);
      && year >= 1970
      && 1 <= month <= 12
      && 1 <= day <= DaysInMonth(year, month)
      && DayNumber(year, month, day) == z - DAYS_TO_CIVIL_SHIFT
  {
    CycleDayFits(z);
    MarchDayIsCalendarDay(CycleDay(z).0, CycleDay(z).1);
  }

  lemma TimeOfDay(daySecs: nat)
    requires daySecs < SECS_PER_DAY
    ensures daySecs / 3600 < 24
    ensures daySecs == daySecs / 3600 * 3600 + daySecs / 60 % 60 * 60 + daySecs % 60
  {
    assert daySecs / 3600 == daySecs / 60 / 60;
  }

  /**
   The conversion gives a valid date and time that counts back to the same second, for every clock
   value before the year 65536.
   */
  lemma FromUnixSecsCorrect(secs: nat)
    requires secs / SECS_PER_DAY < FITTING_DAYS
    ensures IsDate(FromUnixSecs(secs))
    ensures UnixSecs(FromUnixSecs(secs)) == secs
  {
    FieldsFit(secs);
    hide CivilDate, DaysBeforeMonth, DaysBeforeYear, FromUnixSecs;
    var z := secs / SECS_PER_DAY + DAYS_TO_CIVIL_SHIFT;
    CivilDateCorrect(z);
    TimeOfDay(secs % SECS_PER_DAY);
  }

  /** No field falls back. */
  lemma FieldsFit(secs: nat)
    requires secs / SECS_PER_DAY < FITTING_DAYS
    ensures var t, daySecs := FromUnixSecs(secs), secs % SECS_PER_DAY;
      && CivilDate(secs / SECS_PER_DAY + DAYS_TO_CIVIL_SHIFT) == (t.year, t.month, t.day)
      && t.hour == daySecs / 3600 && t.minute == daySecs / 60 % 60 && t.second == daySecs % 60
  {
    hide CivilDate, DayNumber, DaysInMonth, DaysBeforeYear;
    var z := secs / SECS_PER_DAY + DAYS_TO_CIVIL_SHIFT;
    CivilDateCorrect(z);
    TimeOfDay(secs % SECS_PER_DAY);
    var (year, month, day) := CivilDate(z);
    YearOfDay(year, month, day);
  }

  /** 1 January 65536, the first day whose year does not fit 16 bits, as days from the epoch. */
  const FITTING_DAYS: nat := 23_217_004

  lemma FittingDays(limit: nat)
    requires limit == U16_LIMIT
    ensures DaysBeforeYear(limit) == FITTING_DAYS
  {
    DaysBeforeYearClosed(limit);
  }

  /** A day belongs to its year: later years start later. */
  lemma YearOfDay(year: nat, month: nat, day: nat)
    requires year >= 1970 && 1 <= month <= 12 && 1 <= day <= DaysInMonth(year, month)
    ensures DaysBeforeYear(year) <= DayNumber(year, month, day) < DaysBeforeYear(year + 1)
    ensures DayNumber(year, month, day) < FITTING_DAYS <==> year < U16_LIMIT
    ensures day <= 31
  {
    MonthOffsets(year);
    var limit := U16_LIMIT;
    FittingDays(limit);
    if year < limit {
      YearsAscend(year + 1, limit);
    } else {
      YearsAscend(limit, year);
    }
  }

  lemma {:induction false} YearsAscend(a: nat, b: nat)
    requires 1970 <= a <= b
    ensures DaysBeforeYear(b) >= DaysBeforeYear(a) + 365 * (b - a)
    decreases b - a
  {
    if a < b {
      YearsAscend(a, b - 1);
    }
  }

  /** A day past the last fitting year is reported in 1970. */
  lemma FallbackIsEarly(secs: nat)
    requires secs / SECS_PER_DAY >= FITTING_DAYS
    ensures UnixSecs(FromUnixSecs(secs)) < 500 * SECS_PER_DAY
  {
    var z := secs / SECS_PER_DAY + DAYS_TO_CIVIL_SHIFT;
    CivilDateCorrect(z);
    var (year, month, day) := CivilDate(z);
    YearOfDay(year, month, day);
    var t := FromUnixSecs(secs);
    assert t.year == 1970 && t.month == month && t.day == day;
    SmallTime(t);
  }

  lemma SmallTime(t: SigningTime)
    requires t.year == 1970 && 1 <= t.month <= 12 && t.day <= 31
    requires t.hour < 256 && t.minute < 256 && t.second < 256
    ensures UnixSecs(t) < 500 * SECS_PER_DAY
  {
    MonthOffsets(1970);
  }

  /**
   The 16-bit year field is the only thing that breaks the round trip: it holds exactly for the
   second counts before 1 January 65536. From there on the year reads 1970.
   */
  lemma RoundTripExactly(secs: nat)
    ensures UnixSecs(FromUnixSecs(secs)) == secs <==> secs < FITTING_DAYS * SECS_PER_DAY
  {
    if secs / SECS_PER_DAY < FITTING_DAYS {
      FromUnixSecsCorrect(secs);
    } else {
      FallbackIsEarly(secs);
    }
  }

  /** Earlier fields first: the order a reader compares two times in. */
  predicate Before(s: SigningTime, t: SigningTime) {
    || s.year < t.year
    || (s.year == t.year && s.month < t.month)
    || (s.year == t.year && s.month == t.month && s.day < t.day)
    || (s.year == t.year && s.month == t.month && s.day == t.day
        && s.hour * 3600 + s.minute * 60 + s.second < t.hour * 3600 + t.minute * 60 + t.second)
  }

  lemma {:induction false} MonthsAscend(year: nat, a: nat, b: nat)
    requires 1 <= a <= b
    ensures DaysBeforeMonth(year, a) <= DaysBeforeMonth(year, b)
    ensures a < b ==> DaysBeforeMonth(year, a) + DaysInMonth(year, a) <= DaysBeforeMonth(year, b)
    decreases b - a
  {
    if a < b {
      MonthsAscend(year, a, b - 1);
    }
  }

  /** Field order is time order, for dates of the calendar. */
  lemma FieldOrderIsTimeOrder(s: SigningTime, t: SigningTime)
    requires IsDate(s) && IsDate(t) && UnixSecs(s) < UnixSecs(t)
    ensures Before(s, t)
  {
    if t.year < s.year {
      YearOfDay(t.year, t.month, t.day);
      YearOfDay(s.year, s.month, s.day);
      YearsAscend(t.year + 1, s.year);
      assert false;
    } else if s.year == t.year && t.month < s.month {
      MonthsAscend(s.year, t.month, s.month);
      assert false;
    }
  }

  /** The conversion is strictly increasing while the year fits its field. */
  lemma FromUnixSecsAscends(early: nat, late: nat)
    requires early < late < FITTING_DAYS * SECS_PER_DAY
    ensures Before(FromUnixSecs(early), FromUnixSecs(late))
  {
    FromUnixSecsCorrect(early);
    FromUnixSecsCorrect(late);
    FieldOrderIsTimeOrder(FromUnixSecs(early), FromUnixSecs(late));
  }
}
