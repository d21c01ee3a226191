/** Dates of the Gregorian calendar as days since 1970-01-01, and back. */
module Calendar {
  datatype Date = Date(year: nat, month: nat, day: nat)

  predicate IsLeapYear(year: nat) {
    year % 4 == 0 && (year % 100 != 0 || year % 400 == 0)
  }

  function DaysInMonth(year: nat, month: nat): nat {
    match month
    case 2 => if IsLeapYear(year) then 29 else 28
    case 4 | 6 | 9 | 11 => 30
    case _ => 31
  }

  /** The calendar repeats every 400 years, so that those before 1970 are as those after. */
  lemma {:induction false} MonthsRepeat(year: nat, month: nat)
    ensures DaysInMonth(year + 400, month) == DaysInMonth(year, month)
  {
    var q, r := year / 400, year % 400;
    LeapByEra(q, r);
    LeapByEra(q + 1, r);
  }

  lemma {:induction false} LeapByEra(q: nat, r: nat)
    requires r < 400
    ensures IsLeapYear(400 * q + r) <==> IsLeapYear(r)
  {
    var n := 400 * q + r;
    Remainder400(n, q, r);
    Remainder100(n, 4 * q + r / 100, r % 100);
    Remainder4(n, 100 * q + r / 4, r % 4);
  }

  lemma {:induction false} Remainder400(n: nat, k: nat, l: nat)
    requires n == 400 * k + l && l < 400
    ensures n % 400 == l && (n % 400 == 0 <==> l % 400 == 0)
  {
  }

  lemma {:induction false} Remainder100(n: nat, k: nat, l: nat)
    requires n == 100 * k + l && l < 100
    ensures n % 100 == l
  {
  }

  lemma {:induction false} Remainder4(n: nat, k: nat, l: nat)
    requires n == 4 * k + l && l < 4
    ensures n % 4 == l
  {
  }

  /** A real date from 1970 on. */
  predicate IsDate(d: Date) {
    1970 <= d.year && 1 <= d.month <= 12 && 1 <= d.day <= DaysInMonth(d.year, d.month)
  }

  /** Days before the month that is `shifted` after March. */
  function MonthStart(shifted: nat): nat {
    (153 * shifted + 2) / 5
  }

  /** Days before the year that is `yearOfEra` after the era's first. */
  function YearStart(yearOfEra: nat): int {
    365 * yearOfEra + yearOfEra / 4 - yearOfEra / 100
  }

  function DaysFromCivil(d: Date): int
    requires d.year >= 1 && 1 <= d.month <= 12
  {
    // Years run from March here, which puts a leap day last.
    var year := if d.month <= 2 then d.year - 1 else d.year;
    var era, yearOfEra := year / 400, year % 400;
    var dayOfYear := (153 * ((d.month + 9) % 12) + 2) / 5 + d.day - 1;
    var dayOfEra := yearOfEra * 365 + yearOfEra / 4 - yearOfEra / 100 + dayOfYear;
    era * 146_097 + dayOfEra - 719_468
  }

  function YearOfEra(dayOfEra: int): int {
    (dayOfEra - dayOfEra / 1_460 + dayOfEra / 36_524 - dayOfEra / 146_096) / 365
  }

  function CivilFromDays(daysFromEpoch: nat): (int, int, int) {
    var days := daysFromEpoch + 719_468;
    var era, dayOfEra := days / 146_097, days % 146_097;
    var yearOfEra := YearOfEra(dayOfEra);
    var dayOfYear := dayOfEra - (365 * yearOfEra + yearOfEra / 4 - yearOfEra / 100);
    var shiftedMonth := (5 * dayOfYear + 2) / 153;
    var day := dayOfYear - (153 * shiftedMonth + 2) / 5 + 1;
    var month := if shiftedMonth < 10 then shiftedMonth + 3 else shiftedMonth - 9;
    var year := era * 400 + yearOfEra + (if month <= 2 then 1 else 0);
    (year, month, day)
  }

  // ----- months and years of an era

  /** The month a day of the year falls in. */
  lemma {:induction false} MonthOf(dayOfYear: int, shifted: nat)
    requires MonthStart(shifted) <= dayOfYear < MonthStart(shifted + 1)
    ensures (5 * dayOfYear + 2) / 153 == shifted
  {
  }

  /** The leap day ends the year: these are the years, from March, that have one. */
  predicate EndsLeap(yearOfEra: nat) {
    IsLeapYear(yearOfEra + 1)
  }

  function YearLength(yearOfEra: nat): nat {
    if EndsLeap(yearOfEra) then 366 else 365
  }

  lemma {:induction false} NextYearStart(yearOfEra: nat)
    requires yearOfEra < 400
    ensures YearStart(yearOfEra) + YearLength(yearOfEra) == if yearOfEra == 399 then 146_097 else YearStart(yearOfEra + 1)
  {
  }

  /** Centuries: all but the last are 36524 days, and the last one more. */
  lemma {:induction false} CenturyOf(dayOfEra: int, century: nat, inner: nat)
    requires century < 4 && dayOfEra == 36_524 * century + inner && inner <= (if century == 3 then 36_524 else 36_523)
    ensures dayOfEra / 36_524 - dayOfEra / 146_096 == century
  {
  }

  /** Year `v` of the `u`th four of a century: at most one day is taken off too many, and only late in the year. */
  lemma {:induction false} FourOf(dayOfEra: int, century: nat, u: nat, v: nat, day: nat)
    requires century < 4 && u < 25 && v < 4 && day < (if v == 3 then 366 else 365)
    requires dayOfEra == 1_460 * (25 * century + u) + 24 * century + 365 * v + u + day
    ensures 25 * century + u <= dayOfEra / 1_460 <= 25 * century + u + 1
    ensures var extra := dayOfEra / 1_460 - (25 * century + u); 0 <= day - extra < 365
  {
  }

  /** The year of the era a day of it falls in. */
  lemma {:induction false} YearOf(dayOfEra: int, yearOfEra: nat)
    requires yearOfEra < 400
    requires YearStart(yearOfEra) <= dayOfEra < YearStart(yearOfEra) + YearLength(yearOfEra)
    ensures YearOfEra(dayOfEra) == yearOfEra
  {
    var century, ofCentury := yearOfEra / 100, yearOfEra % 100;
    var u, v, day := ofCentury / 4, ofCentury % 4, dayOfEra - YearStart(yearOfEra);
    assert yearOfEra / 4 == 25 * century + u;
    CenturyOf(dayOfEra, century, 365 * ofCentury + u + day);
    FourOf(dayOfEra, century, u, v, day);
    YearFrom(365 * yearOfEra, day - (dayOfEra / 1_460 - (25 * century + u)), yearOfEra);
  }

  lemma {:induction false} YearFrom(base: int, day: int, year: nat)
    requires base == 365 * year && 0 <= day < 365
    ensures (base + day) / 365 == year
  {
  }

  // ----- the two conversions are inverse

  /** The calendar's year of a date, from March, and the month and day within it. */
  predicate Shifted(d: Date, year: nat, shifted: nat, dayOfYear: int) {
    && year == (if d.month <= 2 then d.year - 1 else d.year)
    && shifted == (d.month + 9) % 12
    && dayOfYear == MonthStart(shifted) + d.day - 1
  }

  /** A real date is a day of its year, within its month. */
  lemma {:induction false} DateInYear(d: Date, year: nat, shifted: nat, dayOfYear: int)
    requires d.year >= 1 && 1 <= d.month <= 12 && Shifted(d, year, shifted, dayOfYear)
    ensures 1 <= d.day <= DaysInMonth(d.year, d.month) <==>
              MonthStart(shifted) <= dayOfYear < MonthStart(shifted + 1) && dayOfYear < YearLength(year % 400)
  {
    LeapInEra(year);
    assert shifted == if d.month <= 2 then d.month + 9 else d.month - 3;
  }

  lemma {:induction false} LeapInEra(year: nat)
    ensures EndsLeap(year % 400) <==> IsLeapYear(year + 1)
  {
    var era, rest := year / 400, year % 400;
    FoursInEra(era, rest + 1);
    CenturiesInEra(era, rest + 1);
    assert year + 1 == 400 * era + (rest + 1) && (year + 1) % 400 == (rest + 1) % 400;
  }

  lemma {:induction false} FoursInEra(era: nat, year: nat)
    ensures (400 * era + year) % 4 == year % 4
  {
  }

  lemma {:induction false} CenturiesInEra(era: nat, year: nat)
    ensures (400 * era + year) % 100 == year % 100
  {
  }

  lemma {:induction false} EraOf(era: nat, dayOfEra: nat)
    requires dayOfEra < 146_097
    ensures (era * 146_097 + dayOfEra) / 146_097 == era && (era * 146_097 + dayOfEra) % 146_097 == dayOfEra
  {
  }

  lemma {:induction false} DayOfEraSmall(yearOfEra: nat, dayOfYear: int)
    requires yearOfEra < 400 && 0 <= dayOfYear < YearLength(yearOfEra)
    ensures 0 <= YearStart(yearOfEra) + dayOfYear < 146_097
  {
  }

  /** What is computed once the era and the day of it are known. */
  function CivilAt(era: nat, dayOfEra: nat): (int, int, int) {
    var yearOfEra := YearOfEra(dayOfEra);
    var dayOfYear := dayOfEra - (365 * yearOfEra + yearOfEra / 4 - yearOfEra / 100);
    var shiftedMonth := (5 * dayOfYear + 2) / 153;
    var month := if shiftedMonth < 10 then shiftedMonth + 3 else shiftedMonth - 9;
    (era * 400 + yearOfEra + (if month <= 2 then 1 else 0), month, dayOfYear - (153 * shiftedMonth + 2) / 5 + 1)
  }

  lemma {:induction false} CivilIs(days: nat, era: nat, dayOfEra: nat)
    requires days + 719_468 == era * 146_097 + dayOfEra && dayOfEra < 146_097
    ensures CivilFromDays(days) == CivilAt(era, dayOfEra)
  {
    hide YearOfEra;
    EraOf(era, dayOfEra);
  }

  lemma {:induction false} DaysIs(d: Date, year: nat, shifted: nat, dayOfYear: int)
    requires d.year >= 1 && 1 <= d.month <= 12 && Shifted(d, year, shifted, dayOfYear)
    ensures DaysFromCivil(d) + 719_468 == year / 400 * 146_097 + YearStart(year % 400) + dayOfYear
  {
  }

  lemma {:induction false} CivilAtIs(era: nat, yearOfEra: nat, shifted: nat, dayOfYear: nat)
    requires yearOfEra < 400 && shifted < 12 && dayOfYear < YearLength(yearOfEra)
    requires MonthStart(shifted) <= dayOfYear < MonthStart(shifted + 1)
    ensures 0 <= YearStart(yearOfEra) + dayOfYear < 146_097
    ensures var month := if shifted < 10 then shifted + 3 else shifted - 9;
            CivilAt(era, YearStart(yearOfEra) + dayOfYear) ==
              (400 * era + yearOfEra + (if month <= 2 then 1 else 0), month, dayOfYear - MonthStart(shifted) + 1)
  {
    hide YearOfEra, YearLength;
    DayOfEraSmall(yearOfEra, dayOfYear);
    YearOf(YearStart(yearOfEra) + dayOfYear, yearOfEra);
    MonthOf(dayOfYear, shifted);
  }

  /** Whatever real date is counted in days, those days are that date. */
  lemma {:induction false} CivilOfDays(d: Date)
    requires IsDate(d)
    ensures DaysFromCivil(d) >= 0 && CivilFromDays(DaysFromCivil(d)) == (d.year as int, d.month as int, d.day as int)
  {
    hide YearStart, YearLength, CivilAt, CivilFromDays, DaysFromCivil;
    var year := if d.month <= 2 then d.year - 1 else d.year;
    var shifted := (d.month + 9) % 12;
    var dayOfYear := MonthStart(shifted) + d.day - 1;
    DateInYear(d, year, shifted, dayOfYear);
    CivilAtIs(year / 400, year % 400, shifted, dayOfYear);
    FromEpoch(d);
    DaysIs(d, year, shifted, dayOfYear);
    CivilIs(DaysFromCivil(d), year / 400, YearStart(year % 400) + dayOfYear);
    assert shifted == if d.month <= 2 then d.month + 9 else d.month - 3;
    assert 400 * (year / 400) + year % 400 == year;
  }

  /** Days from 1970 on are not negative. */
  lemma {:induction false} FromEpoch(d: Date)
    requires IsDate(d)
    ensures DaysFromCivil(d) >= 0
  {
    var year := if d.month <= 2 then d.year - 1 else d.year;
    var era, yearOfEra := year / 400, year % 400;
    if era == 4 {
      assert yearOfEra >= 369;
    }
  }

  lemma {:induction false} FindYear(dayOfEra: nat, from: nat) returns (yearOfEra: nat)
    requires from < 400 && YearStart(from) <= dayOfEra < 146_097
    ensures yearOfEra < 400 && YearStart(yearOfEra) <= dayOfEra < YearStart(yearOfEra) + YearLength(yearOfEra)
    decreases 400 - from
  {
    hide YearStart, YearLength;
    NextYearStart(from);
    if dayOfEra < YearStart(from) + YearLength(from) {
      yearOfEra := from;
    } else {
      yearOfEra := FindYear(dayOfEra, from + 1);
    }
  }

  lemma {:induction false} FindMonth(dayOfYear: nat) returns (shifted: nat)
    requires dayOfYear < 366
    ensures shifted < 12 && MonthStart(shifted) <= dayOfYear < MonthStart(shifted + 1)
  {
    shifted := (5 * dayOfYear + 2) / 153;
  }

  /** Days on or after 1970-01-01 are in 1970 or later. */
  lemma {:induction false} YearFromEpoch(era: nat, yearOfEra: nat, shifted: nat, dayOfYear: nat)
    requires yearOfEra < 400 && era * 146_097 + YearStart(yearOfEra) + dayOfYear >= 719_468
    requires dayOfYear < 366 && shifted < 12 && dayOfYear < MonthStart(shifted + 1)
    ensures 400 * era + yearOfEra + (if shifted >= 10 then 1 else 0) >= 1970
  {
  }

  /** Every day from 1970-01-01 on is a real date, and counting it gives the day back. */
  lemma {:induction false} DaysOfCivil(days: nat)
    ensures var (year, month, day) := CivilFromDays(days);
            year >= 0 && month >= 0 && day >= 0 && IsDate(Date(year, month, day)) && DaysFromCivil(Date(year, month, day)) == days
  {
    hide YearStart, YearLength, CivilAt, CivilFromDays, DaysFromCivil;
    var era, dayOfEra := (days + 719_468) / 146_097, (days + 719_468) % 146_097;
    assert YearStart(0) == 0 by {
      FirstYear();
    }
    var yearOfEra := FindYear(dayOfEra, 0);
    var dayOfYear := dayOfEra - YearStart(yearOfEra);
    YearLengths(yearOfEra);
    var shifted := FindMonth(dayOfYear);
    CivilIs(days, era, dayOfEra);
    CivilAtIs(era, yearOfEra, shifted, dayOfYear);
    YearFromEpoch(era, yearOfEra, shifted, dayOfYear);
    var month := if shifted < 10 then shifted + 3 else shifted - 9;
    var year := 400 * era + yearOfEra;
    var d := Date(year + (if month <= 2 then 1 else 0), month, dayOfYear - MonthStart(shifted) + 1);
    assert year / 400 == era && year % 400 == yearOfEra;
    DateInYear(d, year, shifted, dayOfYear);
    DaysIs(d, year, shifted, dayOfYear);
  }

  lemma {:induction false} FirstYear()
    ensures YearStart(0) == 0
  {
  }

  lemma {:induction false} YearLengths(yearOfEra: nat)
    ensures YearLength(yearOfEra) <= 366
  {
  }

  // ----- what the count means

  /** The day after, as a calendar shows it. */
  function NextDay(d: Date): Date {
    if d.day < DaysInMonth(d.year, d.month) then d.(day := d.day + 1)
    else if d.month < 12 then Date(d.year, d.month + 1, 1)
    else Date(d.year + 1, 1, 1)
  }

  lemma {:induction false} EpochIsZero()
    ensures DaysFromCivil(Date(1970, 1, 1)) == 0
  {
  }

  /** The count goes up by one each day, whatever month, year, or era ends. */
  lemma {:induction false} NextDayCounts(d: Date)
    requires IsDate(d)
    ensures IsDate(NextDay(d)) && DaysFromCivil(NextDay(d)) == DaysFromCivil(d) + 1
  {
    hide YearStart, YearLength, DaysFromCivil;
    var year := if d.month <= 2 then d.year - 1 else d.year;
    var shifted := (d.month + 9) % 12;
    var dayOfYear := MonthStart(shifted) + d.day - 1;
    DateInYear(d, year, shifted, dayOfYear);
    DaysIs(d, year, shifted, dayOfYear);
    var next := NextDay(d);
    if d.day < DaysInMonth(d.year, d.month) || d.month != 2 {
      NextInYear(d, year, shifted, dayOfYear);
      DaysIs(next, year, (next.month + 9) % 12, dayOfYear + 1);
    } else {
      YearEnds(d);
      DaysIs(next, year + 1, 0, 0);
      NextYearStart(year % 400);
      EraEnds(year);
    }
  }

  lemma {:induction false} NextInYear(d: Date, year: nat, shifted: nat, dayOfYear: int)
    requires IsDate(d) && Shifted(d, year, shifted, dayOfYear)
    requires d.day < DaysInMonth(d.year, d.month) || d.month != 2
    ensures IsDate(NextDay(d)) && Shifted(NextDay(d), year, (NextDay(d).month + 9) % 12, dayOfYear + 1)
  {
  }

  /** The last of February is the last day of the year from March. */
  lemma {:induction false} YearEnds(d: Date)
    requires IsDate(d) && d.month == 2 && d.day == DaysInMonth(d.year, 2)
    ensures NextDay(d) == Date(d.year, 3, 1) && Shifted(NextDay(d), d.year, 0, 0)
    ensures MonthStart(11) + d.day == YearLength((d.year - 1) % 400)
  {
    LeapInEra(d.year - 1);
  }

  lemma {:induction false} EraEnds(year: nat)
    ensures (year + 1) / 400 == year / 400 + (if year % 400 == 399 then 1 else 0)
    ensures (year + 1) % 400 == if year % 400 == 399 then 0 else year % 400 + 1
    ensures YearStart(0) == 0
  {
  }
}
