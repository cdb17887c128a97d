/**
 * Proleptic Gregorian calendar arithmetic: the conversion between a civil
 * date and a count of days since 1970-01-01 that the C library performs
 * inside `gmtime_s` and `std::chrono::parse`.
 *
 * Days are counted internally from 0000-03-01 in "shifted" years that start
 * on the first of March, so that the leap day is the last day of its year.
 * Shifted year `sy` runs from `sy`-03-01 to the end of February of `sy + 1`.
 */
module Calendar {

  /** A civil date: year, month 1..12, day of month. */
  datatype Date = Date(year: int, month: int, day: int)

  predicate IsLeap(y: int) {
    y % 4 == 0 && (y % 100 != 0 || y % 400 == 0)
  }

  function DaysInMonth(y: int, m: int): int
    requires 1 <= m <= 12
  {
    if m == 2 then (if IsLeap(y) then 29 else 28)
    else if m == 4 || m == 6 || m == 9 || m == 11 then 30
    else 31
  }

  predicate ValidDate(d: Date) {
    1 <= d.month <= 12 && 1 <= d.day <= DaysInMonth(d.year, d.month)
  }

  /** Day of the shifted year on which each month starts, March first. */
  const MarchStarts: seq<int> := [0, 31, 61, 92, 122, 153, 184, 214, 245, 275, 306, 337]

  /** Days in shifted year `sy`; its February belongs to civil year `sy + 1`. */
  function ShiftedYearLength(sy: int): int {
    if IsLeap(sy + 1) then 366 else 365
  }

  /** Days from 0000-03-01 to `sy`-03-01. */
  function DaysBeforeShiftedYear(sy: int): int {
    365 * sy + sy / 4 - sy / 100 + sy / 400
  }

  /** Days from 0000-03-01 to 1970-01-01. */
  const EpochShift := 719468

  /** Shifted year holding the date (January and February move to the previous year). */
  function ShiftedYear(d: Date): int {
    if d.month <= 2 then d.year - 1 else d.year
  }

  /** Index of the date's month counted from March. */
  function MarchMonth(m: int): int
    requires 1 <= m <= 12
  {
    if m >= 3 then m - 3 else m + 9
  }

  /** Days since 1970-01-01 of a civil date. */
  function DaysFromCivil(d: Date): int
    requires 1 <= d.month <= 12
  {
    DaysBeforeShiftedYear(ShiftedYear(d)) + MarchStarts[MarchMonth(d.month)] + d.day - 1 - EpochShift
  }

  /** The civil date of the following day. */
  function NextDate(d: Date): Date
    requires 1 <= d.month <= 12
  {
    if d.day < DaysInMonth(d.year, d.month) then Date(d.year, d.month, d.day + 1)
    else if d.month < 12 then Date(d.year, d.month + 1, 1)
    else Date(d.year + 1, 1, 1)
  }

  function Min(a: int, b: int): int {
    if a <= b then a else b
  }

  /** A day count since 0000-03-01 split into shifted year and day of that year. */
  datatype YearDay = YearDay(shiftedYear: int, dayOfYear: int)

  /**
   * Splits a day count since 0000-03-01 by 400-year eras (146097 days),
   * centuries (36524 days, the fourth one day longer), four-year groups
   * (1461 days, the last of a short century one day shorter) and years.
   */
  function SplitDays(n: int): (yd: YearDay)
    ensures 0 <= yd.dayOfYear <= 365
  {
    var era := n / 146097;
    var doe := n % 146097;
    var c := Min(doe / 36524, 3);
    var doc := doe - 36524 * c;
    var q := doc / 1461;
    var doq := doc % 1461;
    var yq := Min(doq / 365, 3);
    YearDay(400 * era + 100 * c + 4 * q + yq, doq - 365 * yq)
  }

  /** Month index from March of a day of a shifted year. */
  function MonthOfDay(doy: int): (mp: int)
    requires 0 <= doy
    ensures 0 <= mp < 12 && MarchStarts[mp] <= doy
    ensures mp < 11 ==> doy < MarchStarts[mp + 1]
  {
    if doy < 31 then 0
    else if doy < 61 then 1
    else if doy < 92 then 2
    else if doy < 122 then 3
    else if doy < 153 then 4
    else if doy < 184 then 5
    else if doy < 214 then 6
    else if doy < 245 then 7
    else if doy < 275 then 8
    else if doy < 306 then 9
    else if doy < 337 then 10
    else 11
  }

  /** The civil date on day `doy` of shifted year `sy`. */
  function DateOfYearDay(yd: YearDay): Date
    requires 0 <= yd.dayOfYear
  {
    var mp := MonthOfDay(yd.dayOfYear);
    var month := if mp < 10 then mp + 3 else mp - 9;
    Date(if month <= 2 then yd.shiftedYear + 1 else yd.shiftedYear, month, yd.dayOfYear - MarchStarts[mp] + 1)
  }

  /** The civil date `z` days after 1970-01-01 (negative `z` is before it). */
  function CivilFromDays(z: int): Date {
    DateOfYearDay(SplitDays(z + EpochShift))
  }

  // ---------------------------------------------------------------------
  // Division by the calendar's constants
  // ---------------------------------------------------------------------

  lemma DivEra(n: int, q: int, r: int)
    requires n == 146097 * q + r && 0 <= r < 146097
    ensures n / 146097 == q && n % 146097 == r
  {
  }

  lemma DivCentury(n: int, q: int, r: int)
    requires n == 36524 * q + r && 0 <= r < 36524
    ensures n / 36524 == q
  {
  }

  lemma DivGroup(n: int, q: int, r: int)
    requires n == 1461 * q + r && 0 <= r < 1461
    ensures n / 1461 == q && n % 1461 == r
  {
  }

  lemma DivYear(n: int, q: int, r: int)
    requires n == 365 * q + r && 0 <= r < 365
    ensures n / 365 == q
  {
  }

  lemma Div400(n: int, q: int, r: int)
    requires n == 400 * q + r && 0 <= r < 400
    ensures n / 400 == q && n % 400 == r
  {
  }

  lemma Div100(n: int, q: int, r: int)
    requires n == 100 * q + r && 0 <= r < 100
    ensures n / 100 == q && n % 100 == r
  {
  }

  lemma Div4(n: int, q: int, r: int)
    requires n == 4 * q + r && 0 <= r < 4
    ensures n / 4 == q && n % 4 == r
  {
  }

  // ---------------------------------------------------------------------
  // Proofs
  // ---------------------------------------------------------------------

  /** The start of a shifted year given in era/century/group/year form. */
  lemma DaysBeforeShiftedYearSplit(sy: int, era: int, c: int, q: int, yq: int)
    requires 0 <= c <= 3 && 0 <= q <= 24 && 0 <= yq <= 3
    requires sy == 400 * era + 100 * c + 4 * q + yq
    ensures DaysBeforeShiftedYear(sy) == 146097 * era + 36524 * c + 1461 * q + 365 * yq
  {
    Div400(sy, era, 100 * c + 4 * q + yq);
    Div100(sy, 4 * era + c, 4 * q + yq);
    Div4(sy, 100 * era + 25 * c + q, yq);
  }

  /** A day count in era/century/group/year/day form, with each part in range. */
  lemma DayParts(n: int) returns (era: int, c: int, q: int, yq: int, doy: int)
    ensures 0 <= c <= 3 && 0 <= q <= 24 && 0 <= yq <= 3 && 0 <= doy <= 365
    ensures yq < 3 ==> doy < 365
    ensures c < 3 && q == 24 ==> 365 * yq + doy < 1460
    ensures n == 146097 * era + 36524 * c + 1461 * q + 365 * yq + doy
  {
    era := n / 146097;
    var doe := n % 146097;
    c := Min(doe / 36524, 3);
    var doc := doe - 36524 * c;
    assert 0 <= doc <= 36524;
    assert c < 3 ==> doc < 36524;
    q := doc / 1461;
    var doq := doc % 1461;
    assert q == 24 ==> doc - 1461 * 24 == doq;
    yq := Min(doq / 365, 3);
    doy := doq - 365 * yq;
  }

  /** The century of a day of an era; the last century keeps the era's leap day. */
  lemma CenturyOfDay(doe: int, c: int, doc: int)
    requires 0 <= c <= 3 && 0 <= doc <= 36524 && (c < 3 ==> doc < 36524)
    requires doe == 36524 * c + doc
    ensures Min(doe / 36524, 3) == c
  {
    if c < 3 {
      DivCentury(doe, c, doc);
    } else {
      assert doe / 36524 >= 3;
    }
  }

  /** The year of a day of a four-year group; the last year keeps the group's leap day. */
  lemma YearOfDay(doq: int, yq: int, doy: int)
    requires 0 <= yq <= 3 && 0 <= doy <= 365 && (yq < 3 ==> doy < 365)
    requires doq == 365 * yq + doy
    ensures Min(doq / 365, 3) == yq
  {
    if yq < 3 {
      DivYear(doq, yq, doy);
    } else {
      assert doq / 365 >= 3;
    }
  }

  /** Splitting a day count given in era/century/group/year form recovers those parts. */
  lemma SplitDaysOfParts(n: int, era: int, c: int, q: int, yq: int, doy: int)
    requires 0 <= c <= 3 && 0 <= q <= 24 && 0 <= yq <= 3 && 0 <= doy <= 365
    requires yq < 3 ==> doy < 365
    requires c < 3 && q == 24 ==> 365 * yq + doy < 1460
    requires n == 146097 * era + 36524 * c + 1461 * q + 365 * yq + doy
    ensures SplitDays(n) == YearDay(400 * era + 100 * c + 4 * q + yq, doy)
  {
    var doe := n % 146097;
    DivEra(n, era, 36524 * c + 1461 * q + 365 * yq + doy);
    CenturyOfDay(doe, c, 1461 * q + 365 * yq + doy);
    var doc := doe - 36524 * c;
    DivGroup(doc, q, 365 * yq + doy);
    YearOfDay(doc % 1461, yq, doy);
  }

  /** Which shifted years, given in parts, end with a leap day. */
  lemma LeapOfParts(y: int, era: int, c: int, q: int, yq: int)
    requires 0 <= c <= 3 && 0 <= q <= 24 && 0 <= yq <= 3
    requires y == 400 * era + 100 * c + 4 * q + yq + 1
    ensures IsLeap(y) <==> yq == 3 && (q < 24 || c == 3)
  {
    if yq < 3 {
      Div4(y, 100 * era + 25 * c + q, yq + 1);
    } else if q < 24 {
      Div4(y, 100 * era + 25 * c + q + 1, 0);
      Div100(y, 4 * era + c, 4 * (q + 1));
    } else if c < 3 {
      Div4(y, 100 * era + 25 * c + 25, 0);
      Div100(y, 4 * era + c + 1, 0);
      Div400(y, era, 100 * (c + 1));
    } else {
      Div4(y, 100 * era + 100, 0);
      Div400(y, era + 1, 0);
    }
  }

  /** `SplitDays` yields a shifted year and a day inside it that add up to `n`. */
  lemma SplitDaysSound(n: int)
    ensures 0 <= SplitDays(n).dayOfYear < ShiftedYearLength(SplitDays(n).shiftedYear)
    ensures DaysBeforeShiftedYear(SplitDays(n).shiftedYear) + SplitDays(n).dayOfYear == n
  {
    var era, c, q, yq, doy := DayParts(n);
    SplitDaysOfParts(n, era, c, q, yq, doy);
    var sy := SplitDays(n).shiftedYear;
    DaysBeforeShiftedYearSplit(sy, era, c, q, yq);
    LeapOfParts(sy + 1, era, c, q, yq);
  }

  /** Era, century, four-year group and year within the group of a shifted year. */
  lemma YearParts(sy: int) returns (era: int, c: int, q: int, yq: int)
    ensures 0 <= c <= 3 && 0 <= q <= 24 && 0 <= yq <= 3
    ensures sy == 400 * era + 100 * c + 4 * q + yq
  {
    era := sy / 400;
    var yoe := sy % 400;
    c := yoe / 100;
    q := (yoe % 100) / 4;
    yq := yoe % 4;
  }

  /** A day inside a shifted year is split back into that year and day. */
  lemma SplitDaysUnique(n: int, sy: int, doy: int)
    requires 0 <= doy < ShiftedYearLength(sy)
    requires n == DaysBeforeShiftedYear(sy) + doy
    ensures SplitDays(n) == YearDay(sy, doy)
  {
    var era, c, q, yq := YearParts(sy);
    DaysBeforeShiftedYearSplit(sy, era, c, q, yq);
    LeapOfParts(sy + 1, era, c, q, yq);
    SplitDaysOfParts(n, era, c, q, yq, doy);
  }

  /** Month lengths as differences of the month starts, counted from March. */
  lemma MonthLength(y: int, mp: int)
    requires 0 <= mp < 11
    ensures var m := if mp < 10 then mp + 3 else mp - 9;
      MarchStarts[mp + 1] - MarchStarts[mp] == DaysInMonth(y, m)
  {
  }

  /** The date on a day of a shifted year is valid and lies on that day. */
  lemma DateOfYearDayValid(yd: YearDay)
    requires 0 <= yd.dayOfYear < ShiftedYearLength(yd.shiftedYear)
    ensures var d := DateOfYearDay(yd);
      && ValidDate(d)
      && ShiftedYear(d) == yd.shiftedYear
      && MarchStarts[MarchMonth(d.month)] + d.day - 1 == yd.dayOfYear
  {
    var mp := MonthOfDay(yd.dayOfYear);
    var d := DateOfYearDay(yd);
    assert MarchMonth(d.month) == mp;
    if mp < 11 {
      MonthLength(d.year, mp);
    } else {
      assert d.year == yd.shiftedYear + 1;
    }
  }

  /** Every day number denotes a valid date that maps back to the same day number. */
  lemma {:induction false} CivilFromDaysInverse(z: int)
    ensures ValidDate(CivilFromDays(z))
    ensures DaysFromCivil(CivilFromDays(z)) == z
  {
    var yd := SplitDays(z + EpochShift);
    SplitDaysSound(z + EpochShift);
    DateOfYearDayValid(yd);
  }

  /** The day of its shifted year on which a valid date falls. */
  lemma DayOfShiftedYear(d: Date)
    requires ValidDate(d)
    ensures var doy := MarchStarts[MarchMonth(d.month)] + d.day - 1;
      && 0 <= doy < ShiftedYearLength(ShiftedYear(d))
      && MonthOfDay(doy) == MarchMonth(d.month)
  {
    var mp := MarchMonth(d.month);
    if mp < 11 {
      MonthLength(d.year, mp);
    }
  }

  /** The date of a day number is the date on the day its shifted-year split names. */
  lemma CivilOfSplit(z: int, yd: YearDay)
    requires SplitDays(z + EpochShift) == yd
    ensures CivilFromDays(z) == DateOfYearDay(yd)
  {
  }

  /** The date on the day of its shifted year on which a valid date falls is that date. */
  lemma DateOfYearDayOfDate(d: Date, doy: int)
    requires ValidDate(d) && doy == MarchStarts[MarchMonth(d.month)] + d.day - 1
    ensures DateOfYearDay(YearDay(ShiftedYear(d), doy)) == d
  {
    DayOfShiftedYear(d);
  }

  /** Every valid date is recovered from its day number. */
  lemma {:induction false} DaysFromCivilInverse(d: Date)
    requires ValidDate(d)
    ensures CivilFromDays(DaysFromCivil(d)) == d
  {
    var sy := ShiftedYear(d);
    var doy := MarchStarts[MarchMonth(d.month)] + d.day - 1;
    DayOfShiftedYear(d);
    SplitDaysUnique(DaysFromCivil(d) + EpochShift, sy, doy);
    CivilOfSplit(DaysFromCivil(d), YearDay(sy, doy));
    DateOfYearDayOfDate(d, doy);
  }

  /** Day numbers of years 0..9999 stay far inside the 64-bit `time_t` range in seconds. */
  lemma DaysFromCivilBounds(d: Date)
    requires ValidDate(d) && 0 <= d.year <= 9999
    ensures -800000 <= DaysFromCivil(d) <= 3000000
  {
  }

  /** Day 0 is 1970-01-01, the Unix epoch. */
  lemma EpochDay()
    ensures ValidDate(Date(1970, 1, 1)) && DaysFromCivil(Date(1970, 1, 1)) == 0
    ensures CivilFromDays(0) == Date(1970, 1, 1)
  {
    DaysFromCivilInverse(Date(1970, 1, 1));
  }

  /** A shifted year starts where the previous one ends. */
  lemma ShiftedYearStep(sy: int)
    ensures DaysBeforeShiftedYear(sy + 1) == DaysBeforeShiftedYear(sy) + ShiftedYearLength(sy)
  {
    var era, c, q, yq := YearParts(sy);
    DaysBeforeShiftedYearSplit(sy, era, c, q, yq);
    LeapOfParts(sy + 1, era, c, q, yq);
    if yq < 3 {
      DaysBeforeShiftedYearSplit(sy + 1, era, c, q, yq + 1);
    } else if q < 24 {
      DaysBeforeShiftedYearSplit(sy + 1, era, c, q + 1, 0);
    } else if c < 3 {
      DaysBeforeShiftedYearSplit(sy + 1, era, c + 1, 0, 0);
    } else {
      DaysBeforeShiftedYearSplit(sy + 1, era + 1, 0, 0, 0);
    }
  }

  /** Consecutive dates have consecutive day numbers. */
  lemma NextDayNumber(d: Date)
    requires ValidDate(d)
    ensures ValidDate(NextDate(d))
    ensures DaysFromCivil(NextDate(d)) == DaysFromCivil(d) + 1
  {
    if d.day == DaysInMonth(d.year, d.month) {
      if d.month == 2 {
        ShiftedYearStep(d.year - 1);
      } else {
        MonthLength(d.year, MarchMonth(d.month));
      }
    }
  }
}
