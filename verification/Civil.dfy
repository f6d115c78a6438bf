/**
 * The day-number-to-date conversion behind the log's timestamps, proved to be the exact inverse of counting
 * days in the proleptic Gregorian calendar.
 */
module Civil {
  import opened Bytes

  /** Division that truncates toward zero, as on machine integers. */
  function TruncDiv(x: int, k: int): int
    requires k > 0
  {
    if x >= 0 then x / k else -((-x) / k)
  }

  /** Unsigned division. */
  function Quot(x: nat, k: nat): nat
    requires k > 0
  {
    x / k
  }

  datatype Date = Date(year: int, month: int, day: int)

  /** The year of an era from the day of the era; no unsigned subtraction goes below zero. */
  function YearOfEra(doe: nat): (yoe: nat)
    requires doe <= 146_096
  {
    hide Quot;
    YearSubtractions(doe);
    var less: nat := doe - Quot(doe, 1460);
    var adjusted: nat := less + Quot(doe, 36_524) - Quot(doe, 146_096);
    Quot(adjusted, 365)
  }

  /** Years are counted from March, inside eras of 400 years. */
  function CivilFromDays(days: int): Date {
    hide Quot, YearOfEra, MarchStart;
    var z := days + 719_468;
    var era := TruncDiv(if z >= 0 then z else z - 146_096, 146_097);
    EraDivides(z);
    var doe: nat := z - era * 146_097;
    var yoe := YearOfEra(doe);
    YearOfEraIsRight(doe);
    var y := yoe + era * 400;
    var before: nat := 365 * yoe + Quot(yoe, 4) - Quot(yoe, 100);
    var doy: nat := doe - before;
    var mp := Quot(5 * doy + 2, 153);
    MonthOfYear(doy);
    var dd: nat := doy - MarchStart(mp) + 1;
    var m: nat := if mp < 10 then mp + 3 else mp - 9;
    Date(if m <= 2 then y + 1 else y, m, dd)
  }

  // ---- the arithmetic of eras, years and months ----

  lemma EraDivides(z: int)
    ensures var era := TruncDiv(if z >= 0 then z else z - 146_096, 146_097);
            era == z / 146_097 && 0 <= z - era * 146_097 <= 146_096
  {
  }

  lemma QuotIs(x: nat, k: nat, q: nat)
    requires k > 0 && k * q <= x < k * q + k
    ensures Quot(x, k) == q
  {
    FloorIs(x, k, q);
  }

  lemma YearSubtractions(doe: nat)
    ensures Quot(doe, 1460) <= doe && Quot(doe, 146_096) <= doe - Quot(doe, 1460) + Quot(doe, 36_524)
  {
  }

  /** A day of an era as centuries, four-year groups, years and days, the last of each kind being the long one. */
  datatype Split = Split(century: nat, group: nat, year: nat, day: nat) {
    predicate Valid() {
      && century <= 3 && group <= 24 && year <= 3 && day <= 365
      && (day == 365 ==> year == 3 && (group == 24 ==> century == 3))
    }

    function YearIndex(): nat {
      100 * century + 4 * group + year
    }

    function DayIndex(): nat {
      36_524 * century + 1461 * group + 365 * year + day
    }
  }

  /** The split of a day: as many centuries, then groups, then years as fit. */
  lemma SplitExists(doe: nat) returns (s: Split)
    requires doe <= 146_096
    ensures s.Valid() && s.DayIndex() == doe
  {
    var century := Min(doe / 36_524, 3);
    var r := doe - 36_524 * century;
    assert 0 <= r <= 36_524 && (century < 3 ==> r < 36_524);
    var group, year, day := SplitCentury(r);
    s := Split(century, group, year, day);
  }

  lemma SplitCentury(r: nat) returns (group: nat, year: nat, day: nat)
    requires r <= 36_524
    ensures group <= 24 && year <= 3 && day <= 365 && r == 1461 * group + 365 * year + day
    ensures day == 365 ==> year == 3 && (group == 24 ==> r == 36_524)
  {
    group := Min(r / 1461, 24);
    var rest := r - 1461 * group;
    assert 0 <= rest <= 1460;
    year := Min(rest / 365, 3);
    day := rest - 365 * year;
  }

  lemma SplitQuotients(s: Split)
    requires s.Valid()
    ensures Quot(s.YearIndex(), 4) == 25 * s.century + s.group && Quot(s.YearIndex(), 100) == s.century
    ensures var rest := 24 * s.century + s.group + 365 * s.year + s.day;
            Quot(s.DayIndex(), 1460) == 25 * s.century + s.group + if rest >= 1460 then 1 else 0
    ensures Quot(s.DayIndex(), 36_524) == if s.DayIndex() == 146_096 then 4 else s.century
    ensures Quot(s.DayIndex(), 146_096) == if s.DayIndex() == 146_096 then 1 else 0
  {
    hide Quot;
    var rest := 24 * s.century + s.group + 365 * s.year + s.day;
    QuotIs(s.YearIndex(), 4, 25 * s.century + s.group);
    QuotIs(s.YearIndex(), 100, s.century);
    assert s.DayIndex() == 1460 * (25 * s.century + s.group) + rest;
    QuotIs(s.DayIndex(), 1460, 25 * s.century + s.group + if rest >= 1460 then 1 else 0);
    QuotIs(s.DayIndex(), 36_524, if s.DayIndex() == 146_096 then 4 else s.century);
    QuotIs(s.DayIndex(), 146_096, if s.DayIndex() == 146_096 then 1 else 0);
  }

  lemma YearOfSplit(s: Split)
    requires s.Valid()
    ensures s.DayIndex() <= 146_096 && YearOfEra(s.DayIndex()) == s.YearIndex() <= 399
    ensures 365 * s.YearIndex() + Quot(s.YearIndex(), 4) - Quot(s.YearIndex(), 100) == s.DayIndex() - s.day
  {
    hide Quot;
    SplitQuotients(s);
    var doe := s.DayIndex();
    QuotIs(doe - Quot(doe, 1460) + Quot(doe, 36_524) - Quot(doe, 146_096), 365, s.YearIndex());
  }

  /** The closed formula finds a year of the era that contains the day. */
  lemma YearOfEraIsRight(doe: nat)
    requires doe <= 146_096
    ensures var yoe := YearOfEra(doe);
            var before := 365 * yoe + Quot(yoe, 4) - Quot(yoe, 100);
            yoe <= 399 && 0 <= before <= doe && doe - before <= 365
  {
    hide Quot, YearOfEra;
    var s := SplitExists(doe);
    YearOfSplit(s);
  }

  /** The days before the month that is `mp` months after March, in a year that starts in March. */
  function MarchStart(mp: nat): nat {
    (153 * mp + 2) / 5
  }

  lemma MarchTable()
    ensures MarchStart(0) == 0 && MarchStart(1) == 31 && MarchStart(2) == 61 && MarchStart(3) == 92
    ensures MarchStart(4) == 122 && MarchStart(5) == 153 && MarchStart(6) == 184 && MarchStart(7) == 214
    ensures MarchStart(8) == 245 && MarchStart(9) == 275 && MarchStart(10) == 306 && MarchStart(11) == 337
  {
  }

  lemma MonthOfYear(doy: nat)
    requires doy <= 365
    ensures var mp := Quot(5 * doy + 2, 153);
            mp <= 11 && MarchStart(mp) <= doy && (mp < 11 ==> doy < MarchStart(mp + 1))
  {
  }

  // ---- the calendar, independently ----

  predicate IsLeap(year: int) {
    year % 4 == 0 && (year % 100 != 0 || year % 400 == 0)
  }

  function DaysInMonth(year: int, month: int): int {
    if month == 2 then (if IsLeap(year) then 29 else 28)
    else if month == 4 || month == 6 || month == 9 || month == 11 then 30
    else 31
  }

  predicate ValidDate(d: Date) {
    1 <= d.month <= 12 && 1 <= d.day <= DaysInMonth(d.year, d.month)
  }

  function NextDate(d: Date): Date {
    if d.day < DaysInMonth(d.year, d.month) then d.(day := d.day + 1)
    else if d.month < 12 then Date(d.year, d.month + 1, 1)
    else Date(d.year + 1, 1, 1)
  }

  /** Days from 1 January of year 1 to 1 January of `year`. */
  function DaysBeforeYear(year: int): int {
    365 * (year - 1) + (year - 1) / 4 - (year - 1) / 100 + (year - 1) / 400
  }

  function DaysBeforeMonth(year: int, month: int): int
    decreases month
  {
    if month <= 1 then 0 else DaysBeforeMonth(year, month - 1) + DaysInMonth(year, month - 1)
  }

  /** Days since 1 January 1970. */
  function DayNumber(d: Date): int {
    DaysBeforeYear(d.year) + DaysBeforeMonth(d.year, d.month) + d.day - 1 - 719_162
  }

  lemma YearLength(year: int)
    ensures DaysBeforeYear(year + 1) == DaysBeforeYear(year) + (if IsLeap(year) then 366 else 365)
  {
    LeapStep(year, 4);
    LeapStep(year, 100);
    LeapStep(year, 400);
    Multiples(year);
  }

  lemma Multiples(year: int)
    ensures year % 100 == 0 ==> year % 4 == 0
    ensures year % 400 == 0 ==> year % 100 == 0
  {
    if year % 100 == 0 {
      FloorIs(year, 4, 25 * (year / 100));
    }
    if year % 400 == 0 {
      FloorIs(year, 100, 4 * (year / 400));
    }
  }

  lemma LeapStep(year: int, k: int)
    requires k > 0
    ensures year / k - (year - 1) / k == if year % k == 0 then 1 else 0
  {
    var q, r := year / k, year % k;
    if r == 0 {
      assert year - 1 == k * (q - 1) + (k - 1);
      FloorIs(year - 1, k, q - 1);
    } else {
      FloorIs(year - 1, k, q);
    }
  }

  lemma YearQuotients(era: int, s: Split)
    requires s.Valid()
    ensures var y := 400 * era + s.YearIndex();
            y / 4 == 100 * era + 25 * s.century + s.group && y / 100 == 4 * era + s.century && y / 400 == era
  {
    var y := 400 * era + s.YearIndex();
    FloorIs(y, 4, 100 * era + 25 * s.century + s.group);
    FloorIs(y, 100, 4 * era + s.century);
    FloorIs(y, 400, era);
  }

  lemma DaysBeforeMonthTable(year: int)
    ensures DaysBeforeMonth(year, 1) == 0 && DaysBeforeMonth(year, 2) == 31
    ensures DaysBeforeMonth(year, 3) == if IsLeap(year) then 60 else 59
    ensures forall m :: 4 <= m <= 12 ==> DaysBeforeMonth(year, m) == DaysBeforeMonth(year, 3) + MarchStart(m - 3)
    ensures DaysBeforeMonth(year, 12) + 31 == if IsLeap(year) then 366 else 365
  {
    assert DaysBeforeMonth(year, 4) == DaysBeforeMonth(year, 3) + 31;
    assert DaysBeforeMonth(year, 5) == DaysBeforeMonth(year, 4) + 30;
    assert DaysBeforeMonth(year, 6) == DaysBeforeMonth(year, 5) + 31;
    assert DaysBeforeMonth(year, 7) == DaysBeforeMonth(year, 6) + 30;
    assert DaysBeforeMonth(year, 8) == DaysBeforeMonth(year, 7) + 31;
    assert DaysBeforeMonth(year, 9) == DaysBeforeMonth(year, 8) + 31;
    assert DaysBeforeMonth(year, 10) == DaysBeforeMonth(year, 9) + 30;
    assert DaysBeforeMonth(year, 11) == DaysBeforeMonth(year, 10) + 31;
    assert DaysBeforeMonth(year, 12) == DaysBeforeMonth(year, 11) + 30;
  }

  /** Day numbers count days: the successor of a date has the next number. */
  lemma DayNumberCounts(d: Date)
    requires ValidDate(d)
    ensures ValidDate(NextDate(d)) && DayNumber(NextDate(d)) == DayNumber(d) + 1
  {
    YearLength(d.year);
    DaysBeforeMonthTable(d.year);
  }

  // ---- no two dates share a number ----

  predicate Earlier(d: Date, e: Date) {
    d.year < e.year || (d.year == e.year && (d.month < e.month || (d.month == e.month && d.day < e.day)))
  }

  lemma {:induction false} YearsGrow(y: int, y': int)
    requires y < y'
    ensures DaysBeforeYear(y + 1) <= DaysBeforeYear(y')
    decreases y' - y
  {
    if y + 1 < y' {
      YearsGrow(y, y' - 1);
      YearLength(y' - 1);
    }
  }

  lemma {:induction false} MonthsGrow(year: int, m: int, m': int)
    requires 1 <= m < m' <= 13
    ensures DaysBeforeMonth(year, m) + DaysInMonth(year, m) <= DaysBeforeMonth(year, m')
    decreases m'
  {
    if m + 1 < m' {
      MonthsGrow(year, m, m' - 1);
    }
  }

  lemma DayNumberIncreases(d: Date, e: Date)
    requires ValidDate(d) && ValidDate(e) && Earlier(d, e)
    ensures DayNumber(d) < DayNumber(e)
  {
    if d.year < e.year {
      YearsGrow(d.year, e.year);
      YearLength(d.year);
      DaysBeforeMonthTable(d.year);
      MonthsGrow(d.year, d.month, 13);
      BeforeMonthNonNegative(e.year, e.month);
    } else if d.month < e.month {
      MonthsGrow(d.year, d.month, e.month);
    }
  }

  lemma {:induction false} BeforeMonthNonNegative(year: int, month: int)
    ensures DaysBeforeMonth(year, month) >= 0
    decreases month
  {
    if month > 1 {
      BeforeMonthNonNegative(year, month - 1);
    }
  }

  lemma DayNumberInjective(d: Date, e: Date)
    requires ValidDate(d) && ValidDate(e) && DayNumber(d) == DayNumber(e)
    ensures d == e
  {
    if Earlier(d, e) {
      DayNumberIncreases(d, e);
    } else if Earlier(e, d) {
      DayNumberIncreases(e, d);
    }
  }

  // ---- the conversion is the inverse ----

  /** For every day number, a real date, and the one with that number. */
  lemma CivilIsRight(days: int)
    ensures ValidDate(CivilFromDays(days)) && DayNumber(CivilFromDays(days)) == days
  {
    hide CivilFromDays, Quot, MarchStart, ValidDate, DayNumber, TruncDiv;
    var era, s := EraSplit(days + 719_468);
    CivilOfSplit(days, era, s);
    MonthOfYear(s.day);
    MarchYear(era, s, Quot(5 * s.day + 2, 153));
  }

  lemma EraSplit(z: int) returns (era: int, s: Split)
    ensures era == TruncDiv(if z >= 0 then z else z - 146_096, 146_097)
    ensures s.Valid() && z == 146_097 * era + s.DayIndex()
  {
    hide TruncDiv;
    EraDivides(z);
    era := z / 146_097;
    s := SplitExists(z - era * 146_097);
  }

  lemma CivilOfSplit(days: int, era: int, s: Split)
    requires era == TruncDiv(if days + 719_468 >= 0 then days + 719_468 else days + 719_468 - 146_096, 146_097)
    requires s.Valid() && days + 719_468 == 146_097 * era + s.DayIndex()
    ensures var mp := Quot(5 * s.day + 2, 153);
            var day := s.day - MarchStart(mp) + 1;
            var y := 400 * era + s.YearIndex();
            CivilFromDays(days) == if mp < 10 then Date(y, mp + 3, day) else Date(y + 1, mp - 9, day)
  {
    hide Quot, YearOfEra, MarchStart, TruncDiv;
    YearOfSplit(s);
    MonthOfYear(s.day);
  }

  /** A day of a March year, placed in its calendar year. */
  lemma MarchYear(era: int, s: Split, mp: nat)
    requires s.Valid() && mp <= 11 && MarchStart(mp) <= s.day && (mp < 11 ==> s.day < MarchStart(mp + 1))
    ensures var y := 400 * era + s.YearIndex();
            var day := s.day - MarchStart(mp) + 1;
            var d := if mp < 10 then Date(y, mp + 3, day) else Date(y + 1, mp - 9, day);
            ValidDate(d) && DayNumber(d) == 146_097 * era + s.DayIndex() - 719_468
  {
    hide IsLeap, DaysBeforeYear, DaysBeforeMonth, MarchStart;
    var y := 400 * era + s.YearIndex();
    MarchTable();
    MarchFirst(era, s);
    YearLength(y);
    DaysBeforeMonthTable(y);
    DaysBeforeMonthTable(y + 1);
    if s.day == 365 {
      NextYearLeap(era, s);
    }
  }

  lemma MarchFirst(era: int, s: Split)
    requires s.Valid()
    ensures DaysBeforeYear(400 * era + s.YearIndex() + 1) == 146_097 * era + s.DayIndex() - s.day
  {
    YearQuotients(era, s);
  }

  /** The long day of a March year falls in a leap year. */
  lemma NextYearLeap(era: int, s: Split)
    requires s.Valid() && s.day == 365
    ensures IsLeap(400 * era + s.YearIndex() + 1)
  {
    var y := 400 * era + s.YearIndex() + 1;
    FloorIs(y, 4, 100 * era + 25 * s.century + s.group + 1);
    if s.group == 24 {
      FloorIs(y, 400, era + 1);
    } else {
      FloorIs(y, 100, 4 * era + s.century);
    }
  }

  /** And every real date is what its own number converts to. */
  lemma CivilOfDayNumber(d: Date)
    requires ValidDate(d)
    ensures CivilFromDays(DayNumber(d)) == d
  {
    CivilIsRight(DayNumber(d));
    DayNumberInjective(CivilFromDays(DayNumber(d)), d);
  }

  /** Day after day, the conversion steps through the calendar, and day 0 is 1 January 1970. */
  lemma CivilStepsThroughCalendar(days: int)
    ensures CivilFromDays(days + 1) == NextDate(CivilFromDays(days))
    ensures CivilFromDays(0) == Date(1970, 1, 1)
  {
    hide CivilFromDays;
    CivilIsRight(days);
    DayNumberCounts(CivilFromDays(days));
    CivilOfDayNumber(NextDate(CivilFromDays(days)));
    DaysBeforeMonthTable(1970);
    CivilOfDayNumber(Date(1970, 1, 1));
  }
}
