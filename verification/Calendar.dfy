/** The civil-from-days calendar algorithm against the Gregorian calendar of section 5.7 and appendix C of RFC 3339. */
module Calendar {
  import opened Arithmetic


  datatype Date = Date(year: int, month: int, day: int)

  // ---------------------------------------------------------------------------
  // The Gregorian calendar
  // ---------------------------------------------------------------------------

  predicate IsLeap(y: int) {
    y % 4 == 0 && (y % 100 != 0 || y % 400 == 0)
  }

  function DaysInYear(y: int): (n: int) {
    if IsLeap(y) then 366 else 365
  }

  function DaysInMonth(y: int, m: int): (n: int)
    requires 1 <= m <= 12
  {
    if m == 2 then (if IsLeap(y) then 29 else 28)
    else if m == 4 || m == 6 || m == 9 || m == 11 then 30
    else 31
  }

  predicate IsDate(d: Date) {
    1 <= d.month <= 12 && 1 <= d.day <= DaysInMonth(d.year, d.month)
  }

  /** Days from 0001-01-01 to January 1st of year `y`. */
  function DaysBeforeYear(y: int): (n: int) {
    365 * (y - 1) + (y - 1) / 4 - (y - 1) / 100 + (y - 1) / 400
  }

  function DaysBeforeMonth(y: int, m: int): (n: int)
    requires 1 <= m <= 13
  {
    if m == 1 then 0 else DaysBeforeMonth(y, m - 1) + DaysInMonth(y, m - 1)
  }

  const EPOCH: int := 719162

  /** Days from 1970-01-01 to a date. */
  function DayNumber(d: Date): (n: int)
    requires 1 <= d.month <= 12
  {
    DaysBeforeYear(d.year) + DaysBeforeMonth(d.year, d.month) + d.day - 1 - EPOCH
  }

  function Tomorrow(d: Date): (r: Date)
    requires IsDate(d)
  {
    if d.day < DaysInMonth(d.year, d.month) then d.(day := d.day + 1)
    else if d.month < 12 then Date(d.year, d.month + 1, 1)
    else Date(d.year + 1, 1, 1)
  }

  /** Year lengths add up: the closed form steps by 365 or 366. */
  lemma YearStep(y: int)
    ensures DaysBeforeYear(y + 1) == DaysBeforeYear(y) + DaysInYear(y)
  {
    DivStep(y, 4);
    DivStep(y, 100);
    DivStep(y, 400);
    Divisibility(y);
  }

  lemma Divisibility(y: int)
    ensures y % 400 == 0 ==> y % 100 == 0
    ensures y % 100 == 0 ==> y % 4 == 0
  {
    if y % 400 == 0 {
      DivIs(y, 100, 4 * (y / 400), 0);
    }
    if y % 100 == 0 {
      DivIs(y, 4, 25 * (y / 100), 0);
    }
  }

  lemma MonthsOfYear(y: int)
    ensures DaysBeforeMonth(y, 13) == DaysInYear(y)
    ensures forall m :: 3 <= m <= 12 ==> DaysBeforeMonth(y, m) == DaysInYear(y) - 306 + MarchOffset(m - 3)
    ensures DaysBeforeMonth(y, 2) == 31
  {
    assert DaysBeforeMonth(y, 2) == 31;
    assert DaysBeforeMonth(y, 3) == DaysInYear(y) - 306;
    assert DaysBeforeMonth(y, 4) == DaysInYear(y) - 275;
    assert DaysBeforeMonth(y, 5) == DaysInYear(y) - 245;
    assert DaysBeforeMonth(y, 6) == DaysInYear(y) - 214;
    assert DaysBeforeMonth(y, 7) == DaysInYear(y) - 184;
    assert DaysBeforeMonth(y, 8) == DaysInYear(y) - 153;
    assert DaysBeforeMonth(y, 9) == DaysInYear(y) - 122;
    assert DaysBeforeMonth(y, 10) == DaysInYear(y) - 92;
    assert DaysBeforeMonth(y, 11) == DaysInYear(y) - 61;
    assert DaysBeforeMonth(y, 12) == DaysInYear(y) - 31;
  }

  /** Days from March 1st to the first of the month `mp` months later: `(153 * mp + 2) / 5`. */
  function MarchOffset(mp: int): (n: int) {
    (153 * mp + 2) / 5
  }

  // ---------------------------------------------------------------------------
  // The algorithm
  // ---------------------------------------------------------------------------

  /** Division that truncates toward zero, as on `i64`. */
  function TruncDiv(a: int, b: int): (q: int)
    requires b > 0
  {
    if a >= 0 then a / b else -((-a) / b)
  }

  function YearOfEra(doe: int): (yoe: int) {
    (doe - doe / 1460 + doe / 36524 - doe / 146096) / 365
  }

  /** Day of the March-based year `yoe` of an era. */
  function DayInYear(doe: int, yoe: int): (doy: int) {
    doe - (365 * yoe + yoe / 4 - yoe / 100)
  }

  function CivilFromDays(days: int): (d: Date) {
    var z := days + 719468;
    var era := TruncDiv(if z >= 0 then z else z - 146096, 146097);
    var doe := z - era * 146097;
    var yoe := YearOfEra(doe);
    var y := yoe + era * 400;
    var doy := DayInYear(doe, yoe);
    var mp := (5 * doy + 2) / 153;
    var day := doy - (153 * mp + 2) / 5 + 1;
    var month := if mp < 10 then mp + 3 else mp - 9;
    Date(if month <= 2 then y + 1 else y, month, day)
  }

  lemma EraIsFloor(z: int)
    ensures TruncDiv(if z >= 0 then z else z - 146096, 146097) == z / 146097
    ensures 0 <= z - z / 146097 * 146097 < 146097
  {
    if z < 0 {
      var q := (146096 - z) / 146097;
      var r := (146096 - z) % 146097;
      assert z == 146097 * (-q) + (146096 - r);
      DivIs(z, 146097, -q, 146096 - r);
    }
  }

  /** A day of an era as century, four-year cycle, year in the cycle and day of a year that starts in March. */
  ghost predicate EraSplit(doe: int, b: int, k: int, j: int, doy: int) {
    && 0 <= b <= 3 && 0 <= k <= 24 && 0 <= j <= 3 && 0 <= doy <= 365
    && doe == 36524 * b + 1461 * k + 365 * j + doy
    && (doy == 365 ==> j == 3 && (k < 24 || b == 3))
  }

  lemma SplitEra(doe: int) returns (b: int, k: int, j: int, doy: int)
    requires 0 <= doe < 146097
    ensures EraSplit(doe, b, k, j, doy)
  {
    b := if doe == 146096 then 3 else doe / 36524;
    var r := doe - 36524 * b;
    k := r / 1461;
    var t := r - 1461 * k;
    j := if t == 1460 then 3 else t / 365;
    doy := t - 365 * j;
  }

  /** Each division of the year formula, on the split. */
  lemma YearFormula(doe: int, b: int, k: int, j: int, doy: int)
    requires EraSplit(doe, b, k, j, doy)
    ensures YearOfEra(doe) == 100 * b + 4 * k + j
  {
    var t := 365 * j + doy;
    var delta := if k + t + 24 * b >= 1460 then 1 else 0;
    if doe != 146096 {
      assert doe == 1460 * (25 * b + k + delta) + (24 * b + k + t - 1460 * delta);
      DivIs(doe, 1460, 25 * b + k + delta, 24 * b + k + t - 1460 * delta);
      DivIs(doe, 36524, b, 1461 * k + t);
      DivIs(doe, 146096, 0, doe);
      DivIs(36500 * b + 1460 * k + t - delta, 365, 100 * b + 4 * k + j, doy - delta);
    }
  }

  /** Days before March of a year given by its place in the era, from the quotients of the closed form. */
  lemma DaysBeforeSplit(era: int, b: int, k: int, j: int)
    requires 0 <= b <= 3 && 0 <= k <= 24 && 0 <= j <= 3
    ensures DaysBeforeYear(100 * b + 4 * k + j + era * 400 + 1) == 146097 * era + 36524 * b + 1461 * k + 365 * j
  {
    var y := 100 * b + 4 * k + j + era * 400;
    assert y + 1 - 1 == y;
    YearQuotients(era, b, k, j);
  }

  lemma DayOfSplit(doe: int, b: int, k: int, j: int, doy: int)
    requires EraSplit(doe, b, k, j, doy)
    ensures DayInYear(doe, 100 * b + 4 * k + j) == doy
  {
    YearQuotients(0, b, k, j);
  }

  lemma SplitLength(era: int, doe: int, b: int, k: int, j: int, doy: int)
    requires EraSplit(doe, b, k, j, doy)
    ensures doy < DaysInYear(100 * b + 4 * k + j + era * 400 + 1)
  {
    hide IsLeap;
    if doy == 365 {
      LeapAtEnd(era, b, k);
    }
  }

  /** The year formula finds the March-based year, and the day within it. */
  lemma YearOfDay(era: int, doe: int) returns (y: int, doy: int)
    requires 0 <= doe < 146097
    ensures y == YearOfEra(doe) + era * 400 && doy == DayInYear(doe, YearOfEra(doe))
    ensures 0 <= doy < DaysInYear(y + 1)
    ensures 146097 * era + doe == DaysBeforeYear(y + 1) + doy
  {
    hide YearOfEra, DayInYear, DaysInYear, DaysBeforeYear;
    var b, k, j, d := SplitEra(doe);
    YearFormula(doe, b, k, j, d);
    DayOfSplit(doe, b, k, j, d);
    DaysBeforeSplit(era, b, k, j);
    SplitLength(era, doe, b, k, j, d);
    y := 100 * b + 4 * k + j + era * 400;
    doy := d;
  }

  lemma YearQuotients(era: int, b: int, k: int, j: int)
    requires 0 <= b <= 3 && 0 <= k <= 24 && 0 <= j <= 3
    ensures var yoe := 100 * b + 4 * k + j;
            var y := yoe + era * 400;
            && yoe / 4 == 25 * b + k && yoe / 100 == b
            && y / 4 == 100 * era + 25 * b + k && y / 100 == 4 * era + b && y / 400 == era
  {
    var yoe := 100 * b + 4 * k + j;
    var y := yoe + era * 400;
    DivIs(yoe, 4, 25 * b + k, j);
    DivIs(yoe, 100, b, 4 * k + j);
    DivIs(y, 4, 100 * era + 25 * b + k, j);
    DivIs(y, 100, 4 * era + b, 4 * k + j);
    DivIs(y, 400, era, yoe);
  }

  /** A 366th day only occurs in a year that ends in a leap February. */
  lemma LeapAtEnd(era: int, b: int, k: int)
    requires 0 <= b <= 3 && 0 <= k <= 24 && (k < 24 || b == 3)
    ensures IsLeap(100 * b + 4 * k + 3 + era * 400 + 1)
  {
    hide IsLeap;
    var y := 100 * b + 4 * k + 3 + era * 400 + 1;
    if k < 24 {
      LeapByFour(y, 25 * b + k + 1 + era * 100, b + 4 * era, 4 * k + 4);
    } else {
      LeapByEra(y, era + 1);
    }
  }

  lemma LeapByFour(y: int, q: int, c: int, r: int)
    requires y == 4 * q == 100 * c + r && 0 < r < 100
    ensures IsLeap(y)
  {
    DivIs(y, 4, q, 0);
    DivIs(y, 100, c, r);
  }

  lemma LeapByEra(y: int, q: int)
    requires y == 400 * q
    ensures IsLeap(y)
  {
    DivIs(y, 400, q, 0);
    DivIs(y, 4, 100 * q, 0);
  }

  /** The month formula inverts the month offsets. */
  lemma MonthOfDay(doy: int)
    requires 0 <= doy <= 365
    ensures var mp := (5 * doy + 2) / 153;
            0 <= mp <= 11 && MarchOffset(mp) <= doy && (mp < 11 ==> doy < MarchOffset(mp + 1))
  {
  }

  /** The date of day `doy` of the year that starts on March 1st of `y`. */
  function MarchDate(y: int, doy: int): (d: Date) {
    var mp := (5 * doy + 2) / 153;
    var month := if mp < 10 then mp + 3 else mp - 9;
    Date(if month <= 2 then y + 1 else y, month, doy - (153 * mp + 2) / 5 + 1)
  }

  lemma MarchDateIsRight(y: int, doy: int)
    requires 0 <= doy < DaysInYear(y + 1)
    ensures var d := MarchDate(y, doy);
            IsDate(d) && DayNumber(d) == DaysBeforeYear(y + 1) + doy - 306 - EPOCH
  {
    hide IsLeap, DaysBeforeYear;
    MonthOfDay(doy);
    MonthsOfYear(y);
    MonthsOfYear(y + 1);
    YearStep(y);
    var mp := (5 * doy + 2) / 153;
    MonthLengths(y, mp);
    assert MarchOffset(10) == 306 && MarchOffset(11) == 337;
  }

  /** Every day number maps to a date of the Gregorian calendar, and that date has this day number. */
  lemma CivilIsCorrect(days: int)
    ensures IsDate(CivilFromDays(days))
    ensures DayNumber(CivilFromDays(days)) == days
  {
    hide YearOfEra, DayInYear, DaysInYear, DaysBeforeYear, DayNumber, IsDate, TruncDiv;
    var z := days + 719468;
    EraIsFloor(z);
    var era := z / 146097;
    var y, doy := YearOfDay(era, z - era * 146097);
    MarchDateIsRight(y, doy);
    assert CivilFromDays(days) == MarchDate(y, doy);
  }

  /** Month lengths are the gaps between month offsets; February takes what is left of the year. */
  lemma MonthLengths(y: int, mp: int)
    requires 0 <= mp <= 11
    ensures mp < 10 ==> DaysInMonth(y, mp + 3) == MarchOffset(mp + 1) - MarchOffset(mp)
    ensures mp == 10 ==> DaysInMonth(y + 1, 1) == MarchOffset(11) - MarchOffset(10)
    ensures mp == 11 ==> DaysInMonth(y + 1, 2) == DaysInYear(y + 1) - MarchOffset(11)
  {
  }

  // ---------------------------------------------------------------------------
  // Uniqueness
  // ---------------------------------------------------------------------------

  lemma {:induction false} YearsGrow(y: int, n: nat)
    ensures DaysBeforeYear(y) + 365 * n <= DaysBeforeYear(y + n)
    decreases n
  {
    hide DaysBeforeYear, IsLeap;
    if n > 0 {
      YearsGrow(y, n - 1);
      YearStep(y + n - 1);
    }
  }

  lemma {:induction false} MonthsGrow(y: int, m: int, n: int)
    requires 1 <= m < n <= 13
    ensures DaysBeforeMonth(y, m) + DaysInMonth(y, m) <= DaysBeforeMonth(y, n)
    decreases n
  {
    if m < n - 1 {
      MonthsGrow(y, m, n - 1);
    }
  }

  lemma DayOfYear(d: Date)
    requires IsDate(d)
    ensures DaysBeforeYear(d.year) <= DayNumber(d) + EPOCH < DaysBeforeYear(d.year + 1)
  {
    hide DaysBeforeYear, IsLeap;
    MonthsGrow(d.year, d.month, 13);
    MonthsOfYear(d.year);
    YearStep(d.year);
    if d.month > 1 {
      MonthsGrow(d.year, 1, d.month);
    }
  }

  /** A day number belongs to one date only. */
  lemma DatesAreUnique(d: Date, e: Date)
    requires IsDate(d) && IsDate(e) && DayNumber(d) == DayNumber(e)
    ensures d == e
  {
    hide DaysBeforeYear, IsLeap, DaysBeforeMonth, DaysInMonth;
    DayOfYear(d);
    DayOfYear(e);
    if d.year < e.year {
      YearsGrow(d.year + 1, e.year - d.year - 1);
    } else if e.year < d.year {
      YearsGrow(e.year + 1, d.year - e.year - 1);
    } else if d.month < e.month {
      MonthsGrow(d.year, d.month, e.month);
    } else if e.month < d.month {
      MonthsGrow(d.year, e.month, d.month);
    }
  }

  /** The algorithm inverts the calendar's own day count, on every date. */
  lemma CivilInvertsDayNumber(d: Date)
    requires IsDate(d)
    ensures CivilFromDays(DayNumber(d)) == d
  {
    hide CivilFromDays, DayNumber;
    CivilIsCorrect(DayNumber(d));
    DatesAreUnique(CivilFromDays(DayNumber(d)), d);
  }

  /** Successive day numbers are successive dates. */
  lemma NextDayIsTomorrow(days: int)
    ensures IsDate(CivilFromDays(days))
    ensures CivilFromDays(days + 1) == Tomorrow(CivilFromDays(days))
  {
    hide CivilFromDays, DaysBeforeYear;
    CivilIsCorrect(days);
    var d := CivilFromDays(days);
    var t := Tomorrow(d);
    MonthsOfYear(d.year);
    YearStep(d.year);
    assert DaysBeforeMonth(d.year + 1, 1) == 0;
    assert DaysBeforeMonth(d.year, d.month + 1) == DaysBeforeMonth(d.year, d.month) + DaysInMonth(d.year, d.month);
    assert DayNumber(t) == days + 1;
    CivilInvertsDayNumber(t);
  }

  lemma EpochIsDayZero()
    ensures CivilFromDays(0) == Date(1970, 1, 1)
    ensures DaysBeforeYear(1) == 0
  {
    hide CivilFromDays;
    assert DaysBeforeMonth(1970, 1) == 0;
    CivilInvertsDayNumber(Date(1970, 1, 1));
  }
}
