/** Day numbers and Gregorian dates: the era arithmetic in both directions. */
module Calendar {

  /** Rust's integer division: it truncates toward zero. */
  function TruncDiv(a: int, b: int): int
    requires b > 0
  {
    if a >= 0 then a / b else -((-a) / b)
  }

  predicate IsLeapYear(year: int) {
    (year % 4 == 0 && year % 100 != 0) || year % 400 == 0
  }

  function DaysInMonth(year: int, month: int): int
    requires 1 <= month <= 12
  {
    if month == 2 then if IsLeapYear(year) then 29 else 28
    else if month == 4 || month == 6 || month == 9 || month == 11 then 30
    else 31
  }

  datatype Date = Date(year: int, month: int, day: int)

  predicate ValidDate(c: Date) {
    1 <= c.month <= 12 && 1 <= c.day <= DaysInMonth(c.year, c.month)
  }

  /** Days since 1970-01-01. Only the era divides a number that may be negative. */
  function DaysFromCivil(c: Date): int {
    var y := if c.month <= 2 then c.year - 1 else c.year;
    var era := TruncDiv(if y >= 0 then y else y - 399, 400);
    var yoe := y - era * 400;
    var doy := (153 * (if c.month > 2 then c.month - 3 else c.month + 9) + 2) / 5 + c.day - 1;
    var doe := yoe * 365 + yoe / 4 - yoe / 100 + doy;
    era * 146097 + doe - 719468
  }

  function CivilFromDays(days: int): Date {
    var z := days + 719468;
    DateInEra(EraOfDay(z), z - EraOfDay(z) * 146097)
  }

  function EraOfDay(z: int): int {
    TruncDiv(if z >= 0 then z else z - 146096, 146097)
  }

  /** The date of day `doe` of an era: 0 is the first of March of its first year. */
  function DateInEra(era: int, doe: int): Date {
    var yoe := YearFormula(doe);
    DateInYear(yoe + era * 400, doe - (365 * yoe + yoe / 4 - yoe / 100))
  }

  function YearFormula(doe: int): int {
    (doe - doe / 1460 + doe / 36524 - doe / 146096) / 365
  }

  /** The date of day `doy` of a year that starts in March. */
  function DateInYear(y: int, doy: int): Date {
    var mp := (5 * doy + 2) / 153;
    var d := doy - (153 * mp + 2) / 5 + 1;
    var m := if mp < 10 then mp + 3 else mp - 9;
    Date(if m <= 2 then y + 1 else y, m, d)
  }

  // ----- The simple count -----

  function YearLength(year: int): int { if IsLeapYear(year) then 366 else 365 }

  /** Days from 1970-01-01 to the first of January of `year`, counted year by year. */
  function DaysBeforeYear(year: int): int
    decreases if year >= 1970 then year - 1970 else 1970 - year
  {
    if year == 1970 then 0
    else if year > 1970 then DaysBeforeYear(year - 1) + YearLength(year - 1)
    else DaysBeforeYear(year + 1) - YearLength(year)
  }

  /** Days of `year` before `month`, counted month by month. */
  function DaysBeforeMonth(year: int, month: int): int
    requires 1 <= month <= 12
  {
    if month == 1 then 0 else DaysBeforeMonth(year, month - 1) + DaysInMonth(year, month - 1)
  }

  function CountDays(c: Date): int
    requires ValidDate(c)
  {
    DaysBeforeYear(c.year) + DaysBeforeMonth(c.year, c.month) + c.day - 1
  }

  // ----- Years that start in March -----

  /** Days from the start of an era to the start of its year `yoe`. */
  function YearStart(yoe: int): int { 365 * yoe + yoe / 4 - yoe / 100 }

  /** The March-based year `yoe` of an era ends with a leap day. */
  predicate EndsWithLeapDay(yoe: int) { IsLeapYear(yoe + 1) }

  /** Day `doy` exists in the March-based year `yoe`. */
  predicate DayOfYear(yoe: int, doy: int) {
    0 <= yoe < 400 && 0 <= doy <= 365 && (doy == 365 ==> EndsWithLeapDay(yoe))
  }

  /** `month` counted from March. */
  function MarchMonth(month: int): int { if month > 2 then month - 3 else month + 9 }

  function MonthStart(mp: int): int { (153 * mp + 2) / 5 }

  function MarchYear(c: Date): int { if c.month <= 2 then c.year - 1 else c.year }

  lemma FloorDiv(y: int)
    ensures TruncDiv(if y >= 0 then y else y - 399, 400) == y / 400
    ensures TruncDiv(if y >= 0 then y else y - 146096, 146097) == y / 146097
  {
  }

  lemma DaysSplit(c: Date)
    requires 1 <= c.month <= 12 && c.day >= 1
    ensures var y := MarchYear(c);
            DaysFromCivil(c) ==
            146097 * (y / 400) + YearStart(y % 400) + MonthStart(MarchMonth(c.month)) + c.day - 1 - 719468
  {
    FloorDiv(MarchYear(c));
  }

  lemma YearStartStep(yoe: int)
    requires 0 <= yoe < 400
    ensures YearStart(yoe + 1) - YearStart(yoe) == (if EndsWithLeapDay(yoe) && yoe != 399 then 366 else 365)
  {
    assert yoe == 4 * (yoe / 4) + yoe % 4 && yoe == 100 * (yoe / 100) + yoe % 100;
  }

  lemma LeapPeriodic(y: int)
    ensures IsLeapYear(y) <==> IsLeapYear(y % 400)
  {
    ModByFactor(y, 100, 4);
    ModByFactor(y, 4, 100);
  }

  lemma ModByFactor(y: int, k: int, m: int)
    requires (k == 100 && m == 4) || (k == 4 && m == 100)
    ensures y % m == (y % 400) % m
  {
    var e, r := y / 400, y % 400;
    var q := k * e + r / m;
    assert y == m * q + r % m;
  }

  /** One March-based year further on, across the era boundary too. */
  lemma MarchYearLength(y: int)
    ensures 146097 * ((y + 1) / 400) + YearStart((y + 1) % 400) ==
            146097 * (y / 400) + YearStart(y % 400) + YearLength(y + 1)
  {
    var r := y % 400;
    LeapPeriodic(y + 1);
    if r == 399 {
      assert (y + 1) % 400 == 0 && (y + 1) / 400 == y / 400 + 1;
      assert YearStart(399) == 145731;
    } else {
      assert (y + 1) % 400 == r + 1 && (y + 1) / 400 == y / 400;
      YearStartStep(r);
    }
  }

  // ----- The era arithmetic counts days -----

  lemma {:induction false} YearsCounted(year: int)
    ensures DaysFromCivil(Date(year, 1, 1)) == DaysBeforeYear(year)
    decreases if year >= 1970 then year - 1970 else 1970 - year
  {
    if year > 1970 {
      YearsCounted(year - 1);
      YearStep(year - 1);
    } else if year < 1970 {
      YearsCounted(year + 1);
      YearStep(year);
    }
  }

  lemma YearStep(year: int)
    ensures DaysFromCivil(Date(year + 1, 1, 1)) == DaysFromCivil(Date(year, 1, 1)) + YearLength(year)
  {
    DaysSplit(Date(year, 1, 1));
    DaysSplit(Date(year + 1, 1, 1));
    MarchYearLength(year - 1);
  }

  lemma {:induction false} MonthsCounted(year: int, month: int)
    requires 1 <= month <= 12
    ensures DaysFromCivil(Date(year, month, 1)) == DaysBeforeYear(year) + DaysBeforeMonth(year, month)
  {
    if month == 1 {
      YearsCounted(year);
    } else {
      MonthsCounted(year, month - 1);
      MonthStep(year, month - 1);
    }
  }

  lemma MonthStep(year: int, month: int)
    requires 1 <= month < 12
    ensures DaysFromCivil(Date(year, month + 1, 1)) == DaysFromCivil(Date(year, month, 1)) + DaysInMonth(year, month)
  {
    DaysSplit(Date(year, month, 1));
    DaysSplit(Date(year, month + 1, 1));
    if month == 2 {
      MarchYearLength(year - 1);
    } else {
      MonthLength(year, month);
    }
  }

  lemma MonthLength(year: int, month: int)
    requires 1 <= month < 12 && month != 2
    ensures MonthStart(MarchMonth(month + 1)) == MonthStart(MarchMonth(month)) + DaysInMonth(year, month)
  {
  }

  /** The era arithmetic agrees with counting years and months, for every valid date. */
  lemma DaysAreCounted(c: Date)
    requires ValidDate(c)
    ensures DaysFromCivil(c) == CountDays(c)
  {
    MonthsCounted(c.year, c.month);
    DaysSplit(c);
    DaysSplit(Date(c.year, c.month, 1));
  }

  // ----- The two directions undo each other -----

  /** The year formula recovers the year of the era. */
  lemma YearOfEra(yoe: int, doy: int)
    requires DayOfYear(yoe, doy)
    ensures var doe := YearStart(yoe) + doy;
            0 <= doe < 146097 && YearFormula(doe) == yoe
  {
    var c, y := yoe / 100, yoe % 100;
    var a, b := y / 4, y % 4;
    assert yoe == 100 * c + 4 * a + b && 0 <= c < 4 && 0 <= a < 25 && 0 <= b < 4;
    assert yoe / 4 == 25 * c + a;
    var doe := YearStart(yoe) + doy;
    var doc := 1461 * a + 365 * b + doy;
    assert doe == 36524 * c + doc;
    LastDay(c, a, b, doy);
    var u := 24 * c + a + 365 * b + doy;
    assert doe == 1460 * (25 * c + a) + u;
    assert doe / 1460 == 25 * c + a + (if u >= 1460 then 1 else 0);
    if doe == 146096 {
      assert doe / 36524 == 4 && doe / 146096 == 1;
    } else {
      assert doe / 36524 == c && doe / 146096 == 0;
    }
  }

  /** Only the last day of an era lies outside the 36524 days of its century. */
  lemma LastDay(c: int, a: int, b: int, doy: int)
    requires 0 <= c < 4 && 0 <= a < 25 && 0 <= b < 4
    requires DayOfYear(100 * c + 4 * a + b, doy)
    ensures var doc := 1461 * a + 365 * b + doy;
            doc < 36524 || (doc == 36524 && c == 3 && doy == 365)
    ensures doy == 365 ==> b == 3
  {
    var yoe := 100 * c + 4 * a + b;
    if doy == 365 {
      assert (yoe + 1) % 4 == (b + 1) % 4;
      if a == 24 && b == 3 {
        assert yoe + 1 == 100 * (c + 1);
      }
    }
  }

  /** Every day of an era belongs to one of its years. */
  lemma FindYear(doe: int) returns (yoe: int, doy: int)
    requires 0 <= doe < 146097
    ensures DayOfYear(yoe, doy) && doe == YearStart(yoe) + doy
  {
    yoe := 0;
    while yoe < 399 && YearStart(yoe + 1) <= doe
      invariant 0 <= yoe <= 399 && YearStart(yoe) <= doe
    {
      yoe := yoe + 1;
    }
    doy := doe - YearStart(yoe);
    YearStartStep(yoe);
  }

  /** The month formula recovers the March-based month. */
  lemma MonthOfYear(mp: int, d: int)
    requires 0 <= mp < 12 && 1 <= d <= 31
    requires MonthStart(mp) + d - 1 <= 365
    requires mp < 11 ==> MonthStart(mp) + d <= MonthStart(mp + 1)
    ensures (5 * (MonthStart(mp) + d - 1) + 2) / 153 == mp
  {
    var doy := MonthStart(mp) + d - 1;
    assert 5 * MonthStart(mp) <= 153 * mp + 2 < 5 * MonthStart(mp) + 5;
    assert mp < 11 ==> 5 * MonthStart(mp + 1) <= 153 * mp + 155;
    assert 153 * mp <= 5 * doy + 2 < 153 * mp + 153;
  }

  lemma FindMonth(doy: int) returns (mp: int, d: int)
    requires 0 <= doy <= 365
    ensures 0 <= mp < 12 && 1 <= d <= 31 && doy == MonthStart(mp) + d - 1
    ensures mp < 11 ==> MonthStart(mp) + d <= MonthStart(mp + 1)
  {
    mp := 0;
    while mp < 11 && MonthStart(mp + 1) <= doy
      invariant 0 <= mp <= 11 && MonthStart(mp) <= doy
    {
      mp := mp + 1;
    }
    d := doy - MonthStart(mp) + 1;
  }

  /** A day given by its era, the year of the era, the March-based month and the day of that month. */
  datatype Parts = Parts(era: int, yoe: int, mp: int, d: int)

  predicate ValidParts(p: Parts) {
    && 0 <= p.mp < 12 && 1 <= p.d <= 31
    && (p.mp < 11 ==> MonthStart(p.mp) + p.d <= MonthStart(p.mp + 1))
    && DayOfYear(p.yoe, MonthStart(p.mp) + p.d - 1)
  }

  function PartsDate(p: Parts): Date {
    var y := p.yoe + 400 * p.era;
    if p.mp < 10 then Date(y, p.mp + 3, p.d) else Date(y + 1, p.mp - 9, p.d)
  }

  function PartsNumber(p: Parts): int {
    146097 * p.era + YearStart(p.yoe) + MonthStart(p.mp) + p.d - 1 - 719468
  }

  /** From an era, a year of it and a day of that year back to the date. */
  lemma CivilSplit(p: Parts)
    requires ValidParts(p)
    ensures CivilFromDays(PartsNumber(p)) == PartsDate(p)
  {
    CivilOfParts(p);
    DateOfParts(p);
  }

  function PartsDay(p: Parts): int {
    MonthStart(p.mp) + p.d - 1
  }

  lemma CivilOfParts(p: Parts)
    requires ValidParts(p)
    ensures CivilFromDays(PartsNumber(p)) == DateInYear(p.yoe + p.era * 400, PartsDay(p))
  {
    var doy := PartsDay(p);
    YearOfEra(p.yoe, doy);
    CivilOfEra(PartsNumber(p), p.era, YearStart(p.yoe) + doy, p.yoe, doy);
  }

  lemma DateOfParts(p: Parts)
    requires ValidParts(p)
    ensures DateInYear(p.yoe + p.era * 400, PartsDay(p)) == PartsDate(p)
  {
    YearMonth(p.yoe + p.era * 400, PartsDay(p), p.mp, p.d);
  }

  lemma CivilOfEra(days: int, era: int, doe: int, yoe: int, doy: int)
    requires 0 <= doe < 146097 && days == 146097 * era + doe - 719468
    requires YearFormula(doe) == yoe && doe == YearStart(yoe) + doy
    ensures CivilFromDays(days) == DateInYear(yoe + era * 400, doy)
  {
    CivilEra(days, era, doe);
    EraYear(era, doe, yoe, doy);
  }

  lemma CivilEra(days: int, era: int, doe: int)
    requires 0 <= doe < 146097 && days == 146097 * era + doe - 719468
    ensures CivilFromDays(days) == DateInEra(era, doe)
  {
    var z := days + 719468;
    EraOf(z, era, doe);
    SameDay(EraOfDay(z), z - EraOfDay(z) * 146097, era, doe);
  }

  lemma SameDay(era: int, doe: int, era': int, doe': int)
    requires era == era' && doe == doe'
    ensures DateInEra(era, doe) == DateInEra(era', doe')
  {
  }

  lemma EraYear(era: int, doe: int, yoe: int, doy: int)
    requires YearFormula(doe) == yoe && doe == YearStart(yoe) + doy
    ensures DateInEra(era, doe) == DateInYear(yoe + era * 400, doy)
  {
    assert doe - (365 * yoe + yoe / 4 - yoe / 100) == doy;
  }

  lemma YearMonth(y: int, doy: int, mp: int, d: int)
    requires 0 <= mp < 12 && 1 <= d <= 31 && doy == MonthStart(mp) + d - 1 <= 365
    requires mp < 11 ==> MonthStart(mp) + d <= MonthStart(mp + 1)
    ensures DateInYear(y, doy) == if mp < 10 then Date(y, mp + 3, d) else Date(y + 1, mp - 9, d)
  {
    MonthOfYear(mp, d);
  }

  lemma EraOf(z: int, era: int, doe: int)
    requires 0 <= doe < 146097 && z == 146097 * era + doe
    ensures EraOfDay(z) == era && z - EraOfDay(z) * 146097 == doe
  {
    FloorDiv(z);
    assert z / 146097 == era;
  }

  function DateParts(c: Date): Parts {
    var y := MarchYear(c);
    Parts(y / 400, y % 400, MarchMonth(c.month), c.day)
  }

  /** A valid date is made of valid parts, which give its number. */
  lemma DateHasParts(c: Date)
    requires ValidDate(c)
    ensures ValidParts(DateParts(c)) && PartsDate(DateParts(c)) == c
    ensures DaysFromCivil(c) == PartsNumber(DateParts(c))
  {
    DaysSplit(c);
    if c.month == 2 {
      LeapOfEra(c.year - 1);
    }
  }

  lemma LeapOfEra(y: int)
    ensures IsLeapYear(y + 1) <==> IsLeapYear(y % 400 + 1)
  {
    LeapPeriodic(y + 1);
    LeapPeriodic(y % 400 + 1);
    NextOfEra(y);
  }

  lemma NextOfEra(y: int)
    ensures (y + 1) % 400 == (y % 400 + 1) % 400
  {
    if y % 400 == 399 {
      assert y + 1 == 400 * (y / 400 + 1);
    } else {
      assert y + 1 == 400 * (y / 400) + (y % 400 + 1);
    }
  }

  /** `CivilFromDays` undoes `DaysFromCivil` on every valid date. */
  lemma CivilOfDays(c: Date)
    requires ValidDate(c)
    ensures CivilFromDays(DaysFromCivil(c)) == c
  {
    DateHasParts(c);
    CivilSplit(DateParts(c));
  }

  /** Every day number is the number of a valid date, the one `CivilFromDays` gives. */
  lemma DaysOfCivil(days: int)
    ensures ValidDate(CivilFromDays(days)) && DaysFromCivil(CivilFromDays(days)) == days
  {
    var p := FindParts(days);
    CivilSplit(p);
    PartsValid(p);
    PartsDays(p);
  }

  lemma FindParts(days: int) returns (p: Parts)
    ensures ValidParts(p) && PartsNumber(p) == days
  {
    var era, doe := (days + 719468) / 146097, (days + 719468) % 146097;
    var yoe, doy := FindYear(doe);
    var mp, d := FindMonth(doy);
    p := Parts(era, yoe, mp, d);
  }

  lemma PartsValid(p: Parts)
    requires ValidParts(p)
    ensures ValidDate(PartsDate(p))
    ensures MarchYear(PartsDate(p)) == p.yoe + 400 * p.era && MarchMonth(PartsDate(p).month) == p.mp
  {
    var y := p.yoe + 400 * p.era;
    LeapOfEra(y);
    YearInEra(p.era, p.yoe);
  }

  lemma YearInEra(era: int, yoe: int)
    requires 0 <= yoe < 400
    ensures (yoe + 400 * era) / 400 == era && (yoe + 400 * era) % 400 == yoe
  {
  }

  lemma PartsDays(p: Parts)
    requires ValidParts(p)
    ensures DaysFromCivil(PartsDate(p)) == PartsNumber(p)
  {
    PartsValid(p);
    YearInEra(p.era, p.yoe);
    DaysSplit(PartsDate(p));
  }
}
