/** The strict RFC 3339 section 5.6 UTC form, its printer, and the freshness window. */
module Timestamp {
  import opened Outcome
  import opened Decimal
  import opened Calendar

  // ----- Parsing -----

  function FixedDigits(s: string, start: nat, n: nat): Option<int> {
    if start + n > |s| || !AllDigits(s[start..start + n]) then None
    else Some(Read(s[start..start + n]))
  }

  method ParseFixedDigits(s: string, start: nat, n: nat) returns (r: Option<int>)
    ensures r == FixedDigits(s, start, n)
  {
    if start + n > |s| {
      return None;
    }
    var field := s[start..start + n];
    var value: int := 0;
    for i := 0 to n
      invariant AllDigits(field[..i]) && value == Read(field[..i])
    {
      if !IsDigit(field[i]) {
        return None;
      }
      assert field[..i+1][..i] == field[..i];
      value := value * 10 + DigitValue(field[i]);
    }
    assert field[..n] == field;
    r := Some(value);
  }

  datatype Fields = Fields(date: Date, hour: int, minute: int, second: int)

  /** The separators at their fixed places. */
  predicate HasShape(s: string) {
    |s| >= 20 && s[4] == '-' && s[7] == '-' && s[10] == 'T' && s[13] == ':' && s[16] == ':'
  }

  function ReadFields(s: string): Option<Fields> {
    match (FixedDigits(s, 0, 4), FixedDigits(s, 5, 2), FixedDigits(s, 8, 2),
           FixedDigits(s, 11, 2), FixedDigits(s, 14, 2), FixedDigits(s, 17, 2))
    case (Some(y), Some(mo), Some(d), Some(h), Some(mi), Some(se)) => Some(Fields(Date(y, mo, d), h, mi, se))
    case _ => None
  }

  /** A bare "Z", or a fraction of at least one digit and a "Z". */
  predicate TailOk(tail: string) {
    || tail == "Z"
    || (|tail| >= 3 && tail[0] == '.' && tail[|tail|-1] == 'Z' && AllDigits(tail[1..|tail|-1]))
  }

  predicate ValidFields(f: Fields) {
    ValidDate(f.date) && f.hour <= 23 && f.minute <= 59 && f.second <= 59
  }

  function Seconds(f: Fields): int {
    DaysFromCivil(f.date) * 86400 + f.hour * 3600 + f.minute * 60 + f.second
  }

  function Parse(s: string): Result<int> {
    if !HasShape(s) then Err(ExpiredRequest)
    else match ReadFields(s)
      case None => Err(ExpiredRequest)
      case Some(f) => if TailOk(s[19..]) && ValidFields(f) then Ok(Seconds(f)) else Err(ExpiredRequest)
  }

  const DAYS_IN_MONTH: seq<int> := [31, 28, 31, 30, 31, 30, 31, 31, 30, 31, 30, 31]

  method CheckTail(tail: string) returns (ok: bool)
    ensures ok <==> TailOk(tail)
  {
    if tail == "Z" {
      return true;
    }
    if tail == [] || tail[0] != '.' {
      return false;
    }
    var frac := tail[1..];
    if frac == [] || frac[|frac|-1] != 'Z' || |frac| == 1 {
      return false;
    }
    assert frac[..|frac|-1] == tail[1..|tail|-1];
    ok := AllDigits(frac[..|frac|-1]);
  }

  method CheckRanges(f: Fields) returns (ok: bool)
    ensures ok <==> ValidFields(f)
  {
    if !(1 <= f.date.month <= 12) {
      return false;
    }
    var maxDay := DAYS_IN_MONTH[f.date.month - 1];
    if f.date.month == 2 && IsLeapYear(f.date.year) {
      maxDay := 29;
    }
    if f.date.day < 1 || f.date.day > maxDay {
      return false;
    }
    ok := !(f.hour > 23 || f.minute > 59 || f.second > 59);
  }

  method ParseRfc3339Utc(s: string) returns (r: Result<int>)
    ensures r == Parse(s)
  {
    if |s| < 20 {
      return Err(ExpiredRequest);
    }
    if s[4] != '-' || s[7] != '-' || s[10] != 'T' || s[13] != ':' || s[16] != ':' {
      return Err(ExpiredRequest);
    }
    var year := ParseFixedDigits(s, 0, 4);
    var month := ParseFixedDigits(s, 5, 2);
    var day := ParseFixedDigits(s, 8, 2);
    var hour := ParseFixedDigits(s, 11, 2);
    var minute := ParseFixedDigits(s, 14, 2);
    var second := ParseFixedDigits(s, 17, 2);
    if year == None || month == None || day == None || hour == None || minute == None || second == None {
      return Err(ExpiredRequest);
    }
    var tail := s[19..];
    var fractionOk := CheckTail(tail);
    if !fractionOk {
      return Err(ExpiredRequest);
    }
    var date := Date(year.value, month.value, day.value);
    var inRange := CheckRanges(Fields(date, hour.value, minute.value, second.value));
    if !inRange {
      return Err(ExpiredRequest);
    }
    var days := DaysFromCivil(date);
    r := Ok(days * 86400 + hour.value * 3600 + minute.value * 60 + second.value);
  }

  // ----- Printing -----

  function Zeros(n: nat): string { seq(n, i => '0') }

  /** Rust's `{n:0w}` for a non-negative number. */
  function Pad(n: nat, w: nat): string {
    var digits := Show(n);
    if |digits| < w then Zeros(w - |digits|) + digits else digits
  }

  /** Rust's `{year:04}`: the sign counts toward the width. */
  function PadYear(year: int): string {
    if year >= 0 then Pad(year, 4) else "-" + Pad(-year, 3)
  }

  function Clock(h: string, mi: string, se: string): string {
    h + (":" + (mi + (":" + (se + "Z"))))
  }

  function DateThen(y: string, mo: string, d: string, rest: string): string {
    y + ("-" + (mo + ("-" + (d + ("T" + rest)))))
  }

  function Stamp(y: string, mo: string, d: string, h: string, mi: string, se: string): string {
    DateThen(y, mo, d, Clock(h, mi, se))
  }

  function FormatFields(f: Fields): string
    requires 0 <= f.date.month && 0 <= f.date.day && 0 <= f.hour && 0 <= f.minute && 0 <= f.second
  {
    Stamp(PadYear(f.date.year), Pad(f.date.month, 2), Pad(f.date.day, 2),
          Pad(f.hour, 2), Pad(f.minute, 2), Pad(f.second, 2))
  }

  function FieldsOf(unix: int): (f: Fields)
    ensures ValidFields(f) && 0 <= f.hour && 0 <= f.minute && 0 <= f.second
  {
    var days, secs := unix / 86400, unix % 86400;
    DaysOfCivil(days);
    Fields(CivilFromDays(days), secs / 3600, (secs % 3600) / 60, secs % 60)
  }

  function Format(unix: int): string {
    FormatFields(FieldsOf(unix))
  }

  // ----- Fixed-width numbers -----

  lemma PadStep(n: nat, w: nat)
    requires w >= 2
    ensures Pad(n, w) == Pad(n / 10, w - 1) + [DigitChar(n % 10)]
  {
    if n < 10 {
      assert Show(n / 10) == "0";
      assert Zeros(w - 1) == Zeros(w - 2) + "0";
      assert w == 2 ==> Zeros(0) + "0" == "0";
    } else {
      assert Show(n) == Show(n / 10) + [DigitChar(n % 10)];
    }
  }

  function Pow10(w: nat): nat { if w == 0 then 1 else 10 * Pow10(w - 1) }

  /** A padded number has the width exactly when it fits, and reads back. */
  lemma {:induction false} ReadPad(n: nat, w: nat)
    requires w >= 1
    ensures AllDigits(Pad(n, w)) && Read(Pad(n, w)) == n
    ensures |Pad(n, w)| >= w && (|Pad(n, w)| == w <==> n < Pow10(w))
  {
    if w == 1 {
      ReadShow(n);
      assert Pow10(1) == 10 * Pow10(0);
    } else {
      ReadPad(n / 10, w - 1);
      PadStep(n, w);
      DigitOfChar(n % 10);
      ReadAppend(Pad(n / 10, w - 1), DigitChar(n % 10));
      TenTimes(n, Pow10(w - 1));
    }
  }

  lemma TenTimes(n: nat, p: nat)
    ensures n < 10 * p <==> n / 10 < p
  {
  }

  /** A digit string of width `w` is the padded form of its number. */
  lemma {:induction false} PadRead(s: string)
    requires AllDigits(s) && s != []
    ensures Pad(Read(s), |s|) == s
  {
    if |s| == 1 {
      assert s[..0] == [] && Show(Read(s)) == s;
    } else {
      var init := s[..|s|-1];
      PadRead(init);
      PadStep(Read(s), |s|);
      assert s == init + [s[|s|-1]];
    }
  }

  // ----- The shape of a stamp -----

  lemma StampShape(y: string, mo: string, d: string, h: string, mi: string, se: string)
    requires |y| == 4 && |mo| == 2 && |d| == 2 && |h| == 2 && |mi| == 2 && |se| == 2
    ensures var s := Stamp(y, mo, d, h, mi, se);
            && HasShape(s) && |s| == 20 && s[19..] == "Z"
            && s[0..4] == y && s[5..7] == mo && s[8..10] == d
            && s[11..13] == h && s[14..16] == mi && s[17..19] == se
  {
    var s := Stamp(y, mo, d, h, mi, se);
    assert s == [y[0], y[1], y[2], y[3], '-', mo[0], mo[1], '-', d[0], d[1], 'T',
                 h[0], h[1], ':', mi[0], mi[1], ':', se[0], se[1], 'Z'];
  }

  lemma StampOf(s: string)
    requires HasShape(s)
    ensures s[..19] + "Z" == Stamp(s[0..4], s[5..7], s[8..10], s[11..13], s[14..16], s[17..19])
  {
    StampShape(s[0..4], s[5..7], s[8..10], s[11..13], s[14..16], s[17..19]);
    var t := Stamp(s[0..4], s[5..7], s[8..10], s[11..13], s[14..16], s[17..19]);
    var u := s[..19] + "Z";
    assert u == [s[0], s[1], s[2], s[3], '-', s[5], s[6], '-', s[8], s[9], 'T',
                 s[11], s[12], ':', s[14], s[15], ':', s[17], s[18], 'Z'];
  }

  // ----- Years -----

  lemma {:induction false} YearsIncrease(a: int, b: int)
    requires a <= b
    ensures DaysBeforeYear(a) <= DaysBeforeYear(b)
    decreases b - a
  {
    if a < b {
      YearsIncrease(a, b - 1);
      NextYear(b - 1);
    }
  }

  lemma NextYear(y: int)
    ensures DaysBeforeYear(y + 1) == DaysBeforeYear(y) + YearLength(y)
  {
  }

  const MONTH_STARTS: seq<int> := [0, 31, 59, 90, 120, 151, 181, 212, 243, 273, 304, 334]

  lemma {:induction false} MonthsClosed(y: int, m: int)
    requires 1 <= m <= 12
    ensures DaysBeforeMonth(y, m) == MONTH_STARTS[m-1] + if m > 2 && IsLeapYear(y) then 1 else 0
  {
    if m > 1 {
      MonthsClosed(y, m - 1);
    }
  }

  /** A date lies in its year. */
  lemma DateInItsYear(c: Date)
    requires ValidDate(c)
    ensures DaysBeforeYear(c.year) <= CountDays(c) < DaysBeforeYear(c.year + 1)
  {
    MonthsClosed(c.year, c.month);
    NextYear(c.year);
  }

  const FIRST_SECOND: int := -62167219200  // 0000-01-01T00:00:00Z
  const LAST_SECOND: int := 253402300799   // 9999-12-31T23:59:59Z

  lemma YearStarts(first: int, last: int)
    requires first == 0 && last == 10000
    ensures DaysBeforeYear(first) == -719528 && DaysBeforeYear(last) == 2932897
  {
    YearZero();
    YearStartIs(first, -719528);
    YearTenThousand();
    YearStartIs(last, 2932897);
  }

  lemma YearZero()
    ensures DaysFromCivil(Date(0, 1, 1)) == -719528
  {
  }

  lemma YearTenThousand()
    ensures DaysFromCivil(Date(10000, 1, 1)) == 2932897
  {
  }

  lemma YearStartIs(year: int, days: int)
    requires DaysFromCivil(Date(year, 1, 1)) == days
    ensures DaysBeforeYear(year) == days
  {
    YearsCounted(year);
  }

  lemma FourDigitYears(c: Date)
    requires ValidDate(c)
    ensures 0 <= c.year <= 9999 <==> -719528 <= CountDays(c) <= 2932896
  {
    DateInItsYear(c);
    var first, last := 0, 10000;
    YearStarts(first, last);
    if c.year < 0 { YearsIncrease(c.year + 1, first); } else { YearsIncrease(first, c.year); }
    if c.year > 9999 { YearsIncrease(last, c.year); } else { YearsIncrease(c.year + 1, last); }
  }

  lemma YearRange(unix: int)
    ensures 0 <= FieldsOf(unix).date.year <= 9999 <==> FIRST_SECOND <= unix <= LAST_SECOND
  {
    DaysOfCivil(unix / 86400);
    YearRangeOf(FieldsOf(unix).date, unix / 86400, unix);
  }

  lemma YearRangeOf(c: Date, days: int, unix: int)
    requires ValidDate(c) && DaysFromCivil(c) == days && days == unix / 86400
    ensures 0 <= c.year <= 9999 <==> FIRST_SECOND <= unix <= LAST_SECOND
  {
    DaysAreCounted(c);
    FourDigitYears(c);
  }

  // ----- Round trips -----

  lemma SecondsOfFields(unix: int)
    ensures Seconds(FieldsOf(unix)) == unix
  {
    DaysOfCivil(unix / 86400);
    SecondsFrom(FieldsOf(unix), unix / 86400, unix % 86400);
  }

  lemma SecondsFrom(f: Fields, days: int, secs: int)
    requires DaysFromCivil(f.date) == days && 0 <= secs < 86400
    requires f.hour == secs / 3600 && f.minute == (secs % 3600) / 60 && f.second == secs % 60
    ensures Seconds(f) == days * 86400 + secs
  {
  }

  lemma FieldsOfSeconds(f: Fields)
    requires ValidFields(f) && 0 <= f.hour && 0 <= f.minute && 0 <= f.second
    ensures FieldsOf(Seconds(f)) == f
  {
    CivilOfDays(f.date);
    var days, secs := DaysFromCivil(f.date), f.hour * 3600 + f.minute * 60 + f.second;
    ClockOf(f.hour, f.minute, f.second);
    FieldsFrom(Seconds(f), days, secs);
  }

  lemma ClockOf(h: int, mi: int, se: int)
    requires 0 <= h <= 23 && 0 <= mi <= 59 && 0 <= se <= 59
    ensures var secs := h * 3600 + mi * 60 + se;
            0 <= secs < 86400 && secs / 3600 == h && (secs % 3600) / 60 == mi && secs % 60 == se
  {
    var secs := h * 3600 + mi * 60 + se;
    assert secs % 3600 == mi * 60 + se;
  }

  lemma FieldsFrom(unix: int, days: int, secs: int)
    requires unix == days * 86400 + secs && 0 <= secs < 86400
    ensures FieldsOf(unix) == Fields(CivilFromDays(days), secs / 3600, (secs % 3600) / 60, secs % 60)
  {
    assert unix / 86400 == days && unix % 86400 == secs;
    SameDate(unix / 86400, days);
  }

  lemma SameDate(days: int, days': int)
    requires days == days'
    ensures CivilFromDays(days) == CivilFromDays(days')
  {
  }

  /** Formatting then parsing gives the instant back for years 0000 to 9999 and is rejected for all others. */
  lemma FormatThenParse(unix: int)
    ensures Parse(Format(unix)) ==
            if FIRST_SECOND <= unix <= LAST_SECOND then Ok(unix) else Err(ExpiredRequest)
  {
    var f := FieldsOf(unix);
    YearRange(unix);
    if 0 <= f.date.year <= 9999 {
      FieldsReadBack(f);
      SecondsOfFields(unix);
    } else {
      WideYearRejected(f);
    }
  }

  lemma FieldsReadBack(f: Fields)
    requires ValidFields(f) && 0 <= f.date.year <= 9999 && 0 <= f.hour && 0 <= f.minute && 0 <= f.second
    ensures var s := FormatFields(f); HasShape(s) && ReadFields(s) == Some(f) && s[19..] == "Z"
  {
    assert Pow10(4) == 10000 && Pow10(2) == 100;
    ReadPad(f.date.year, 4);
    ReadPad(f.date.month, 2);
    ReadPad(f.date.day, 2);
    ReadPad(f.hour, 2);
    ReadPad(f.minute, 2);
    ReadPad(f.second, 2);
    StampShape(Pad(f.date.year, 4), Pad(f.date.month, 2), Pad(f.date.day, 2),
               Pad(f.hour, 2), Pad(f.minute, 2), Pad(f.second, 2));
  }

  lemma WideYearRejected(f: Fields)
    requires ValidFields(f) && !(0 <= f.date.year <= 9999) && 0 <= f.hour && 0 <= f.minute && 0 <= f.second
    ensures Parse(FormatFields(f)) == Err(ExpiredRequest)
  {
    var s := FormatFields(f);
    var y := PadYear(f.date.year);
    assert Pow10(4) == 10000 && Pow10(3) == 1000;
    assert y <= s;
    if f.date.year > 9999 {
      ReadPad(f.date.year, 4);
      assert s[4] == y[4];
    } else {
      ReadPad(-f.date.year, 3);
      assert s[0] == y[0] == '-';
      if |s| >= 20 {
        assert s[0..4][0] == '-';
      }
    }
  }

  /** Formatting the parse of an accepted text gives the text without its fraction. */
  lemma ParseThenFormat(s: string)
    requires Parse(s).Ok?
    ensures FIRST_SECOND <= Parse(s).value <= LAST_SECOND
    ensures Format(Parse(s).value) == s[..19] + "Z"
  {
    ParsedFields(s);
    var f := ReadFields(s).value;
    FieldsOfSeconds(f);
    YearBound(s[0..4]);
    YearRange(Seconds(f));
    FormatRead(s);
  }

  /** The stamp itself, or the stamp with a fraction of at least one digit before its "Z". */
  ghost predicate WithFraction(s: string, stamp: string) {
    s == stamp || exists ds :: IsFraction(s, stamp, ds)
  }

  predicate IsFraction(s: string, stamp: string, ds: string) {
    && |stamp| >= 19 && ds != ""
    && (forall i :: 0 <= i < |ds| ==> '0' <= ds[i] <= '9')
    && s == stamp[..19] + "." + ds + "Z"
  }

  /** Acceptance, exactly: the stamp of an instant in range, with or without a fraction, and nothing else. */
  lemma ParseExactly(s: string, unix: int)
    ensures Parse(s) == Ok(unix) <==> FIRST_SECOND <= unix <= LAST_SECOND && WithFraction(s, Format(unix))
  {
    var stamp := Format(unix);
    if Parse(s) == Ok(unix) {
      ParseThenFormat(s);
      ParsedFields(s);
      AcceptedTail(s, stamp);
    }
    if FIRST_SECOND <= unix <= LAST_SECOND && WithFraction(s, stamp) {
      FormatThenParse(unix);
      FractionAccepted(s, stamp);
    }
  }

  lemma AcceptedTail(s: string, stamp: string)
    requires |s| >= 20 && TailOk(s[19..]) && stamp == s[..19] + "Z"
    ensures WithFraction(s, stamp)
  {
    var tail := s[19..];
    assert s == s[..19] + tail;
    if tail != "Z" {
      var ds := tail[1..|tail| - 1];
      assert tail == "." + ds + "Z";
      assert stamp[..19] == s[..19];
      Concat(s[..19], ".", ds, "Z");
      assert IsFraction(s, stamp, ds);
    }
  }

  lemma Concat(a: string, b: string, c: string, d: string)
    ensures a + (b + c + d) == a + b + c + d
  {
  }

  lemma FractionAccepted(s: string, stamp: string)
    requires Parse(stamp).Ok? && WithFraction(s, stamp)
    ensures Parse(s) == Parse(stamp)
  {
    if s != stamp {
      ParsedFields(stamp);
      var ds :| IsFraction(s, stamp, ds);
      FractionTail(s, stamp[..19], ds);
      SameFields(s, stamp);
    }
  }

  lemma FractionTail(s: string, head: string, ds: string)
    requires |head| == 19 && ds != "" && AllDigits(ds) && s == head + "." + ds + "Z"
    ensures |s| >= 20 && s[..19] == head && TailOk(s[19..])
  {
    Concat(head, ".", ds, "Z");
    var tail := "." + ds + "Z";
    assert s[19..] == tail;
    assert tail[1..|tail| - 1] == ds;
  }

  lemma SameFields(s: string, t: string)
    requires |s| >= 20 && |t| >= 20 && s[..19] == t[..19]
    ensures ReadFields(s) == ReadFields(t) && (HasShape(s) <==> HasShape(t))
  {
    forall i | 0 <= i < 19 ensures s[i] == t[i] {
      assert s[..19][i] == t[..19][i];
    }
    assert s[0..4] == t[0..4] && s[5..7] == t[5..7] && s[8..10] == t[8..10];
    assert s[11..13] == t[11..13] && s[14..16] == t[14..16] && s[17..19] == t[17..19];
  }

  lemma FormatRead(s: string)
    requires HasShape(s) && ReadFields(s).Some? && ValidFields(ReadFields(s).value)
    ensures FormatFields(ReadFields(s).value) == s[..19] + "Z"
  {
    PadRead(s[0..4]);
    PadRead(s[5..7]);
    PadRead(s[8..10]);
    PadRead(s[11..13]);
    PadRead(s[14..16]);
    PadRead(s[17..19]);
    StampOf(s);
  }

  lemma YearBound(s: string)
    requires AllDigits(s) && |s| == 4
    ensures 0 <= Read(s) <= 9999
  {
    PadRead(s);
    ReadPad(Read(s), 4);
    assert Pow10(4) == 10000;
  }

  // ----- Order -----

  /** Bytewise order of texts. */
  predicate LexLess(s: string, t: string) {
    if t == [] then false
    else if s == [] then true
    else s[0] < t[0] || (s[0] == t[0] && LexLess(s[1..], t[1..]))
  }

  lemma {:induction false} LexConcat(a: string, b: string, x: string, y: string)
    requires |a| == |b|
    ensures LexLess(a + x, b + y) <==> LexLess(a, b) || (a == b && LexLess(x, y))
  {
    if a == [] {
      assert a + x == x && b + y == y;
    } else {
      LexConcat(a[1..], b[1..], x, y);
      assert (a + x)[1..] == a[1..] + x && (b + y)[1..] == b[1..] + y;
      assert a == [a[0]] + a[1..] && b == [b[0]] + b[1..];
    }
  }

  /** Digit strings of one width are ordered like their numbers. */
  lemma {:induction false} LexDigits(a: string, b: string)
    requires SameWidth(a, b)
    ensures LexLess(a, b) <==> Read(a) < Read(b)
    ensures a == b <==> Read(a) == Read(b)
  {
    if a != [] {
      var n := |a| - 1;
      LexDigits(a[..n], b[..n]);
      assert a == a[..n] + [a[n]] && b == b[..n] + [b[n]];
      LexConcat(a[..n], b[..n], [a[n]], [b[n]]);
      assert LexLess([a[n]], [b[n]]) <==> a[n] < b[n];
    }
  }

  /** Digit strings of one width. */
  predicate SameWidth(a: string, b: string) {
    |a| == |b| && AllDigits(a) && AllDigits(b)
  }

  lemma LexField(a: string, b: string, c: char, x: string, y: string)
    requires SameWidth(a, b)
    ensures LexLess(a + ([c] + x), b + ([c] + y)) <==>
            Read(a) < Read(b) || (Read(a) == Read(b) && LexLess(x, y))
  {
    LexDigits(a, b);
    LexConcat(a, b, [c] + x, [c] + y);
    LexConcat([c], [c], x, y);
    assert !LexLess([c], [c]);
  }

  predicate DateLess(c: Date, e: Date) {
    || c.year < e.year
    || (c.year == e.year && (c.month < e.month || (c.month == e.month && c.day < e.day)))
  }

  predicate TimeLess(f: Fields, g: Fields) {
    || f.hour < g.hour
    || (f.hour == g.hour && (f.minute < g.minute || (f.minute == g.minute && f.second < g.second)))
  }

  predicate FieldsLess(f: Fields, g: Fields) {
    DateLess(f.date, g.date) || (f.date == g.date && TimeLess(f, g))
  }

  lemma CountIncreases(c: Date, e: Date)
    requires ValidDate(c) && ValidDate(e) && DateLess(c, e)
    ensures CountDays(c) < CountDays(e)
  {
    if c.year < e.year {
      DateInItsYear(c);
      DateInItsYear(e);
      YearsIncrease(c.year + 1, e.year);
    } else {
      MonthsClosed(c.year, c.month);
      MonthsClosed(e.year, e.month);
    }
  }

  lemma DaysIncrease(c: Date, e: Date)
    requires ValidDate(c) && ValidDate(e) && DateLess(c, e)
    ensures DaysFromCivil(c) < DaysFromCivil(e)
  {
    DaysAreCounted(c);
    DaysAreCounted(e);
    CountIncreases(c, e);
  }

  lemma SecondsIncrease(f: Fields, g: Fields)
    requires ValidFields(f) && 0 <= f.hour && 0 <= f.minute && 0 <= f.second
    requires ValidFields(g) && 0 <= g.hour && 0 <= g.minute && 0 <= g.second
    requires FieldsLess(f, g)
    ensures Seconds(f) < Seconds(g)
  {
    if DateLess(f.date, g.date) {
      DaysIncrease(f.date, g.date);
    }
  }

  lemma FieldsOrder(f: Fields, g: Fields)
    requires ValidFields(f) && 0 <= f.hour && 0 <= f.minute && 0 <= f.second
    requires ValidFields(g) && 0 <= g.hour && 0 <= g.minute && 0 <= g.second
    ensures FieldsLess(f, g) <==> Seconds(f) < Seconds(g)
  {
    if FieldsLess(f, g) {
      SecondsIncrease(f, g);
    } else if FieldsLess(g, f) {
      SecondsIncrease(g, f);
    } else {
      assert f == g;
    }
  }

  lemma LexIsFields(s: string, t: string)
    requires |s| == |t| == 20 && Parse(s).Ok? && Parse(t).Ok?
    ensures LexLess(s, t) <==> FieldsLess(ReadFields(s).value, ReadFields(t).value)
  {
    StampOf(s);
    StampOf(t);
    LastIsZ(s);
    LastIsZ(t);
    LexClock(s[11..13], s[14..16], s[17..19], t[11..13], t[14..16], t[17..19]);
    LexDate(s[0..4], s[5..7], s[8..10], Clock(s[11..13], s[14..16], s[17..19]),
            t[0..4], t[5..7], t[8..10], Clock(t[11..13], t[14..16], t[17..19]));
  }

  lemma LexDate(y: string, mo: string, d: string, x: string, y': string, mo': string, d': string, x': string)
    requires SameWidth(y, y') && SameWidth(mo, mo') && SameWidth(d, d')
    ensures LexLess(DateThen(y, mo, d, x), DateThen(y', mo', d', x')) <==>
            || DateLess(Date(Read(y), Read(mo), Read(d)), Date(Read(y'), Read(mo'), Read(d')))
            || (Date(Read(y), Read(mo), Read(d)) == Date(Read(y'), Read(mo'), Read(d')) && LexLess(x, x'))
  {
    LexDay(mo, d, x, mo', d', x');
    LexField(y, y', '-', mo + ("-" + (d + ("T" + x))), mo' + ("-" + (d' + ("T" + x'))));
  }

  lemma LexDay(mo: string, d: string, x: string, mo': string, d': string, x': string)
    requires SameWidth(mo, mo') && SameWidth(d, d')
    ensures LexLess(mo + ("-" + (d + ("T" + x))), mo' + ("-" + (d' + ("T" + x')))) <==>
            || Read(mo) < Read(mo')
            || (Read(mo) == Read(mo') && (Read(d) < Read(d') || (Read(d) == Read(d') && LexLess(x, x'))))
  {
    LexField(d, d', 'T', x, x');
    LexField(mo, mo', '-', d + ("T" + x), d' + ("T" + x'));
  }

  lemma LexClock(h: string, mi: string, se: string, h': string, mi': string, se': string)
    requires SameWidth(h, h') && SameWidth(mi, mi') && SameWidth(se, se')
    ensures LexLess(Clock(h, mi, se), Clock(h', mi', se')) <==>
            || Read(h) < Read(h')
            || (Read(h) == Read(h') &&
                (Read(mi) < Read(mi') || (Read(mi) == Read(mi') && Read(se) < Read(se'))))
  {
    LexMinute(mi, se, mi', se');
    LexField(h, h', ':', mi + (":" + (se + "Z")), mi' + (":" + (se' + "Z")));
  }

  lemma LexMinute(mi: string, se: string, mi': string, se': string)
    requires SameWidth(mi, mi') && SameWidth(se, se')
    ensures LexLess(mi + (":" + (se + "Z")), mi' + (":" + (se' + "Z"))) <==>
            Read(mi) < Read(mi') || (Read(mi) == Read(mi') && Read(se) < Read(se'))
  {
    LexSecond(se, se');
    LexField(mi, mi', ':', se + "Z", se' + "Z");
  }

  lemma LexSecond(se: string, se': string)
    requires SameWidth(se, se')
    ensures LexLess(se + "Z", se' + "Z") <==> Read(se) < Read(se')
  {
    LexDigits(se, se');
    LexConcat(se, se', "Z", "Z");
    assert !LexLess("Z", "Z");
  }

  lemma ParsedFields(s: string)
    requires Parse(s).Ok?
    ensures ReadFields(s).Some?
    ensures var f := ReadFields(s).value;
            ValidFields(f) && 0 <= f.hour && 0 <= f.minute && 0 <= f.second && Parse(s) == Ok(Seconds(f))
  {
  }

  /** Among accepted texts without fraction, text order is time order. */
  lemma TextOrderIsTimeOrder(s: string, t: string)
    requires |s| == |t| == 20 && Parse(s).Ok? && Parse(t).Ok?
    ensures LexLess(s, t) <==> Parse(s).value < Parse(t).value
  {
    ParsedFields(s);
    ParsedFields(t);
    LexIsFields(s, t);
    FieldsOrder(ReadFields(s).value, ReadFields(t).value);
  }

  /** An accepted text without fraction is the only one for its instant. */
  lemma ParseInjective(s: string, t: string)
    requires |s| == |t| == 20 && Parse(s).Ok? && Parse(s) == Parse(t)
    ensures s == t
  {
    ParseThenFormat(s);
    ParseThenFormat(t);
    LastIsZ(s);
    LastIsZ(t);
  }

  lemma LastIsZ(s: string)
    requires |s| == 20 && Parse(s).Ok?
    ensures s == s[..19] + "Z"
  {
    assert s[19..] == "Z";
  }

  // ----- Freshness -----

  function CheckFreshness(issuedAt: string, expiresAt: string, now: int, skew: int): Result<()> {
    var issued :- Parse(issuedAt);
    var expires :- Parse(expiresAt);
    CheckWindow(issued, expires, now, skew)
  }

  function CheckWindow(issued: int, expires: int, now: int, skew: int): Result<()> {
    if expires < issued then Err(ExpiredRequest)
    else
      var lower := Saturate(issued - skew);
      var upper := Saturate(expires + skew);
      if now < lower || now > upper then Err(ExpiredRequest) else Ok(())
  }

  /** The window in unbounded arithmetic. */
  predicate InWindow(issued: int, expires: int, now: int, skew: int) {
    issued <= expires && issued - skew <= now <= expires + skew
  }

  /** Saturation never shows: the window is the one of unbounded arithmetic, for any skew. */
  lemma FreshnessWindow(issuedAt: string, expiresAt: string, now: int, skew: int)
    requires IsI64(now) && IsI64(skew)
    ensures CheckFreshness(issuedAt, expiresAt, now, skew) ==
            if Parse(issuedAt).Ok? && Parse(expiresAt).Ok? &&
               InWindow(Parse(issuedAt).value, Parse(expiresAt).value, now, skew)
            then Ok(()) else Err(ExpiredRequest)
  {
    ParseFails(issuedAt);
    ParseFails(expiresAt);
    if Parse(issuedAt).Ok? && Parse(expiresAt).Ok? {
      ParseThenFormat(issuedAt);
      ParseThenFormat(expiresAt);
      WindowArithmetic(Parse(issuedAt).value, Parse(expiresAt).value, now, skew);
    }
  }

  lemma ParseFails(s: string)
    ensures Parse(s).Err? ==> Parse(s) == Err(ExpiredRequest)
  {
  }

  lemma WindowArithmetic(issued: int, expires: int, now: int, skew: int)
    requires IsI64(now) && IsI64(skew)
    requires FIRST_SECOND <= issued <= LAST_SECOND && FIRST_SECOND <= expires <= LAST_SECOND
    ensures CheckWindow(issued, expires, now, skew) ==
            if InWindow(issued, expires, now, skew) then Ok(()) else Err(ExpiredRequest)
  {
  }
}
