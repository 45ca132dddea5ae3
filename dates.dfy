/** Calendar dates and the due-date validator of the task manager.

    `Scan` is the pattern match that `strptime(s, "%Y-%m-%d")` performs,
    `Parse` adds the calendar checks of the resulting `datetime`, `Format`
    is `strftime("%Y-%m-%d")`, and `ValidateDate` is `validate_date` with
    the current date passed in as `today`. */
module Dates {
  import opened Wrappers

  /** A proleptic Gregorian date; `Valid` says it is one `datetime` accepts. */
  datatype Date = Date(year: int, month: int, day: int)

  const MinYear := 1
  const MaxYear := 9999

  predicate IsLeapYear(y: int) {
    y % 4 == 0 && (y % 100 != 0 || y % 400 == 0)
  }

  function DaysInMonth(y: int, m: int): int
    requires 1 <= m <= 12
  {
    if m == 2 then (if IsLeapYear(y) then 29 else 28)
    else if m == 4 || m == 6 || m == 9 || m == 11 then 30
    else 31
  }

  predicate Valid(d: Date) {
    MinYear <= d.year <= MaxYear && 1 <= d.month <= 12 && 1 <= d.day <= DaysInMonth(d.year, d.month)
  }

  /** `a < b` on dates: Python compares the (year, month, day) triples. */
  predicate Before(a: Date, b: Date)
    ensures Before(a, b) ==> a != b && a.year <= b.year
  {
    a.year < b.year ||
    (a.year == b.year && (a.month < b.month || (a.month == b.month && a.day < b.day)))
  }

  // ---------------------------------------------------------------------
  // The day count since 0001-01-01: an independent reading of "earlier".

  function DaysInYear(y: int): int {
    if IsLeapYear(y) then 366 else 365
  }

  function DaysBeforeYear(y: int): int
    requires y >= MinYear
    decreases y
  {
    if y == MinYear then 0 else DaysBeforeYear(y - 1) + DaysInYear(y - 1)
  }

  function DaysBeforeMonth(y: int, m: int): int
    requires 1 <= m <= 12
  {
    (if m == 1 then 0 else if m == 2 then 31 else if m == 3 then 59
     else if m == 4 then 90 else if m == 5 then 120 else if m == 6 then 151
     else if m == 7 then 181 else if m == 8 then 212 else if m == 9 then 243
     else if m == 10 then 273 else if m == 11 then 304 else 334)
    + (if m > 2 && IsLeapYear(y) then 1 else 0)
  }

  /** Day number of a date, with 0001-01-01 as day 1. */
  function Ordinal(d: Date): int
    requires Valid(d)
  {
    DaysBeforeYear(d.year) + DaysBeforeMonth(d.year, d.month) + d.day
  }

  lemma MonthsFitInYear(y: int, m: int)
    requires 1 <= m <= 12
    ensures m < 12 ==> DaysBeforeMonth(y, m) + DaysInMonth(y, m) == DaysBeforeMonth(y, m + 1)
    ensures DaysBeforeMonth(y, m) + DaysInMonth(y, m) <= DaysInYear(y)
  {
  }

  lemma {:induction false} YearsAccumulate(y1: int, y2: int)
    requires MinYear <= y1 < y2
    ensures DaysBeforeYear(y1) + DaysInYear(y1) <= DaysBeforeYear(y2)
    decreases y2
  {
    if y2 > y1 + 1 {
      YearsAccumulate(y1, y2 - 1);
    }
  }

  lemma {:induction false} MonthsAccumulate(y: int, m1: int, m2: int)
    requires 1 <= m1 < m2 <= 12
    ensures DaysBeforeMonth(y, m1) + DaysInMonth(y, m1) <= DaysBeforeMonth(y, m2)
    decreases m2
  {
    MonthsFitInYear(y, m1);
    if m2 > m1 + 1 {
      MonthsAccumulate(y, m1, m2 - 1);
      MonthsFitInYear(y, m2 - 1);
    }
  }

  /** Comparing the triples is comparing the day numbers. */
  lemma BeforeIsOrdinalLess(a: Date, b: Date)
    requires Valid(a) && Valid(b)
    ensures Before(a, b) <==> Ordinal(a) < Ordinal(b)
    ensures a == b <==> Ordinal(a) == Ordinal(b)
  {
    forall x: Date, z: Date | Valid(x) && Valid(z) && Before(x, z)
      ensures Ordinal(x) < Ordinal(z)
    {
      MonthsFitInYear(x.year, x.month);
      if x.year < z.year {
        YearsAccumulate(x.year, z.year);
      } else if x.month < z.month {
        MonthsAccumulate(x.year, x.month, z.month);
      }
    }
  }

  // ---------------------------------------------------------------------
  // Parsing: the pattern "%Y-%m-%d" as the strptime regex reads it.

  predicate IsDigit(c: char) {
    '0' <= c <= '9'
  }

  function DigitValue(c: char): (v: int)
    requires IsDigit(c)
    ensures 0 <= v <= 9
  {
    c as int - '0' as int
  }

  /** Fields a match of the pattern can produce, before the calendar
      checks. */
  predicate InPatternRange(d: Date) {
    0 <= d.year <= 9999 && 1 <= d.month <= 12 && 1 <= d.day <= 31
  }

  /** The four digits of a year. */
  function YearText(y: int): (t: string)
    requires 0 <= y <= 9999
    ensures |t| == 4
  {
    Pad2(y / 100) + Pad2(y % 100)
  }

  /** The texts `%m` reads as month `m`: two digits, or one without the
      leading zero. */
  function MonthSpellings(m: int): set<string>
    requires 1 <= m <= 12
  {
    {Pad2(m)} + (if m <= 9 then {[DigitChar(m)]} else {})
  }

  /** The texts `%d` reads as day `d`: two digits, or one without the
      leading zero, or one after a space. */
  function DaySpellings(d: int): set<string>
    requires 1 <= d <= 31
  {
    {Pad2(d)} + (if d <= 9 then {[DigitChar(d)], [' ', DigitChar(d)]} else {})
  }

  /** Every text the pattern "%Y-%m-%d" reads as the fields of `d`. */
  function Spellings(d: Date): set<string>
    requires InPatternRange(d)
  {
    set ms, ds | ms in MonthSpellings(d.month) && ds in DaySpellings(d.day)
      :: YearText(d.year) + "-" + ms + "-" + ds
  }

  /** `%m` opens with the alternatives 1[0-2] | 0[1-9] | [1-9], tried in
      that order and each followed by the literal '-'. Gives the month and
      the position after the '-'; the text before that '-' is a spelling
      of the month. */
  function ScanMonth(s: string, p: nat): (r: Option<(int, nat)>)
    ensures r.Some? ==>
      var (m, e) := r.value;
      1 <= m <= 12 && p + 2 <= e <= |s| && s[e - 1] == '-' && s[p..e - 1] in MonthSpellings(m)
  {
    if p + 2 < |s| && s[p] == '1' && '0' <= s[p + 1] <= '2' && s[p + 2] == '-' then
      TwoDigits(s, p);
      Some((10 * DigitValue(s[p]) + DigitValue(s[p + 1]), p + 3))
    else if p + 2 < |s| && s[p] == '0' && '1' <= s[p + 1] <= '9' && s[p + 2] == '-' then
      TwoDigits(s, p);
      Some((10 * DigitValue(s[p]) + DigitValue(s[p + 1]), p + 3))
    else if p + 1 < |s| && '1' <= s[p] <= '9' && s[p + 1] == '-' then
      OneDigit(s, p);
      Some((DigitValue(s[p]), p + 2))
    else
      None
  }

  /** `%d` is 3[01] | [12]\d | 0[1-9] | [1-9] | ' '[1-9]; nothing follows it
      in the pattern, so the first alternative that matches is taken. Gives
      the day and the position after it; the text read is a spelling of
      the day. */
  function ScanDay(s: string, q: nat): (r: Option<(int, nat)>)
    ensures r.Some? ==>
      var (d, e) := r.value;
      1 <= d <= 31 && q < e <= |s| && s[q..e] in DaySpellings(d)
  {
    if q + 1 < |s| && s[q] == '3' && '0' <= s[q + 1] <= '1' then
      TwoDigits(s, q);
      Some((10 * DigitValue(s[q]) + DigitValue(s[q + 1]), q + 2))
    else if q + 1 < |s| && '1' <= s[q] <= '2' && IsDigit(s[q + 1]) then
      TwoDigits(s, q);
      Some((10 * DigitValue(s[q]) + DigitValue(s[q + 1]), q + 2))
    else if q + 1 < |s| && s[q] == '0' && '1' <= s[q + 1] <= '9' then
      TwoDigits(s, q);
      Some((10 * DigitValue(s[q]) + DigitValue(s[q + 1]), q + 2))
    else if q < |s| && '1' <= s[q] <= '9' then
      OneDigit(s, q);
      Some((DigitValue(s[q]), q + 1))
    else if q + 1 < |s| && s[q] == ' ' && '1' <= s[q + 1] <= '9' then
      OneDigit(s, q + 1);
      assert s[q..q + 2] == [' ', DigitChar(DigitValue(s[q + 1]))];
      Some((DigitValue(s[q + 1]), q + 2))
    else
      None
  }

  lemma TwoDigits(s: string, p: nat)
    requires p + 1 < |s| && IsDigit(s[p]) && IsDigit(s[p + 1])
    ensures s[p..p + 2] == Pad2(10 * DigitValue(s[p]) + DigitValue(s[p + 1]))
  {
    DigitsRead(s[p], s[p + 1]);
  }

  lemma OneDigit(s: string, p: nat)
    requires p < |s| && IsDigit(s[p])
    ensures s[p..p + 1] == [DigitChar(DigitValue(s[p]))]
  {
  }

  /** The whole match: four digits, '-', month, day, and then no
      unconverted characters left over. The fields are not yet checked
      against the calendar. */
  function Scan(s: string): (r: Option<Date>)
    ensures r.Some? ==> InPatternRange(r.value)
  {
    if |s| < 5 || !(IsDigit(s[0]) && IsDigit(s[1]) && IsDigit(s[2]) && IsDigit(s[3])) || s[4] != '-' then
      None
    else
      var year := 100 * (10 * DigitValue(s[0]) + DigitValue(s[1])) + (10 * DigitValue(s[2]) + DigitValue(s[3]));
      match ScanMonth(s, 5)
      case None => None
      case Some((month, q)) =>
        match ScanDay(s, q)
        case None => None
        case Some((day, e)) =>
          if e == |s| then Some(Date(year, month, day)) else None
  }

  lemma YearRead(s: string)
    requires |s| >= 4 && IsDigit(s[0]) && IsDigit(s[1]) && IsDigit(s[2]) && IsDigit(s[3])
    ensures YearText(100 * (10 * DigitValue(s[0]) + DigitValue(s[1])) + (10 * DigitValue(s[2]) + DigitValue(s[3]))) == s[..4]
  {
    var y1 := 10 * DigitValue(s[0]) + DigitValue(s[1]);
    var y2 := 10 * DigitValue(s[2]) + DigitValue(s[3]);
    assert (100 * y1 + y2) / 100 == y1 && (100 * y1 + y2) % 100 == y2;
    DigitsRead(s[0], s[1]);
    DigitsRead(s[2], s[3]);
  }

  /** A spelling of month `m` followed by '-' is read as `m`. */
  lemma ScanMonthReads(s: string, p: nat, m: int, ms: string)
    requires 1 <= m <= 12 && ms in MonthSpellings(m)
    requires p + |ms| < |s| && s[p..p + |ms|] == ms && s[p + |ms|] == '-'
    ensures ScanMonth(s, p) == Some((m, p + |ms| + 1))
  {
    if ms == Pad2(m) {
      assert s[p] == ms[0] && s[p + 1] == ms[1];
    } else {
      assert s[p] == ms[0];
    }
  }

  /** A spelling of day `d` that ends the text is read as `d`. */
  lemma ScanDayReads(s: string, q: nat, d: int, ds: string)
    requires 1 <= d <= 31 && ds in DaySpellings(d)
    requires q <= |s| && s[q..] == ds
    ensures ScanDay(s, q) == Some((d, |s|))
  {
    assert |ds| == 1 || |ds| == 2;
    assert s[q] == ds[0];
    if |ds| == 2 {
      assert s[q + 1] == ds[1];
    }
  }

  /** What the pattern reads is a spelling of the fields it produced. */
  lemma ScanIsSpelling(s: string)
    requires Scan(s).Some?
    ensures s in Spellings(Scan(s).value)
  {
    var d := Scan(s).value;
    YearRead(s);
    var q := ScanMonth(s, 5).value.1;
    var ms, ds := s[5..q - 1], s[q..];
    assert ScanDay(s, q).value.1 == |s| && s[q..|s|] == ds;
    assert ms in MonthSpellings(d.month) && ds in DaySpellings(d.day);
    assert s == YearText(d.year) + "-" + ms + "-" + ds;
  }

  /** Every spelling of fields in range is read back as those fields. */
  lemma SpellingIsScanned(s: string, d: Date)
    requires InPatternRange(d) && s in Spellings(d)
    ensures Scan(s) == Some(d)
  {
    var ms, ds :| ms in MonthSpellings(d.month) && ds in DaySpellings(d.day)
      && s == YearText(d.year) + "-" + ms + "-" + ds;
    var yt := YearText(d.year);
    assert s[..4] == yt && s[4] == '-';
    assert s[5..5 + |ms|] == ms && s[5 + |ms|] == '-';
    ScanMonthReads(s, 5, d.month, ms);
    assert s[5 + |ms| + 1..] == ds;
    ScanDayReads(s, 5 + |ms| + 1, d.day, ds);
    YearDigits(d.year);
  }

  lemma YearDigits(y: int)
    requires 0 <= y <= 9999
    ensures var t := YearText(y);
      IsDigit(t[0]) && IsDigit(t[1]) && IsDigit(t[2]) && IsDigit(t[3]) &&
      100 * (10 * DigitValue(t[0]) + DigitValue(t[1])) + (10 * DigitValue(t[2]) + DigitValue(t[3])) == y
  {
    assert 100 * (y / 100) + y % 100 == y;
  }

  /** The pattern match is exactly "one of the spellings of its fields". */
  lemma ScanSpellings(s: string, d: Date)
    ensures Scan(s) == Some(d) <==> InPatternRange(d) && s in Spellings(d)
  {
    if Scan(s) == Some(d) {
      ScanIsSpelling(s);
    }
    if InPatternRange(d) && s in Spellings(d) {
      SpellingIsScanned(s, d);
    }
  }

  /** strptime accepts exactly the spellings of real dates:
      `Parse(s)` is `d` iff `d` is valid and `s` spells it. */
  lemma ParseSpellings(s: string, d: Date)
    ensures Parse(s) == Some(d) <==> Valid(d) && s in Spellings(d)
  {
    ScanSpellings(s, d);
  }

  /** `datetime.strptime(s, "%Y-%m-%d")`: the match, and then the checks of
      the `datetime` constructor (year 0 and a day past the month's end
      are refused). `None` is the `ValueError`. */
  function Parse(s: string): (r: Option<Date>)
    ensures r.Some? ==> Valid(r.value) && Scan(s) == r
    ensures Scan(s).Some? && Valid(Scan(s).value) ==> r.Some?
  {
    match Scan(s)
    case None => None
    case Some(d) => if Valid(d) then Some(d) else None
  }

  // ---------------------------------------------------------------------
  // Formatting: strftime("%Y-%m-%d").

  function DigitChar(n: int): (c: char)
    requires 0 <= n <= 9
    ensures IsDigit(c) && DigitValue(c) == n
  {
    ('0' as int + n) as char
  }

  function Pad2(n: int): (s: string)
    requires 0 <= n <= 99
    ensures |s| == 2 && IsDigit(s[0]) && IsDigit(s[1])
    ensures 10 * DigitValue(s[0]) + DigitValue(s[1]) == n
  {
    [DigitChar(n / 10), DigitChar(n % 10)]
  }

  /** The canonical, zero-padded `YYYY-MM-DD` spelling of a date. */
  function Format(d: Date): (s: string)
    requires Valid(d)
    ensures |s| == 10 && s[4] == '-' && s[7] == '-'
    ensures forall i :: 0 <= i < |s| && i != 4 && i != 7 ==> IsDigit(s[i])
  {
    Pad2(d.year / 100) + Pad2(d.year % 100) + "-" + Pad2(d.month) + "-" + Pad2(d.day)
  }

  /** Reading back a formatted date gives the date. */
  lemma ParseFormat(d: Date)
    requires Valid(d)
    ensures Parse(Format(d)) == Some(d)
  {
    var s := Format(d);
    assert s[..2] == Pad2(d.year / 100) && s[2..4] == Pad2(d.year % 100);
    assert s[5..7] == Pad2(d.month) && s[8..] == Pad2(d.day);
    assert 100 * (d.year / 100) + d.year % 100 == d.year;
    assert ScanDay(s, 8) == Some((d.day, 10)) by {
      assert d.day <= 31;
    }
  }

  /** A ten-character string without spaces that parses is already in
      canonical form: `Format` gives it back unchanged. */
  lemma CanonicalFormat(s: string)
    requires Parse(s).Some? && |s| == 10 && ' ' !in s
    ensures Format(Parse(s).value) == s
  {
    var d := Parse(s).value;
    var y1 := 10 * DigitValue(s[0]) + DigitValue(s[1]);
    var y2 := 10 * DigitValue(s[2]) + DigitValue(s[3]);
    assert d.year == 100 * y1 + y2;
    assert d.year / 100 == y1 && d.year % 100 == y2;
    assert s[7] == '-' && IsDigit(s[5]) && IsDigit(s[6]);
    assert d.month == 10 * DigitValue(s[5]) + DigitValue(s[6]);
    assert ' ' != s[8];
    assert IsDigit(s[8]) && IsDigit(s[9]);
    assert d.day == 10 * DigitValue(s[8]) + DigitValue(s[9]);
    DigitsRead(s[0], s[1]);
    DigitsRead(s[2], s[3]);
    DigitsRead(s[5], s[6]);
    DigitsRead(s[8], s[9]);
    assert s == [s[0], s[1]] + [s[2], s[3]] + "-" + [s[5], s[6]] + "-" + [s[8], s[9]];
  }

  lemma DigitsRead(a: char, b: char)
    requires IsDigit(a) && IsDigit(b)
    ensures Pad2(10 * DigitValue(a) + DigitValue(b)) == [a, b]
  {
  }

  // ---------------------------------------------------------------------
  // validate_date

  /** The two refusals: the date does not parse, or it is already past. */
  datatype DateError = InvalidFormat | PastDate

  /** `validate_date(s)` with the current date given as `today`: the
      canonical spelling of the date when it parses and is not strictly
      before today; otherwise which of the two checks failed. */
  function ValidateDate(s: string, today: Date): (r: Result<string, DateError>)
    ensures r.Ok? <==> Parse(s).Some? && !Before(Parse(s).value, today)
    ensures r.Ok? ==> r.value == Format(Parse(s).value)
    ensures r == Err(InvalidFormat) <==> Parse(s).None?
  {
    match Parse(s)
    case None => Err(InvalidFormat)
    case Some(d) => if Before(d, today) then Err(PastDate) else Ok(Format(d))
  }

  /** Validating the validator's own output again, against the same day,
      returns that output. */
  lemma ValidateIdempotent(s: string, today: Date)
    requires ValidateDate(s, today).Ok?
    ensures ValidateDate(ValidateDate(s, today).value, today) == ValidateDate(s, today)
  {
    ParseFormat(Parse(s).value);
  }

  /** An input already written as YYYY-MM-DD comes back unchanged. */
  lemma ValidateKeepsCanonical(s: string, today: Date)
    requires ValidateDate(s, today).Ok? && |s| == 10 && ' ' !in s
    ensures ValidateDate(s, today) == Ok(s)
  {
    CanonicalFormat(s);
  }

  /** Today itself is not in the past. */
  lemma ValidateAcceptsToday(today: Date)
    requires Valid(today)
    ensures ValidateDate(Format(today), today) == Ok(Format(today))
  {
    ParseFormat(today);
  }

  /** The acceptance rule against the day count: a valid date is accepted
      exactly when its day number is at least today's. */
  lemma ValidateByOrdinal(d: Date, today: Date)
    requires Valid(d) && Valid(today)
    ensures ValidateDate(Format(d), today).Ok? <==> Ordinal(d) >= Ordinal(today)
  {
    ParseFormat(d);
    BeforeIsOrdinalLess(d, today);
  }

  /** A past date and an unparsable text are refused for
      their two different reasons. */
  lemma ValidateRefusalExamples()
    ensures ValidateDate("2020-01-01", Date(2026, 10, 14)) == Err(PastDate)
    ensures ValidateDate("not-a-date", Date(2026, 10, 14)) == Err(InvalidFormat)
  {
    assert Scan("2020-01-01") == Some(Date(2020, 1, 1));
  }

  /** An unpadded month and day, and a space before the day, are accepted
      and come back zero-padded. */
  lemma ValidatePaddingExamples()
    ensures ValidateDate("2027-3-5", Date(2026, 10, 14)) == Ok("2027-03-05")
    ensures ValidateDate("2027-03- 5", Date(2026, 10, 14)) == Ok("2027-03-05")
  {
    assert Scan("2027-3-5") == Some(Date(2027, 3, 5));
    assert Scan("2027-03- 5") == Some(Date(2027, 3, 5));
    assert Format(Date(2027, 3, 5)) == "2027-03-05";
  }

  /** 29 February exists only in leap years. */
  lemma ValidateLeapDayExamples()
    ensures ValidateDate("2027-02-29", Date(2026, 10, 14)) == Err(InvalidFormat)
    ensures ValidateDate("2028-02-29", Date(2026, 10, 14)) == Ok("2028-02-29")
  {
    assert Scan("2027-02-29") == Some(Date(2027, 2, 29));
    assert Scan("2028-02-29") == Some(Date(2028, 2, 29));
    assert Format(Date(2028, 2, 29)) == "2028-02-29";
  }

  /** A thirteenth month and a trailing extra digit do not match. */
  lemma ValidateMalformedExamples()
    ensures ValidateDate("2027-13-01", Date(2026, 10, 14)) == Err(InvalidFormat)
    ensures ValidateDate("2027-01-011", Date(2026, 10, 14)) == Err(InvalidFormat)
  {
    assert ScanMonth("2027-13-01", 5) == None;
    assert ScanDay("2027-01-011", 8) == Some((1, 10));
  }
}
