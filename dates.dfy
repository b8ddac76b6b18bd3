/**
 * Calendar dates and the parsing of UK-formatted date strings
 * (logic/parsing/dates.py).
 *
 * `datetime.strptime(s, "%d/%m/%Y")` accepts exactly the strings that match
 * the regular expression its format compiles to, anchored at the start and
 * then required to reach the end, and whose fields name a real date:
 *   %d = 3[01] | [12]\d | 0[1-9] | [1-9] | " "[1-9]
 *   %m = 1[0-2] | 0[1-9] | [1-9]
 *   %Y = \d\d\d\d          %y = \d\d   (00–68 in the 2000s, 69–99 in the 1900s)
 * No field can contain a "/", so the two slashes that separate the fields are
 * the first two in the string.
 */
module Dates {
  import opened Wrappers
  import opened Text

  /** A `datetime.date`; Python orders dates by (year, month, day). */
  datatype Date = Date(year: int, month: int, day: int)

  predicate IsLeapYear(year: int)
  {
    year % 4 == 0 && (year % 100 != 0 || year % 400 == 0)
  }

  function DaysInMonth(year: int, month: int): int
    requires 1 <= month <= 12
  {
    if month == 2 then (if IsLeapYear(year) then 29 else 28)
    else if month == 4 || month == 6 || month == 9 || month == 11 then 30
    else 31
  }

  /** The dates `datetime.date` can represent (years 1 to 9999). */
  predicate ValidDate(d: Date)
  {
    && 1 <= d.year <= 9999
    && 1 <= d.month <= 12
    && 1 <= d.day <= DaysInMonth(d.year, d.month)
  }

  /** `a < b` on `datetime.date`. */
  predicate Before(a: Date, b: Date)
  {
    || a.year < b.year
    || (a.year == b.year && a.month < b.month)
    || (a.year == b.year && a.month == b.month && a.day < b.day)
  }

  // ---------------------------------------------------------------------
  // The fields of the two strptime formats

  lemma TwoDigitsValue(t: string)
    requires |t| == 2 && AllDigits(t)
    ensures DigitsValue(t) == 10 * DigitValue(t[0]) + DigitValue(t[1])
  {
    var head := t[..1];
    assert AllDigits(head) && head[..0] == [] && head[0] == t[0];
    assert DigitsValue(head) == DigitValue(t[0]);
  }

  /** `%d`: a day of the month, 1 to 31. */
  function DayField(t: string): (r: Option<int>)
    ensures r.Some? ==> 1 <= r.value <= 31
  {
    if |t| == 1 && IsAsciiDigit(t[0]) && t[0] != '0' then Some(DigitValue(t[0]))
    else if |t| == 2 && t[0] == ' ' && IsAsciiDigit(t[1]) && t[1] != '0' then Some(DigitValue(t[1]))
    else if |t| == 2 && AllDigits(t) && 1 <= DigitsValue(t) <= 31 then Some(DigitsValue(t))
    else None
  }

  /** `%m`: a month, 1 to 12. */
  function MonthField(t: string): (r: Option<int>)
    ensures r.Some? ==> 1 <= r.value <= 12
  {
    if |t| == 1 && IsAsciiDigit(t[0]) && t[0] != '0' then Some(DigitValue(t[0]))
    else if |t| == 2 && AllDigits(t) && 1 <= DigitsValue(t) <= 12 then Some(DigitsValue(t))
    else None
  }

  datatype YearFormat = FourDigitYear | TwoDigitYear

  /**
   * `%Y` or `%y`. The century of a two-digit year follows the POSIX rule
   * that `strptime` implements: 00–68 are 2000–2068, 69–99 are 1969–1999.
   */
  function YearField(t: string, format: YearFormat): (r: Option<int>)
    ensures r.Some? && format == FourDigitYear ==> |t| == 4 && 0 <= r.value <= 9999
    ensures r.Some? && format == TwoDigitYear ==> |t| == 2 && 1969 <= r.value <= 2068
  {
    match format
    case FourDigitYear =>
      if |t| == 4 && AllDigits(t) then (DigitsValueBound(t); Some(DigitsValue(t))) else None
    case TwoDigitYear =>
      if |t| == 2 && AllDigits(t) then
        var v := DigitsValue(t);
        TwoDigitsValue(t);
        Some(if v <= 68 then 2000 + v else 1900 + v)
      else None
  }

  /** The text before the first "/", between the first two, and after the second. */
  function SplitFields(s: string): (r: Option<(string, string, string)>)
    ensures r.Some? ==> s == r.value.0 + "/" + r.value.1 + "/" + r.value.2
    ensures r.Some? ==> '/' !in r.value.0 && '/' !in r.value.1
  {
    var i := IndexOf(s, '/');
    if i == |s| then None
    else
      var rest := s[i + 1..];
      var j := IndexOf(rest, '/');
      if j == |rest| then None
      else
        assert s == s[..i] + "/" + rest[..j] + "/" + rest[j + 1..];
        Some((s[..i], rest[..j], rest[j + 1..]))
  }

  /** `datetime.strptime(s, "%d/%m/%Y").date()`, or `%y`; None where it raises ValueError. */
  function ParseWithFormat(s: string, format: YearFormat): (r: Option<Date>)
    ensures r.Some? ==> ValidDate(r.value)
  {
    match SplitFields(s)
    case None => None
    case Some((dayText, monthText, yearText)) =>
      match (DayField(dayText), MonthField(monthText), YearField(yearText, format))
      case (Some(day), Some(month), Some(year)) =>
        if ValidDate(Date(year, month, day)) then Some(Date(year, month, day)) else None
      case _ => None
  }

  /** No string is accepted by both formats, so the fallback order never decides a result. */
  lemma FormatsAreExclusive(s: string)
    ensures ParseWithFormat(s, FourDigitYear).None? || ParseWithFormat(s, TwoDigitYear).None?
  {
  }

  /** `parse_uk_formatted_date`: `%d/%m/%Y`, falling back to `%d/%m/%y`; None where it raises. */
  function ParseUkFormattedDate(s: string): (r: Option<Date>)
    ensures r.Some? ==> ValidDate(r.value)
    ensures r.Some? <==> ParseWithFormat(s, FourDigitYear).Some? || ParseWithFormat(s, TwoDigitYear).Some?
    ensures r.Some? ==> r == ParseWithFormat(s, FourDigitYear) || r == ParseWithFormat(s, TwoDigitYear)
  {
    match ParseWithFormat(s, FourDigitYear)
    case Some(d) => Some(d)
    case None => ParseWithFormat(s, TwoDigitYear)
  }

  // ---------------------------------------------------------------------
  // Formatting, the inverse of parsing

  /** `d.strftime("%d/%m/%Y")`. */
  function FormatDayMonthYear(d: Date): (s: string)
    requires ValidDate(d)
    ensures |s| == 10
  {
    ZeroPadded(d.day, 2) + "/" + ZeroPadded(d.month, 2) + "/" + ZeroPadded(d.year, 4)
  }

  /** `d.strftime("%d/%m/%y")`. */
  function FormatDayMonthShortYear(d: Date): (s: string)
    requires ValidDate(d)
    ensures |s| == 8
  {
    ZeroPadded(d.day, 2) + "/" + ZeroPadded(d.month, 2) + "/" + ZeroPadded(d.year % 100, 2)
  }

  /** `d.isoformat()`: YYYY-MM-DD. */
  function IsoFormat(d: Date): (s: string)
    requires ValidDate(d)
    ensures |s| == 10 && s[4] == '-' && s[7] == '-'
    ensures AllDigits(s[..4]) && AllDigits(s[5..7]) && AllDigits(s[8..])
    ensures DigitsValue(s[..4]) == d.year && DigitsValue(s[5..7]) == d.month && DigitsValue(s[8..]) == d.day
  {
    var s := ZeroPadded(d.year, 4) + "-" + ZeroPadded(d.month, 2) + "-" + ZeroPadded(d.day, 2);
    assert s[..4] == ZeroPadded(d.year, 4);
    assert s[5..7] == ZeroPadded(d.month, 2);
    assert s[8..] == ZeroPadded(d.day, 2);
    s
  }

  /** Splitting undoes joining with "/", when the first two fields hold no "/". */
  lemma SplitFieldsOfJoined(dd: string, mm: string, yy: string)
    requires '/' !in dd && '/' !in mm
    ensures SplitFields(dd + "/" + mm + "/" + yy) == Some((dd, mm, yy))
  {
    var s := dd + "/" + mm + "/" + yy;
    assert s[|dd|] == '/' && forall k :: 0 <= k < |dd| ==> s[k] == dd[k];
    assert IndexOf(s, '/') == |dd|;
    var rest := s[|dd| + 1..];
    assert rest == mm + "/" + yy;
    assert rest[|mm|] == '/' && forall k :: 0 <= k < |mm| ==> rest[k] == mm[k];
    assert IndexOf(rest, '/') == |mm|;
    assert s[..|dd|] == dd && rest[..|mm|] == mm && rest[|mm| + 1..] == yy;
  }

  lemma DayFieldOfPadded(d: int)
    requires 1 <= d <= 31
    ensures DayField(ZeroPadded(d, 2)) == Some(d)
  {
  }

  lemma MonthFieldOfPadded(m: int)
    requires 1 <= m <= 12
    ensures MonthField(ZeroPadded(m, 2)) == Some(m)
  {
  }

  /** Parsing a date written as DD/MM/YYYY gives that date back. */
  lemma ParseFormattedDate(d: Date)
    requires ValidDate(d)
    ensures ParseUkFormattedDate(FormatDayMonthYear(d)) == Some(d)
  {
    SplitFieldsOfJoined(ZeroPadded(d.day, 2), ZeroPadded(d.month, 2), ZeroPadded(d.year, 4));
    DayFieldOfPadded(d.day);
    MonthFieldOfPadded(d.month);
  }

  /** Parsing a date written as DD/MM/YY gives that date back when its year is 1969–2068. */
  lemma ParseFormattedShortDate(d: Date)
    requires ValidDate(d) && 1969 <= d.year <= 2068
    ensures ParseUkFormattedDate(FormatDayMonthShortYear(d)) == Some(d)
  {
    var yy := ZeroPadded(d.year % 100, 2);
    SplitFieldsOfJoined(ZeroPadded(d.day, 2), ZeroPadded(d.month, 2), yy);
    DayFieldOfPadded(d.day);
    MonthFieldOfPadded(d.month);
    assert YearField(yy, TwoDigitYear) == Some(d.year);
  }

  lemma ParseOfExampleFields(dd: string, mm: string, yy: string)
    requires dd == "27" && mm == "2" && (yy == "1997" || yy == "97")
    ensures ParseUkFormattedDate(dd + "/" + mm + "/" + yy) == Some(Date(1997, 2, 27))
  {
    SplitFieldsOfJoined(dd, mm, yy);
    TwoDigitsValue(dd);
    assert DayField(dd) == Some(27);
    assert MonthField(mm) == Some(2);
    if yy == "97" {
      TwoDigitsValue(yy);
      assert YearField(yy, TwoDigitYear) == Some(1997);
    } else {
      assert yy[..3] == "199" && "199"[..2] == "19" && "19"[..1] == "1" && "1"[..0] == [];
      assert DigitsValue("19") == 19;
      assert DigitsValue(yy) == 1997;
    }
  }

  /** The source's test of a four-digit year. */
  lemma ParseFourDigitYearExample()
    ensures ParseUkFormattedDate("27/2/1997") == Some(Date(1997, 2, 27))
  {
    assert "27/2/1997" == "27" + "/" + "2" + "/" + "1997";
    ParseOfExampleFields("27", "2", "1997");
  }

  /** The source's test of a two-digit year. */
  lemma ParseTwoDigitYearExample()
    ensures ParseUkFormattedDate("27/2/97") == Some(Date(1997, 2, 27))
  {
    assert "27/2/97" == "27" + "/" + "2" + "/" + "97";
    ParseOfExampleFields("27", "2", "97");
  }

  /** The source's test of an ISO-formatted date, which is refused. */
  lemma ParseIsoDateExample()
    ensures ParseUkFormattedDate("1997-2-27") == None
  {
    assert forall k :: 0 <= k < |"1997-2-27"| ==> "1997-2-27"[k] != '/';
    assert IndexOf("1997-2-27", '/') == 9;
  }
}
