/**
 * Parsing of the declarations file (logic/parsing/parse_declarations_csv.py):
 * the "0"/"1" flags, postcode cleaning and validation, single rows, the
 * header and the loop over the data rows. Rows arrive already split into
 * cells; reading the file is not modelled.
 */
module ParseDeclarationsCsv {
  import opened Wrappers
  import opened Text
  import opened Dates
  import opened RowErrors

  const FileName: string := "declarations.csv"

  // ---------------------------------------------------------------------
  // Flags

  /** `BooleanParsingError`, carrying the text that was refused. */
  datatype BooleanParsingError = BooleanParsingError(text: string)

  /** `_parse_boolean`: exactly "0" or "1". */
  function ParseBoolean(s: string): (r: Result<bool, BooleanParsingError>)
    ensures r.Success? <==> s == "0" || s == "1"
    ensures r == Success(true) <==> s == "1"
    ensures r.Failure? ==> r.error == BooleanParsingError(s)
  {
    if s == "0" then Success(false)
    else if s == "1" then Success(true)
    else Failure(BooleanParsingError(s))
  }

  /** How a flag is written in the file. */
  function FlagText(b: bool): string
  {
    if b then "1" else "0"
  }

  lemma ParseBooleanOfFlagText(b: bool)
    ensures ParseBoolean(FlagText(b)) == Success(b)
  {
  }

  // ---------------------------------------------------------------------
  // Postcodes

  predicate IsNotAsciiUpper(c: char) { !IsAsciiUpper(c) }

  predicate IsPostcodeChar(c: char) { IsAsciiUpper(c) || IsAsciiDigit(c) }

  /**
   * Upper-cased, with the non-letters at either end removed: the upper-cased
   * text from its first capital to its last, or nothing when it has none.
   */
  function PostcodeTrimmed(s: string): (t: string)
    ensures t == [] || (IsAsciiUpper(t[0]) && IsAsciiUpper(t[|t| - 1]))
  {
    var start := TrimStart(IsNotAsciiUpper, UpperAscii(s));
    TrimEndIsPrefix(IsNotAsciiUpper, start);
    TrimEnd(IsNotAsciiUpper, start)
  }

  /**
   * Trimming cuts only non-capitals off the upper-cased text, and its
   * result is the only such cut that starts and ends with a capital.
   */
  lemma PostcodeTrimmedCutsAtEnds(s: string)
    ensures CutAtEnds(IsNotAsciiUpper, UpperAscii(s), PostcodeTrimmed(s))
    ensures forall t :: CutAtEnds(IsNotAsciiUpper, UpperAscii(s), t) &&
                        (t == [] || (IsAsciiUpper(t[0]) && IsAsciiUpper(t[|t| - 1]))) ==>
      t == PostcodeTrimmed(s)
  {
    TrimBothCuts(IsNotAsciiUpper, UpperAscii(s));
    forall t | CutAtEnds(IsNotAsciiUpper, UpperAscii(s), t) &&
               (t == [] || (IsAsciiUpper(t[0]) && IsAsciiUpper(t[|t| - 1])))
      ensures t == PostcodeTrimmed(s)
    {
      CutAtEndsUnique(IsNotAsciiUpper, UpperAscii(s), t, PostcodeTrimmed(s));
    }
  }

  /**
   * The first three steps of `clean_postcode`: upper-case, strip non-letters
   * from both ends, drop whatever is not a letter or a digit.
   */
  function PostcodeCore(s: string): (c: string)
    ensures forall i :: 0 <= i < |c| ==> IsPostcodeChar(c[i])
    ensures c == [] || (IsAsciiUpper(c[0]) && IsAsciiUpper(c[|c| - 1]))
  {
    var t := PostcodeTrimmed(s);
    if t == [] then [] else FilterKeepsUpperEnds(t); Filter(IsPostcodeChar, t)
  }

  /**
   * The core is the trimmed text with everything but capitals and digits
   * dropped: it keeps every one of them, in order.
   */
  lemma PostcodeCoreOfTrimmed(s: string)
    ensures PostcodeCore(s) == Filter(IsPostcodeChar, PostcodeTrimmed(s))
    ensures forall c :: c in PostcodeTrimmed(s) && IsPostcodeChar(c) ==> c in PostcodeCore(s)
  {
    forall c | c in PostcodeTrimmed(s) && IsPostcodeChar(c) ensures c in PostcodeCore(s) {
      FilterHas(IsPostcodeChar, PostcodeTrimmed(s), c);
    }
  }

  /** Filtering keeps the first and last character of text that starts and ends with a capital. */
  lemma FilterKeepsUpperEnds(t: string)
    requires t != [] && IsAsciiUpper(t[0]) && IsAsciiUpper(t[|t| - 1])
    ensures var c := Filter(IsPostcodeChar, t);
      c != [] && IsAsciiUpper(c[0]) && IsAsciiUpper(c[|c| - 1])
  {
    var front := t[..|t| - 1];
    assert t == front + [t[|t| - 1]];
    FilterConcat(IsPostcodeChar, front, [t[|t| - 1]]);
    assert Filter(IsPostcodeChar, [t[|t| - 1]]) == [t[|t| - 1]];
    if front != [] {
      assert Filter(IsPostcodeChar, front)[0] == t[0];
    }
  }

  /** The last step of `clean_postcode`: a space before the last three characters of a longer code. */
  function InsertSpace(c: string): (r: string)
  {
    if |c| > 2 then c[..|c| - 3] + " " + c[|c| - 3..] else c
  }

  /**
   * `clean_postcode`. The result holds only A–Z and digits, apart from one
   * space four characters from the end when the code is longer than two
   * characters; the code is the input's letters and digits between its
   * first and last letter, upper-cased.
   */
  function CleanPostcode(s: string): (r: string)
    ensures var c := PostcodeCore(s);
      && (|c| > 2 ==> |r| == |c| + 1 && r[|r| - 4] == ' ' && r[..|r| - 4] + r[|r| - 3..] == c)
      && (|c| <= 2 ==> r == c)
    ensures forall i :: 0 <= i < |r| ==> IsPostcodeChar(r[i]) || (r[i] == ' ' && i == |r| - 4)
  {
    var c := PostcodeCore(s);
    var r := InsertSpace(c);
    assert |c| > 2 ==> r[..|r| - 4] == c[..|c| - 3] && r[|r| - 3..] == c[|c| - 3..];
    assert |c| > 2 ==> c == c[..|c| - 3] + c[|c| - 3..];
    r
  }

  lemma {:induction false} FilterOfSpaced(a: string, b: string)
    requires forall i :: 0 <= i < |a| ==> IsPostcodeChar(a[i])
    requires forall i :: 0 <= i < |b| ==> IsPostcodeChar(b[i])
    ensures Filter(IsPostcodeChar, a + " " + b) == a + b
  {
    FilterKeepsAll(IsPostcodeChar, a);
    FilterKeepsAll(IsPostcodeChar, b);
    FilterSkipsGap(a, " ", b);
  }

  lemma UpperOfCleaned(r: string)
    requires forall i :: 0 <= i < |r| ==> IsPostcodeChar(r[i]) || r[i] == ' '
    ensures UpperAscii(r) == r
  {
  }

  /** Trimming a cleaned postcode removes only the leading space of a three-character code. */
  lemma TrimmedOfCleaned(s: string)
    ensures var c := PostcodeCore(s);
      PostcodeTrimmed(CleanPostcode(s)) == if |c| == 3 then c else CleanPostcode(s)
  {
    var c := PostcodeCore(s);
    var r := CleanPostcode(s);
    UpperOfCleaned(r);
    var start := TrimStart(IsNotAsciiUpper, r);
    if |c| == 3 {
      assert r == " " + c;
      assert r[1..] == c && IsNotAsciiUpper(r[0]);
      assert TrimStart(IsNotAsciiUpper, c) == c;
      assert start == c;
    } else if |c| > 3 {
      assert r[0] == c[0];
      assert start == r;
    } else {
      assert start == r;
    }
    assert start == [] || IsAsciiUpper(start[|start| - 1]);
    assert TrimEnd(IsNotAsciiUpper, start) == start;
  }

  /** Cleaning a cleaned postcode changes nothing. */
  lemma CleanPostcodeIdempotent(s: string)
    ensures CleanPostcode(CleanPostcode(s)) == CleanPostcode(s)
  {
    var c := PostcodeCore(s);
    var r := CleanPostcode(s);
    TrimmedOfCleaned(s);
    if |c| > 3 {
      FilterOfInsertedSpace(c);
    } else {
      FilterKeepsAll(IsPostcodeChar, c);
    }
    assert PostcodeCore(r) == c;
  }

  /** Filtering a code with its space inserted gives back the code. */
  lemma FilterOfInsertedSpace(c: string)
    requires AllPostcodeChars(c) && |c| > 2
    ensures Filter(IsPostcodeChar, InsertSpace(c)) == c
  {
    var front, back := c[..|c| - 3], c[|c| - 3..];
    assert c == front + back;
    assert InsertSpace(c) == front + " " + back;
    FilterOfSpaced(front, back);
  }

  /** A code of letters and digits, such as `PostcodeParts` describes, split into its parts. */
  datatype PostcodeParts = PostcodeParts(
    area: string,         // [A-Z]{1,2}
    district: string,     // \d{1,2}
    subDistrict: string,  // [A-Z]?
    sector: char,         // \d
    unit: string)         // [A-Z]{2}

  predicate AllUpper(s: string)
  {
    forall i :: 0 <= i < |s| ==> IsAsciiUpper(s[i])
  }

  predicate WellFormedParts(p: PostcodeParts)
  {
    && 1 <= |p.area| <= 2 && AllUpper(p.area)
    && 1 <= |p.district| <= 2 && AllDigits(p.district)
    && |p.subDistrict| <= 1 && AllUpper(p.subDistrict)
    && IsAsciiDigit(p.sector)
    && |p.unit| == 2 && AllUpper(p.unit)
  }

  function Render(p: PostcodeParts): string
  {
    p.area + p.district + p.subDistrict + " " + [p.sector] + p.unit
  }

  /** The outward code `[A-Z]{1,2}\d{1,2}[A-Z]?`, read greedily. */
  predicate IsOutwardCode(o: string)
  {
    var area := TakeWhile(IsAsciiUpper, o);
    var rest := o[|area|..];
    var district := TakeWhile(IsAsciiDigit, rest);
    var tail := rest[|district|..];
    && 1 <= |area| <= 2
    && 1 <= |district| <= 2
    && |tail| <= 1 && AllUpper(tail)
  }

  /** The whole of `t` is an outward code, a space, a digit and two letters. */
  predicate MatchesPostcodePattern(t: string)
  {
    && |t| >= 4
    && t[|t| - 4] == ' ' && IsAsciiDigit(t[|t| - 3]) && IsAsciiUpper(t[|t| - 2]) && IsAsciiUpper(t[|t| - 1])
    && IsOutwardCode(t[..|t| - 4])
  }

  /**
   * `validate_postcode`: `re.match` of `^[A-Z]{1,2}\d{1,2}[A-Z]? \d[A-Z]{2}$`,
   * whose `$` also matches just before a final newline.
   */
  predicate ValidatePostcode(s: string)
  {
    || MatchesPostcodePattern(s)
    || (|s| > 0 && s[|s| - 1] == '\n' && MatchesPostcodePattern(s[..|s| - 1]))
  }

  lemma {:induction false} TakeWhileOfConcat(p: char -> bool, a: string, b: string)
    requires forall i :: 0 <= i < |a| ==> p(a[i])
    requires b == [] || !p(b[0])
    ensures TakeWhile(p, a + b) == a
  {
    if a != [] {
      assert (a + b)[1..] == a[1..] + b;
      TakeWhileOfConcat(p, a[1..], b);
    } else {
      assert a + b == b;
    }
  }

  lemma RenderMatches(p: PostcodeParts)
    requires WellFormedParts(p)
    ensures MatchesPostcodePattern(Render(p))
  {
    var t := Render(p);
    var o := p.area + p.district + p.subDistrict;
    assert t == o + " " + [p.sector] + p.unit;
    assert t[..|t| - 4] == o;
    assert o == p.area + (p.district + p.subDistrict);
    TakeWhileOfConcat(IsAsciiUpper, p.area, p.district + p.subDistrict);
    assert o[|p.area|..] == p.district + p.subDistrict;
    TakeWhileOfConcat(IsAsciiDigit, p.district, p.subDistrict);
    assert (p.district + p.subDistrict)[|p.district|..] == p.subDistrict;
  }

  /** An outward code splits into its area, its district and an optional letter. */
  lemma OutwardCodeParts(o: string) returns (area: string, district: string, tail: string)
    requires IsOutwardCode(o)
    ensures o == area + district + tail
    ensures 1 <= |area| <= 2 && AllUpper(area)
    ensures 1 <= |district| <= 2 && AllDigits(district)
    ensures |tail| <= 1 && AllUpper(tail)
  {
    area := TakeWhile(IsAsciiUpper, o);
    var rest := o[|area|..];
    district := TakeWhile(IsAsciiDigit, rest);
    tail := rest[|district|..];
    assert rest == district + tail;
    assert o == area + rest;
  }

  /** The last four characters of a matching code: a space, a digit and two letters. */
  lemma InwardCodeParts(t: string) returns (unit: string)
    requires MatchesPostcodePattern(t)
    ensures |unit| == 2 && AllUpper(unit)
    ensures t == t[..|t| - 4] + " " + [t[|t| - 3]] + unit
  {
    unit := t[|t| - 2..];
    assert unit[0] == t[|t| - 2] && unit[1] == t[|t| - 1];
  }

  lemma MatchesHasParts(t: string) returns (p: PostcodeParts)
    requires MatchesPostcodePattern(t)
    ensures WellFormedParts(p) && t == Render(p)
  {
    var area, district, tail := OutwardCodeParts(t[..|t| - 4]);
    var unit := InwardCodeParts(t);
    p := PostcodeParts(area, district, tail, t[|t| - 3], unit);
  }

  /** Whatever `validate_postcode` accepts is built from well-formed parts. */
  lemma ValidateHasParts(s: string) returns (p: PostcodeParts)
    requires ValidatePostcode(s)
    ensures WellFormedParts(p) && (s == Render(p) || s == Render(p) + "\n")
  {
    if MatchesPostcodePattern(s) {
      p := MatchesHasParts(s);
    } else {
      var t := s[..|s| - 1];
      p := MatchesHasParts(t);
      assert s == t + "\n";
    }
  }

  /** Every code built from well-formed parts is accepted, with or without a final newline. */
  lemma ValidateOfRendered(s: string, p: PostcodeParts)
    requires WellFormedParts(p) && (s == Render(p) || s == Render(p) + "\n")
    ensures ValidatePostcode(s)
  {
    RenderMatches(p);
    if s != Render(p) {
      assert s[..|s| - 1] == Render(p);
    }
  }

  /** `validate_postcode` accepts exactly the codes built from well-formed parts, with or without a final newline. */
  lemma ValidatePostcodeIffParts(s: string)
    ensures ValidatePostcode(s)
        <==> exists p :: WellFormedParts(p) && (s == Render(p) || s == Render(p) + "\n")
  {
    if ValidatePostcode(s) {
      var p := ValidateHasParts(s);
    }
    if exists p :: WellFormedParts(p) && (s == Render(p) || s == Render(p) + "\n") {
      var p :| WellFormedParts(p) && (s == Render(p) || s == Render(p) + "\n");
      ValidateOfRendered(s, p);
    }
  }

  /** A valid postcode is at least six characters long: "W3 6LJ" is the shortest shape. */
  lemma ValidPostcodeLength(s: string)
    requires ValidatePostcode(s)
    ensures |s| >= 6
  {
    ValidatePostcodeIffParts(s);
  }

  /** The source's examples of UK postcodes, each accepted. */
  lemma ValidatePostcodeExamples(s: string)
    requires s == "EC1N 8QX" || s == "SA18 3YF" || s == "W3 6LJ" || s == "B12 8QX"
    ensures ValidatePostcode(s)
  {
    if s == "EC1N 8QX" {
      PostcodeExampleEC1N(s);
    } else if s == "SA18 3YF" {
      PostcodeExampleSA18(s);
    } else if s == "W3 6LJ" {
      PostcodeExampleW3(s);
    } else {
      PostcodeExampleB12(s);
    }
  }

  lemma PostcodeExampleEC1N(s: string)
    requires s == "EC1N 8QX"
    ensures ValidatePostcode(s)
  {
    PostcodeExample(s, "EC", "1", "N", '8', "QX");
  }

  lemma PostcodeExampleSA18(s: string)
    requires s == "SA18 3YF"
    ensures ValidatePostcode(s)
  {
    PostcodeExample(s, "SA", "18", "", '3', "YF");
  }

  lemma PostcodeExampleW3(s: string)
    requires s == "W3 6LJ"
    ensures ValidatePostcode(s)
  {
    PostcodeExample(s, "W", "3", "", '6', "LJ");
  }

  lemma PostcodeExampleB12(s: string)
    requires s == "B12 8QX"
    ensures ValidatePostcode(s)
  {
    PostcodeExample(s, "B", "12", "", '8', "QX");
  }

  lemma PostcodeExample(s: string, area: string, district: string, subDistrict: string, sector: char, unit: string)
    requires WellFormedParts(PostcodeParts(area, district, subDistrict, sector, unit))
    requires s == area + district + subDistrict + " " + [sector] + unit
    ensures ValidatePostcode(s)
  {
    ValidateOfRendered(s, PostcodeParts(area, district, subDistrict, sector, unit));
  }

  /**
   * A one-letter "international" postcode is refused: the pattern needs at
   * least six characters. The source's own test expects it to pass.
   */
  lemma ValidatePostcodeRefusesSingleLetter()
    ensures !ValidatePostcode("X")
  {
  }

  lemma CleanPostcodeOfLetter(s: string)
    requires s == "x"
    ensures CleanPostcode(s) == "X"
  {
    assert UpperAscii(s) == "X";
    assert PostcodeTrimmed(s) == "X";
    assert Filter(IsPostcodeChar, "X") == "X";
  }

  lemma {:induction false} TrimStartPast(p: char -> bool, a: string, b: string)
    requires forall i :: 0 <= i < |a| ==> p(a[i])
    requires b != [] && !p(b[0])
    ensures TrimStart(p, a + b) == b
  {
    if a == [] {
      assert a + b == b;
    } else {
      assert (a + b)[1..] == a[1..] + b;
      TrimStartPast(p, a[1..], b);
    }
  }

  lemma {:induction false} TrimEndPast(p: char -> bool, a: string, b: string)
    requires a != [] && !p(a[|a| - 1])
    requires forall i :: 0 <= i < |b| ==> p(b[i])
    ensures TrimEnd(p, a + b) == a
  {
    if b == [] {
      assert a + b == a;
    } else {
      assert (a + b)[..|a + b| - 1] == a + b[..|b| - 1];
      TrimEndPast(p, a, b[..|b| - 1]);
    }
  }

  lemma UpperOfGunk(s: string, upper: string)
    requires s == "123ec1'?n8Q  \tx()" && upper == "123EC1'?N8Q  \tX()"
    ensures UpperAscii(s) == upper
  {
  }

  lemma GunkAroundInner(upper: string, inner: string)
    requires upper == "123EC1'?N8Q  \tX()" && inner == "EC1'?N8Q  \tX"
    ensures upper == "123" + (inner + "()")
  {
  }

  lemma TrimmedOfGunk(s: string, upper: string, inner: string)
    requires s == "123ec1'?n8Q  \tx()"
    requires upper == "123EC1'?N8Q  \tX()" && inner == "EC1'?N8Q  \tX"
    ensures PostcodeTrimmed(s) == inner
  {
    UpperOfGunk(s, upper);
    GunkAroundInner(upper, inner);
    TrimStartPast(IsNotAsciiUpper, "123", inner + "()");
    TrimEndPast(IsNotAsciiUpper, inner, "()");
  }

  lemma {:induction false} FilterDropsAll(s: string)
    requires forall i :: 0 <= i < |s| ==> !IsPostcodeChar(s[i])
    ensures Filter(IsPostcodeChar, s) == []
  {
    if s != [] {
      FilterDropsAll(s[1..]);
    }
  }

  predicate AllPostcodeChars(s: string)
  {
    forall i :: 0 <= i < |s| ==> IsPostcodeChar(s[i])
  }

  predicate NoPostcodeChars(s: string)
  {
    forall i :: 0 <= i < |s| ==> !IsPostcodeChar(s[i])
  }

  lemma FilterSkipsGap(a: string, g: string, b: string)
    requires NoPostcodeChars(g)
    ensures Filter(IsPostcodeChar, a + g + b) == Filter(IsPostcodeChar, a) + Filter(IsPostcodeChar, b)
  {
    var ag := a + g;
    FilterConcat(IsPostcodeChar, ag, b);
    FilterConcat(IsPostcodeChar, a, g);
    FilterDropsAll(g);
    assert Filter(IsPostcodeChar, ag) == Filter(IsPostcodeChar, a);
  }

  lemma FilterOfInterrupted(a: string, g1: string, b: string, g2: string, x: string)
    requires AllPostcodeChars(a) && AllPostcodeChars(b) && AllPostcodeChars(x)
    requires NoPostcodeChars(g1) && NoPostcodeChars(g2)
    ensures Filter(IsPostcodeChar, a + g1 + b + g2 + x) == a + b + x
  {
    FilterSkipsGap(a + g1 + b, g2, x);
    FilterSkipsGap(a, g1, b);
    FilterKeepsAll(IsPostcodeChar, a);
    FilterKeepsAll(IsPostcodeChar, b);
    FilterKeepsAll(IsPostcodeChar, x);
  }

  lemma FilterOfGunk(a: string, g1: string, b: string, g2: string, x: string)
    requires a == "EC1" && g1 == "'?" && b == "N8Q" && g2 == "  \t" && x == "X"
    ensures Filter(IsPostcodeChar, a + g1 + b + g2 + x) == a + b + x
  {
    assert AllPostcodeChars(a) && AllPostcodeChars(b) && AllPostcodeChars(x);
    assert NoPostcodeChars(g1) && NoPostcodeChars(g2);
    FilterOfInterrupted(a, g1, b, g2, x);
  }

  lemma CleanPostcodeOfGunk(s: string, upper: string, inner: string)
    requires s == "123ec1'?n8Q  \tx()"
    requires upper == "123EC1'?N8Q  \tX()" && inner == "EC1'?N8Q  \tX"
    ensures CleanPostcode(s) == "EC1N 8QX"
  {
    TrimmedOfGunk(s, upper, inner);
    InnerOfGunk(inner, "EC1N8QX");
    assert PostcodeCore(s) == "EC1N8QX";
    InsertSpaceOfGunk("EC1N8QX", "EC1N 8QX");
  }

  lemma InnerOfGunk(inner: string, core: string)
    requires inner == "EC1'?N8Q  \tX" && core == "EC1N8QX"
    ensures Filter(IsPostcodeChar, inner) == core
  {
    InnerPieces(inner, core, "EC1", "'?", "N8Q", "  \t", "X");
  }

  lemma InnerPieces(inner: string, core: string, a: string, g1: string, b: string, g2: string, x: string)
    requires inner == "EC1'?N8Q  \tX" && core == "EC1N8QX"
    requires a == "EC1" && g1 == "'?" && b == "N8Q" && g2 == "  \t" && x == "X"
    ensures Filter(IsPostcodeChar, inner) == core
  {
    InnerIsPieces(inner, a, g1, b, g2, x);
    CoreIsPieces(core, a, b, x);
    FilterOfGunk(a, g1, b, g2, x);
  }

  lemma InnerIsPieces(inner: string, a: string, g1: string, b: string, g2: string, x: string)
    requires inner == "EC1'?N8Q  \tX"
    requires a == "EC1" && g1 == "'?" && b == "N8Q" && g2 == "  \t" && x == "X"
    ensures inner == a + g1 + b + g2 + x
  {
  }

  lemma CoreIsPieces(core: string, a: string, b: string, x: string)
    requires core == "EC1N8QX" && a == "EC1" && b == "N8Q" && x == "X"
    ensures core == a + b + x
  {
  }

  lemma InsertSpaceOfGunk(core: string, spaced: string)
    requires core == "EC1N8QX" && spaced == "EC1N 8QX"
    ensures InsertSpace(core) == spaced
  {
  }

  /** The source's example of cleaning a postcode surrounded and interrupted by other characters. */
  lemma CleanPostcodeGunkExample()
    ensures CleanPostcode("123ec1'?n8Q  \tx()") == "EC1N 8QX"
  {
    CleanPostcodeOfGunk("123ec1'?n8Q  \tx()", "123EC1'?N8Q  \tX()", "EC1'?N8Q  \tX");
  }

  /** The source's example of cleaning a single letter. */
  lemma CleanPostcodeSingleLetterExample()
    ensures CleanPostcode("x") == "X"
  {
    CleanPostcodeOfLetter("x");
  }

  // ---------------------------------------------------------------------
  // Rows

  /** `DeclarationRow`. */
  datatype DeclarationRow = DeclarationRow(
    title: string,
    firstName: string,
    lastName: string,
    houseNumberOrName: string,
    postcode: string,
    declarationDate: Date,
    validFourYearsBeforeDeclaration: bool,
    validDayOfDeclaration: bool,
    validAfterDayOfDeclaration: bool,
    identifier: string)

  /** What every parsed declaration satisfies. */
  predicate ValidDeclarationRow(d: DeclarationRow)
  {
    && d.firstName != [] && d.lastName != [] && d.houseNumberOrName != []
    && ValidatePostcode(d.postcode)
    && ValidDate(d.declarationDate)
    && d.identifier != []
  }

  /** The error of a rule that `row` breaks, or nothing when it keeps the rule. */
  function Rule(broken: bool, column: nat, reason: Reason): seq<RowParsingError>
  {
    if broken then [Raise(Some(column), reason)] else []
  }

  /**
   * Every rule a ten-item row breaks, in column order: the reference for
   * the errors `from_row` reports. The postcode and the flags are only
   * judged once the cells before them have been read, as in the source.
   */
  function Violations(row: seq<string>): seq<RowParsingError>
    requires |row| == 10
  {
    var postcode := CleanPostcode(row[4]);
    Rule(Strip(row[1]) == [], 2, NoFirstName)
    + Rule(Strip(row[2]) == [], 3, NoLastName)
    + Rule(Strip(row[3]) == [], 4, NoHouse)
    + Rule(postcode == [], 5, NoPostcode)
    + Rule(postcode != [] && !ValidatePostcode(postcode), 5, InvalidPostcode(row[4]))
    + Rule(ParseUkFormattedDate(Strip(row[5])).None?, 6, UnparsableDate(row[5]))
    + Rule(ParseBoolean(Strip(row[6])).Failure?, 7, UnparsableFlag(FourYearsBefore, row[6]))
    + Rule(ParseBoolean(Strip(row[7])).Failure?, 8, UnparsableFlag(DayOfDeclaration, row[7]))
    + Rule(ParseBoolean(Strip(row[8])).Failure?, 9, UnparsableFlag(AfterDayOfDeclaration, row[8]))
    + Rule(Strip(row[9]) == [], 10, NoIdentifier)
  }

  /**
   * `DeclarationRow.from_row`: ten items; the text fields are stripped, the
   * postcode cleaned, then the rules are checked in a fixed order and the
   * first that fails decides the error. `Violations` lists the same rules.
   */
  function FromRow(row: seq<string>): (r: Result<DeclarationRow, RowParsingError>)
    ensures r.Failure? ==> r.error.notes == []
    ensures |row| != 10 <==> r.Failure? && r.error.column.None?
    ensures |row| != 10 ==> r.error.reason == DeclarationItemCount(|row|)
    ensures |row| == 10 ==> (r.Success? <==> Violations(row) == [])
    ensures |row| == 10 && r.Failure? ==> r.error == Violations(row)[0]
    ensures r.Success? ==> |row| == 10 && ValidDeclarationRow(r.value)
    ensures r.Success? ==>
      && r.value.title == Strip(row[0])
      && r.value.firstName == Strip(row[1])
      && r.value.lastName == Strip(row[2])
      && r.value.houseNumberOrName == Strip(row[3])
      && r.value.postcode == CleanPostcode(row[4])
      && Some(r.value.declarationDate) == ParseUkFormattedDate(Strip(row[5]))
      && Strip(row[6]) == FlagText(r.value.validFourYearsBeforeDeclaration)
      && Strip(row[7]) == FlagText(r.value.validDayOfDeclaration)
      && Strip(row[8]) == FlagText(r.value.validAfterDayOfDeclaration)
      && r.value.identifier == Strip(row[9])
  {
    if |row| != 10 then Failure(Raise(None, DeclarationItemCount(|row|)))
    else
      var title := Strip(row[0]);
      var firstName := Strip(row[1]);
      var lastName := Strip(row[2]);
      var houseNumberOrName := Strip(row[3]);
      var postcode := CleanPostcode(row[4]);
      if firstName == [] then Failure(Raise(Some(2), NoFirstName))
      else if lastName == [] then Failure(Raise(Some(3), NoLastName))
      else if houseNumberOrName == [] then Failure(Raise(Some(4), NoHouse))
      else if postcode == [] then Failure(Raise(Some(5), NoPostcode))
      else if !ValidatePostcode(postcode) then Failure(Raise(Some(5), InvalidPostcode(row[4])))
      else match ParseUkFormattedDate(Strip(row[5]))
      case None => Failure(Raise(Some(6), UnparsableDate(row[5])))
      case Some(declarationDate) =>
        var fourYears := ParseBoolean(Strip(row[6]));
        var dayOf := ParseBoolean(Strip(row[7]));
        var after := ParseBoolean(Strip(row[8]));
        var identifier := Strip(row[9]);
        if fourYears.Failure? then Failure(Raise(Some(7), UnparsableFlag(FourYearsBefore, row[6])))
        else if dayOf.Failure? then Failure(Raise(Some(8), UnparsableFlag(DayOfDeclaration, row[7])))
        else if after.Failure? then Failure(Raise(Some(9), UnparsableFlag(AfterDayOfDeclaration, row[8])))
        else if identifier == [] then Failure(Raise(Some(10), NoIdentifier))
        else Success(DeclarationRow(
          title, firstName, lastName, houseNumberOrName, postcode,
          declarationDate, fourYears.value, dayOf.value, after.value, identifier))
  }

  /** A row with no first name is refused at column 2, and one with a first name but no last name at column 3. */
  lemma MissingNamesReported(row: seq<string>, rowIndex: int)
    requires |row| == 10
    ensures Strip(row[1]) == [] ==>
      ParseFileRow(row, rowIndex) == Failure(RowParsingError(Some(2), NoFirstName, [RowNote(rowIndex, Some(2), FileName)]))
    ensures Strip(row[1]) != [] && Strip(row[2]) == [] ==>
      ParseFileRow(row, rowIndex) == Failure(RowParsingError(Some(3), NoLastName, [RowNote(rowIndex, Some(3), FileName)]))
  {
    if Strip(row[1]) == [] || Strip(row[2]) == [] {
      assert Violations(row) != [];
    }
  }

  /** The title is read but never checked: changing it never changes whether a row parses. */
  lemma TitleIsNeverChecked(row: seq<string>, title: string)
    requires |row| == 10
    ensures FromRow(row[0 := title]).Success? <==> FromRow(row).Success?
    ensures FromRow(row[0 := title]).Failure? ==> FromRow(row[0 := title]).error == FromRow(row).error
  {
    var other := row[0 := title];
    assert other[1..] == row[1..];
    ViolationsIgnoreFirstCell(other, row);
  }

  lemma ViolationsIgnoreFirstCell(a: seq<string>, b: seq<string>)
    requires |a| == 10 && |b| == 10 && a[1..] == b[1..]
    ensures Violations(a) == Violations(b)
  {
    assert a[1] == b[1] && a[2] == b[2] && a[3] == b[3] && a[4] == b[4] && a[5] == b[5]
      by { assert a[1..][0] == a[1] && a[1..][1] == a[2] && a[1..][2] == a[3] && a[1..][3] == a[4] && a[1..][4] == a[5]; }
    assert a[6] == b[6] && a[7] == b[7] && a[8] == b[8] && a[9] == b[9]
      by { assert a[1..][5] == a[6] && a[1..][6] == a[7] && a[1..][7] == a[8] && a[1..][8] == a[9]; }
  }

  // ---------------------------------------------------------------------
  // Writing a declaration back as a row

  /** Text that `Strip` leaves as it is. */
  predicate IsStripped(s: string)
  {
    s == [] || (!IsSpace(s[0]) && !IsSpace(s[|s| - 1]))
  }

  /** A declaration as a file would hold it after cleaning: text already stripped, postcode already clean. */
  predicate IsNormalised(d: DeclarationRow)
  {
    && ValidDeclarationRow(d)
    && IsStripped(d.title) && IsStripped(d.firstName) && IsStripped(d.lastName)
    && IsStripped(d.houseNumberOrName) && IsStripped(d.identifier)
    && MatchesPostcodePattern(d.postcode)
  }

  /** The ten cells of a declaration, with the date as DD/MM/YYYY and the flags as "0"/"1". */
  function ToCells(d: DeclarationRow): (row: seq<string>)
    requires ValidDate(d.declarationDate)
    ensures |row| == 10
  {
    [d.title, d.firstName, d.lastName, d.houseNumberOrName, d.postcode,
     FormatDayMonthYear(d.declarationDate),
     FlagText(d.validFourYearsBeforeDeclaration),
     FlagText(d.validDayOfDeclaration),
     FlagText(d.validAfterDayOfDeclaration),
     d.identifier]
  }

  lemma {:induction false} TrimStartOfLeading(p: char -> bool, s: string)
    requires s != [] && !p(s[0])
    ensures TrimStart(p, s) == s
  {
  }

  lemma {:induction false} TrimEndOfTrailing(p: char -> bool, s: string)
    requires s != [] && !p(s[|s| - 1])
    ensures TrimEnd(p, s) == s
  {
  }

  /** A matching code is an outward code, a space and a three-character inward code, and starts and ends with a letter. */
  lemma MatchingHalves(t: string) returns (o: string, inward: string)
    requires MatchesPostcodePattern(t)
    ensures t == o + " " + inward && |inward| == 3
    ensures AllPostcodeChars(o) && AllPostcodeChars(inward)
    ensures IsAsciiUpper(t[0]) && IsAsciiUpper(t[|t| - 1])
  {
    var area, district, tail := OutwardCodeParts(t[..|t| - 4]);
    o := t[..|t| - 4];
    inward := t[|t| - 3..];
    assert o[0] == area[0];
    assert inward == [t[|t| - 3], t[|t| - 2], t[|t| - 1]];
    assert t == o + " " + inward;
  }

  /** Upper-casing and trimming leave text alone that already starts and ends with a capital and has no lower case. */
  lemma PostcodeTrimmedOfCapitals(t: string)
    requires forall i :: 0 <= i < |t| ==> IsPostcodeChar(t[i]) || t[i] == ' '
    requires t != [] && IsAsciiUpper(t[0]) && IsAsciiUpper(t[|t| - 1])
    ensures PostcodeTrimmed(t) == t
  {
    UpperOfCleaned(t);
    TrimStartOfLeading(IsNotAsciiUpper, t);
    TrimEndOfTrailing(IsNotAsciiUpper, t);
  }

  /** A well-formed postcode is its own cleaned form. */
  lemma CleanPostcodeOfValid(t: string)
    requires MatchesPostcodePattern(t)
    ensures CleanPostcode(t) == t
  {
    var o, inward := MatchingHalves(t);
    PostcodeTrimmedOfCapitals(t);
    FilterOfSpaced(o, inward);
    var c := o + inward;
    assert PostcodeCore(t) == c;
    assert c[..|c| - 3] == o && c[|c| - 3..] == inward;
  }

  lemma StripOfStripped(s: string)
    requires IsStripped(s)
    ensures Strip(s) == s
  {
    StripKeepsTrimmed(s);
  }

  lemma FlagTextInjective(a: bool, b: bool)
    requires FlagText(a) == FlagText(b)
    ensures a == b
  {
  }

  lemma FlagTextIsStripped(b: bool)
    ensures IsStripped(FlagText(b)) && Strip(FlagText(b)) == FlagText(b)
  {
    StripKeepsTrimmed(FlagText(b));
  }

  lemma DateTextIsStripped(d: Date)
    requires ValidDate(d)
    ensures Strip(FormatDayMonthYear(d)) == FormatDayMonthYear(d)
  {
    var s := FormatDayMonthYear(d);
    var dd := ZeroPadded(d.day, 2);
    var yyyy := ZeroPadded(d.year, 4);
    assert s[0] == dd[0] && s[9] == yyyy[3];
    assert IsAsciiDigit(s[0]) && IsAsciiDigit(s[9]);
    StripKeepsTrimmed(s);
  }

  lemma TextCellsReadBack(d: DeclarationRow)
    requires IsStripped(d.title) && IsStripped(d.firstName) && IsStripped(d.lastName)
    requires IsStripped(d.houseNumberOrName) && IsStripped(d.identifier)
    ensures Strip(d.title) == d.title && Strip(d.firstName) == d.firstName && Strip(d.lastName) == d.lastName
    ensures Strip(d.houseNumberOrName) == d.houseNumberOrName && Strip(d.identifier) == d.identifier
  {
    StripOfStripped(d.title);
    StripOfStripped(d.firstName);
    StripOfStripped(d.lastName);
    StripOfStripped(d.houseNumberOrName);
    StripOfStripped(d.identifier);
  }

  lemma CodedCellsReadBack(d: DeclarationRow)
    requires ValidDate(d.declarationDate)
    ensures ParseUkFormattedDate(Strip(FormatDayMonthYear(d.declarationDate))) == Some(d.declarationDate)
    ensures ParseBoolean(Strip(FlagText(d.validFourYearsBeforeDeclaration))) == Success(d.validFourYearsBeforeDeclaration)
    ensures ParseBoolean(Strip(FlagText(d.validDayOfDeclaration))) == Success(d.validDayOfDeclaration)
    ensures ParseBoolean(Strip(FlagText(d.validAfterDayOfDeclaration))) == Success(d.validAfterDayOfDeclaration)
  {
    DateTextIsStripped(d.declarationDate);
    ParseFormattedDate(d.declarationDate);
    FlagTextIsStripped(d.validFourYearsBeforeDeclaration);
    FlagTextIsStripped(d.validDayOfDeclaration);
    FlagTextIsStripped(d.validAfterDayOfDeclaration);
    ParseBooleanOfFlagText(d.validFourYearsBeforeDeclaration);
    ParseBooleanOfFlagText(d.validDayOfDeclaration);
    ParseBooleanOfFlagText(d.validAfterDayOfDeclaration);
  }

  /** The cells of a normalised declaration break none of the rules. */
  lemma CellsKeepRules(d: DeclarationRow)
    requires IsNormalised(d)
    ensures Violations(ToCells(d)) == []
  {
    TextCellsReadBack(d);
    CodedCellsReadBack(d);
    CleanPostcodeOfValid(d.postcode);
  }

  /** Reading back the cells of a normalised declaration gives that declaration. */
  lemma FromRowOfCells(d: DeclarationRow)
    requires IsNormalised(d)
    ensures FromRow(ToCells(d)) == Success(d)
  {
    var row := ToCells(d);
    CellsKeepRules(d);
    var r := FromRow(row).value;
    TextCellsReadBack(d);
    CodedCellsReadBack(d);
    CleanPostcodeOfValid(d.postcode);
    FlagTextInjective(r.validFourYearsBeforeDeclaration, d.validFourYearsBeforeDeclaration);
    FlagTextInjective(r.validDayOfDeclaration, d.validDayOfDeclaration);
    FlagTextInjective(r.validAfterDayOfDeclaration, d.validAfterDayOfDeclaration);
  }

  // ---------------------------------------------------------------------
  // The header and the file loop

  datatype FileError = UnexpectedHeaders(headers: seq<string>)

  /** The template's header row, in its own capitalisation. */
  const ExpectedHeaders: seq<string> := [
    "Title",
    "First Name",
    "Last Name",
    "House Number or Name",
    "Postcode",
    "Date",
    "Valid Four Years Before Day of Declaration",
    "Valid Day of Declaration",
    "Valid After Day of Declaration",
    "Identifier"
  ]

  /** `_check_header_row`: ten cells equal to the template's, ignoring case and surrounding whitespace. */
  function CheckHeaderRow(headers: seq<string>): (r: Outcome<FileError>)
    ensures r.Pass? <==>
      |headers| == 10 && forall i :: 0 <= i < 10 ==> StripLower(headers[i]) == LowerAscii(ExpectedHeaders[i])
    ensures r.Fail? ==> r.error == UnexpectedHeaders(headers)
  {
    if |headers| == 10 && forall i :: 0 <= i < 10 ==> StripLower(headers[i]) == LowerAscii(ExpectedHeaders[i])
    then Pass
    else Fail(UnexpectedHeaders(headers))
  }

  lemma ExpectedHeadersAreStripped()
    ensures forall i :: 0 <= i < 10 ==> IsStripped(ExpectedHeaders[i])
  {
  }

  /** A header row passes when each cell is the template's, stripped, in any mix of upper and lower case. */
  lemma CheckHeaderRowIgnoresCase(headers: seq<string>)
    requires |headers| == 10
    requires forall i :: 0 <= i < 10 ==>
      IsStripped(headers[i]) && LowerAscii(headers[i]) == LowerAscii(ExpectedHeaders[i])
    ensures CheckHeaderRow(headers) == Pass
  {
    forall i | 0 <= i < 10
      ensures StripLower(headers[i]) == LowerAscii(ExpectedHeaders[i])
    {
      StripOfStripped(headers[i]);
    }
  }

  /** The template's header row passes the check, as written and in capitals. */
  lemma CheckHeaderRowOfTemplate()
    ensures CheckHeaderRow(ExpectedHeaders) == Pass
    ensures CheckHeaderRow(seq(10, i requires 0 <= i < 10 => UpperAscii(ExpectedHeaders[i]))) == Pass
  {
    ExpectedHeadersAreStripped();
    CheckHeaderRowIgnoresCase(ExpectedHeaders);
    var upper := seq(10, i requires 0 <= i < 10 => UpperAscii(ExpectedHeaders[i]));
    forall i | 0 <= i < 10
      ensures IsStripped(upper[i]) && LowerAscii(upper[i]) == LowerAscii(ExpectedHeaders[i])
    {
      LowerOfUpper(ExpectedHeaders[i]);
    }
    CheckHeaderRowIgnoresCase(upper);
  }

  /**
   * One data row as the file loop treats it: a row of the wrong length is
   * refused with its own error and no note; otherwise `from_row`'s error
   * leaves with a note naming the row, its column and the file.
   */
  function ParseFileRow(row: seq<string>, rowIndex: int): (r: Result<DeclarationRow, RowParsingError>)
    ensures r.Success? <==> FromRow(row).Success?
    ensures r.Success? ==> r == FromRow(row)
    ensures r.Failure? && |row| != 10 ==>
      r.error == RowParsingError(None, RowLength(rowIndex, FileName, row), [])
    ensures r.Failure? && |row| == 10 ==>
      && r.error.column.Some?
      && r.error.reason == FromRow(row).error.reason
      && r.error.notes == [RowNote(rowIndex, r.error.column, FileName)]
  {
    if |row| != 10 then Failure(Raise(None, RowLength(rowIndex, FileName, row)))
    else match FromRow(row)
      case Failure(e) => Failure(e.AddNote(RowNote(rowIndex, e.column, FileName)))
      case Success(d) => Success(d)
  }

  /**
   * The row loop of `parse_declarations_file`, over the rows after the
   * header (numbered from 2): every row is parsed in order, and the first
   * row that fails ends the loop with its error.
   */
  method ParseDeclarationRows(rows: seq<seq<string>>) returns (r: Result<seq<DeclarationRow>, RowParsingError>)
    ensures r.Success? ==>
      && |r.value| == |rows|
      && forall k :: 0 <= k < |rows| ==> ParseFileRow(rows[k], k + 2) == Success(r.value[k])
    ensures r.Failure? ==>
      exists k :: 0 <= k < |rows|
        && (forall j :: 0 <= j < k ==> ParseFileRow(rows[j], j + 2).Success?)
        && ParseFileRow(rows[k], k + 2) == Failure(r.error)
  {
    var declarations: seq<DeclarationRow> := [];
    var i := 0;
    while i < |rows|
      invariant 0 <= i <= |rows|
      invariant |declarations| == i
      invariant ParsedPrefix(ParseFileRow, rows, declarations)
    {
      var parsed := ParseFileRow(rows[i], i + 2);
      if parsed.Failure? {
        FailedAfterPrefix(ParseFileRow, rows, declarations, parsed.error);
        return Failure(parsed.error);
      }
      ExtendParsedPrefix(ParseFileRow, rows, declarations, parsed.value);
      declarations := declarations + [parsed.value];
      i := i + 1;
    }
    r := Success(declarations);
  }

  /** Every declaration the loop returns satisfies the row invariant. */
  lemma ParsedDeclarationsAreValid(rows: seq<seq<string>>, declarations: seq<DeclarationRow>)
    requires |declarations| == |rows|
    requires forall k :: 0 <= k < |rows| ==> ParseFileRow(rows[k], k + 2) == Success(declarations[k])
    ensures forall k :: 0 <= k < |rows| ==> |rows[k]| == 10 && ValidDeclarationRow(declarations[k])
  {
    forall k | 0 <= k < |rows|
      ensures |rows[k]| == 10 && ValidDeclarationRow(declarations[k])
    {
      assert FromRow(rows[k]) == Success(declarations[k]);
    }
  }
}
