/**
 * The command line (arguments.py): the first argument of the form
 * `--output=<word>` chooses the kind of spreadsheet to produce.
 */
module Arguments {
  import opened Wrappers
  import opened Text

  /** `SpreadsheetType`. */
  datatype SpreadsheetType = Excel | Libre

  /** The two exceptions the parser raises. */
  datatype ArgumentError =
    | NoSpreadsheetTypeProvided
    | UnexpectedSpreadsheetType(passedValue: string)

  /** The value each spreadsheet type is named by. */
  function TypeName(t: SpreadsheetType): string
  {
    match t
    case Excel => "excel"
    case Libre => "libre"
  }

  /** `_parse_spreadsheet_type`: exactly "excel" or "libre"; anything else is refused and reported. */
  function ParseSpreadsheetType(value: string): (r: Result<SpreadsheetType, ArgumentError>)
    ensures r.Success? <==> value == "excel" || value == "libre"
    ensures r.Success? ==> TypeName(r.value) == value
    ensures r.Failure? ==> r.error == UnexpectedSpreadsheetType(value)
  {
    if value == "excel" then Success(Excel)
    else if value == "libre" then Success(Libre)
    else Failure(UnexpectedSpreadsheetType(value))
  }

  /** Each type's name parses back to it. */
  lemma ParseTypeName(t: SpreadsheetType)
    ensures ParseSpreadsheetType(TypeName(t)) == Success(t)
  {
  }

  predicate AllWordChars(s: string)
  {
    forall i :: 0 <= i < |s| ==> IsWordChar(s[i])
  }

  /**
   * `_spreadsheet_type_argument_regex.match(argument)`: `--output=`
   * followed by at least one word character, at the start of the argument;
   * the value captured is the longest run of word characters there, and
   * whatever follows it is ignored.
   */
  function OutputValue(argument: string): (r: Option<string>)
    ensures r.Some? <==>
      |argument| > |"--output="| && argument[..|"--output="|] == "--output=" && IsWordChar(argument[|"--output="|])
    ensures r.Some? ==>
      var value := r.value;
      && |value| > 0 && AllWordChars(value)
      && |"--output="| + |value| <= |argument|
      && argument[..|"--output="| + |value|] == "--output=" + value
      && (|"--output="| + |value| < |argument| ==> !IsWordChar(argument[|"--output="| + |value|]))
  {
    var prefix := "--output=";
    if |argument| < |prefix| || argument[..|prefix|] != prefix then None
    else
      var value := TakeWhile(IsWordChar, argument[|prefix|..]);
      if value == [] then None
      else
        assert argument[..|prefix| + |value|] == prefix + value by {
          assert argument[|prefix|..][..|value|] == value;
        }
        Some(value)
  }

  /** A word after `--output=`, with anything that is not a word character after it, is captured whole. */
  lemma {:induction false} OutputValueOf(value: string, rest: string)
    requires |value| > 0 && AllWordChars(value)
    requires rest == [] || !IsWordChar(rest[0])
    ensures OutputValue("--output=" + value + rest) == Some(value)
  {
    var argument := "--output=" + value + rest;
    assert argument[..|"--output="|] == "--output=";
    assert argument[|"--output="|..] == value + rest;
    TakeWhileOfWord(value, rest);
  }

  lemma {:induction false} TakeWhileOfWord(value: string, rest: string)
    requires AllWordChars(value)
    requires rest == [] || !IsWordChar(rest[0])
    ensures TakeWhile(IsWordChar, value + rest) == value
  {
    if value == [] {
      assert value + rest == rest;
    } else {
      assert (value + rest)[1..] == value[1..] + rest;
      TakeWhileOfWord(value[1..], rest);
    }
  }

  /**
   * `parse_arguments`: the first argument that matches decides, and
   * later arguments are not looked at; with no match at all the
   * spreadsheet type is reported as missing.
   */
  function ParseArguments(arguments: seq<string>): (r: Result<SpreadsheetType, ArgumentError>)
    ensures r == Failure(NoSpreadsheetTypeProvided) <==> forall k :: 0 <= k < |arguments| ==> OutputValue(arguments[k]).None?
    ensures r.Success? ==> exists k :: 0 <= k < |arguments| && OutputValue(arguments[k]) == Some(TypeName(r.value))
  {
    if arguments == [] then Failure(NoSpreadsheetTypeProvided)
    else match OutputValue(arguments[0])
      case Some(value) =>
        var r := ParseSpreadsheetType(value);
        assert r.Success? ==> OutputValue(arguments[0]) == Some(TypeName(r.value));
        r
      case None =>
        var r := ParseArguments(arguments[1..]);
        assert forall k :: 1 <= k < |arguments| ==> arguments[k] == arguments[1..][k - 1];
        if r.Success? then
          var k :| 0 <= k < |arguments[1..]| && OutputValue(arguments[1..][k]) == Some(TypeName(r.value));
          assert OutputValue(arguments[k + 1]) == Some(TypeName(r.value));
          r
        else r
  }

  /** The first matching argument decides: what comes before it does not match, and what comes after is ignored. */
  lemma {:induction false} FirstMatchDecides(before: seq<string>, argument: string, after: seq<string>)
    requires forall k :: 0 <= k < |before| ==> OutputValue(before[k]).None?
    requires OutputValue(argument).Some?
    ensures ParseArguments(before + [argument] + after) == ParseSpreadsheetType(OutputValue(argument).value)
  {
    if before == [] {
      assert before + [argument] + after == [argument] + after;
    } else {
      assert (before + [argument] + after)[1..] == before[1..] + [argument] + after;
      FirstMatchDecides(before[1..], argument, after);
    }
  }

  /** A single argument `--output=<word>` is decided by the word alone. */
  lemma SingleOutputArgument(value: string)
    requires |value| > 0 && AllWordChars(value)
    ensures ParseArguments(["--output=" + value]) == ParseSpreadsheetType(value)
  {
    assert "--output=" + value == "--output=" + value + [];
    OutputValueOf(value, []);
    FirstMatchDecides([], "--output=" + value, []);
  }

  /**
   * The source's tests: `--output=excel` and `--output=libre` give their
   * types, `--output=foo` is refused with "foo" as the value passed, and
   * no arguments at all mean no type was given.
   */
  lemma ParseArgumentsExamples(value: string)
    requires value == "excel" || value == "libre" || value == "foo"
    ensures value == "excel" ==> ParseArguments(["--output=" + value]) == Success(Excel)
    ensures value == "libre" ==> ParseArguments(["--output=" + value]) == Success(Libre)
    ensures value == "foo" ==> ParseArguments(["--output=" + value]) == Failure(UnexpectedSpreadsheetType("foo"))
    ensures ParseArguments([]) == Failure(NoSpreadsheetTypeProvided)
  {
    assert AllWordChars(value) by {
      assert forall i :: 0 <= i < |value| ==> IsAsciiLower(value[i]);
    }
    SingleOutputArgument(value);
  }

  /** The value ends at the first character that is not a word character: `--output=excel-beta` still chooses Excel. */
  lemma ValueStopsAtNonWordChar(argument: string)
    requires argument == "--output=excel-beta"
    ensures ParseArguments([argument]) == Success(Excel)
  {
    assert argument == "--output=" + "excel" + "-beta";
    OutputValueOf("excel", "-beta");
    FirstMatchDecides([], argument, []);
  }
}
