/**
 * The errors raised while parsing a row of either input file
 * (logic/parsing/row_parsing_exception.py). An error carries the column it
 * locates (1-based, or none for a whole-row problem), what went wrong, and
 * the notes added to it as it leaves the file loop. The wording of the
 * messages is not modelled; `Reason` keeps the values they report.
 */
module RowErrors {
  import opened Wrappers

  /** The three coverage flags of a declaration, columns 7, 8 and 9. */
  datatype DeclarationFlag = FourYearsBefore | DayOfDeclaration | AfterDayOfDeclaration

  datatype Reason =
    /** A transaction row that does not have three items; the message lists them. */
    | TransactionItemCount(items: seq<string>)
    /** A declaration row that does not have ten items; the message gives the count. */
    | DeclarationItemCount(count: nat)
    /** The file loop's own length check, which names the row and the file. */
    | RowLength(rowIndex: int, fileName: string, items: seq<string>)
    | UnparsableDate(text: string)
    | UnparsableAmount(text: string)
    | NoFirstName
    | NoLastName
    | NoHouse
    | NoPostcode
    | InvalidPostcode(text: string)
    | UnparsableFlag(flag: DeclarationFlag, text: string)
    | NoIdentifier

  /** "Error parsing row <rowIndex>, column <column> of <fileName>." */
  datatype Note = RowNote(rowIndex: int, column: Option<nat>, fileName: string)

  /** `RowParsingError`, with the exception's notes as an explicit list. */
  datatype RowParsingError = RowParsingError(column: Option<nat>, reason: Reason, notes: seq<Note>)
  {
    function AddNote(note: Note): RowParsingError
    {
      this.(notes := notes + [note])
    }
  }

  /** A freshly raised error, before any note is added. */
  function Raise(column: Option<nat>, reason: Reason): RowParsingError
  {
    RowParsingError(column, reason, [])
  }

  /** `parse` turns each of the first `|parsed|` rows, numbered from 2, into the matching element of `parsed`. */
  ghost predicate ParsedPrefix<T>(parse: (seq<string>, int) -> Result<T, RowParsingError>, rows: seq<seq<string>>, parsed: seq<T>)
  {
    && |parsed| <= |rows|
    && forall k :: 0 <= k < |parsed| ==> parse(rows[k], k + 2) == Success(parsed[k])
  }

  /** One more parsed row extends the prefix. */
  lemma ExtendParsedPrefix<T>(parse: (seq<string>, int) -> Result<T, RowParsingError>, rows: seq<seq<string>>, parsed: seq<T>, next: T)
    requires ParsedPrefix(parse, rows, parsed) && |parsed| < |rows|
    requires parse(rows[|parsed|], |parsed| + 2) == Success(next)
    ensures ParsedPrefix(parse, rows, parsed + [next])
  {
    var extended := parsed + [next];
    forall k | 0 <= k < |extended|
      ensures parse(rows[k], k + 2) == Success(extended[k])
    {
      if k < |parsed| {
        assert extended[k] == parsed[k];
      }
    }
  }

  /** A row that fails after a parsed prefix is the first failing row. */
  lemma FailedAfterPrefix<T>(parse: (seq<string>, int) -> Result<T, RowParsingError>, rows: seq<seq<string>>, parsed: seq<T>, e: RowParsingError)
    requires ParsedPrefix(parse, rows, parsed) && |parsed| < |rows|
    requires parse(rows[|parsed|], |parsed| + 2) == Failure(e)
    ensures
      exists k :: 0 <= k < |rows|
        && (forall j :: 0 <= j < k ==> parse(rows[j], j + 2).Success?)
        && parse(rows[k], k + 2) == Failure(e)
  {
    var k := |parsed|;
    assert forall j :: 0 <= j < k ==> parse(rows[j], j + 2).Success?;
  }
}
