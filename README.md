# Gift aid schedule builder — a Dafny model of its decisions

The gift aid schedule builder reads two CSV files that a UK charity keeps.
One holds bank transactions (date, reference, amount). The other holds donors'
gift aid declarations (name, address, declaration date, three coverage flags
and an identifier). The tool finds the donations that a declaration covers,
writes them to an HMRC gift aid schedule, and logs what it decided for each
transaction.

This project models everything between "rows of strings" and "the list of
claimable donations", one Dafny module per source file:

- `KeyCleaning` (`key_cleaning.dfy`): the normalisation of references and
  identifiers to lower-case letters.
- `Dates` (`dates.dfy`): UK date parsing, `%d/%m/%Y` with a fallback to
  `%d/%m/%y`, on `(year, month, day)` dates with a validity predicate and
  Python's ordering.
- `ParseTransactionsCsv` (`parse_transactions_csv.dfy`): amount cleaning,
  amounts as exact `real`s following the `Decimal` grammar, row parsing with
  column-located errors, the header check, and the row loop as a `method`.
- `ParseDeclarationsCsv` (`parse_declarations_csv.dfy`): the `"0"`/`"1"`
  flags, postcode cleaning and validation, row parsing (first violated rule
  wins), the header check, and the row loop as a `method`.
- `RowErrors` (`row_errors.dfy`): `RowParsingError` as a value, with an
  optional column, the reason, and the notes the file loops add.
- `Models` (`models.dfy`): the donor's display name, declarations with
  cleaned identifiers, and the guard on gift-aidable amounts.
- `BuildOutputDirectory` (`build_output_directory.dfy`):
  - the choice of a fresh output directory name;
  - the lazily chosen output directory, as a class;
  - the five-way eligibility decision;
  - the filtering loop, as a `method` over rows that writes two logs of
    outcome records and stops at the schedule's 1000 rows.
- `Arguments` (`arguments.dfy`): the `--output=<type>` command-line parser.
- `Text` and `Wrappers` hold shared string helpers and `Option`/`Result`.

Each error is an explicit value, never an exception. A `Result` carries
`RowParsingError`, `BooleanParsingError`, `InvalidOperation`, `NotGiftAidable`
and the argument errors. A run of the filtering loop that would raise is the
`Raised` outcome, with the logs as far as they were written. The clock (today's
date) and the listing of the outputs directory are parameters.

## Model

| member | source | states |
|---|---|---|
| KeyCleaning.KeyLetters | logic/key_cleaning.py:8-11 | each character gives at most one letter; an ASCII letter gives its lower case |
| KeyCleaning.CleanKey | logic/key_cleaning.py:7-12 | the result holds only `a`–`z` and is never longer than the input; it is total (empty input gives empty output) |
| KeyCleaning.CleanKeyIsLowerThenFilter | logic/key_cleaning.py:8-12 | on ASCII input, cleaning is exactly "lower-case, then keep `a`–`z`", so every letter survives in its original order |
| KeyCleaning.CleanKeyConcat | logic/key_cleaning.py:8-12 | cleaning a concatenation concatenates the cleaned parts |
| KeyCleaning.CleanKeyFixpoint | logic/key_cleaning.py:8-12 | a string is unchanged by cleaning if and only if it is all `a`–`z` |
| KeyCleaning.CleanKeyIdempotent | logic/key_cleaning.py:8-12 | cleaning twice is cleaning once |
| KeyCleaning.CleanKeyIgnoresCase | logic/key_cleaning.py:11 | upper- or lower-casing the input first does not change the key |
| KeyCleaning.CleanKeyOfNonLetters | logic/key_cleaning.py:8-10 | ASCII text without letters cleans to the empty string |
| KeyCleaning.CleanKeyRemovesNonLetters | tests/test_logic/test_key_cleaning.py:11-16 | `"foo &8_\ bar"` cleans to `"foobar"` |
| KeyCleaning.CleanKeyLowersCapitals | tests/test_logic/test_key_cleaning.py:18-23 | `"fOoBAr"` cleans to `"foobar"` |
| Text.StripCutsAtEnds | logic/parsing/parse_transactions_csv.py:72 | `str.strip()` gives the input with a run of whitespace cut off at each end; it is the only such slice that neither starts nor ends with whitespace |
| Dates.DayField | logic/parsing/dates.py:8-12 | `%d` accepts only days 1 to 31 |
| Dates.MonthField | logic/parsing/dates.py:8-12 | `%m` accepts only months 1 to 12 |
| Dates.YearField | logic/parsing/dates.py:8-17 | `%Y` is four digits (0–9999); `%y` is two digits, placed in 1969–2068 |
| Dates.SplitFields | logic/parsing/dates.py:8-12 | the fields are separated at the first two slashes, and joining them back gives the input |
| Dates.SplitFieldsOfJoined | logic/parsing/dates.py:8-12 | splitting undoes joining with "/" when the first two fields hold no "/" |
| Dates.ParseWithFormat | logic/parsing/dates.py:8-12 | an accepted string names a valid date |
| Dates.FormatsAreExclusive | logic/parsing/dates.py:7-17 | no string is accepted by both formats |
| Dates.ParseUkFormattedDate | logic/parsing/dates.py:7-17 | a date results if and only if one of the two formats accepts the string, and it is that format's date; otherwise the error is raised |
| Dates.ParseFormattedDate | logic/parsing/dates.py:8-12 | a valid date written as DD/MM/YYYY parses back to itself |
| Dates.ParseFormattedShortDate | logic/parsing/dates.py:14-17 | a valid date in 1969–2068 written as DD/MM/YY parses back to itself |
| Dates.ParseFourDigitYearExample | tests/test_logic/test_parsing/test_dates.py:20-26 | `"27/2/1997"` is 27 February 1997 |
| Dates.ParseTwoDigitYearExample | tests/test_logic/test_parsing/test_dates.py:28-35 | `"27/2/97"` is 27 February 1997 |
| Dates.ParseIsoDateExample | tests/test_logic/test_parsing/test_dates.py:37-40 | `"1997-2-27"` is refused |
| Dates.IsoFormat | build_output_directory.py:28 | `isoformat()` is ten characters: four digits whose value is the year, "-", two digits giving the month, "-", two digits giving the day |
| ParseTransactionsCsv.ReplaceTrueMinus | logic/parsing/parse_transactions_csv.py:27 | every U+2212 becomes "-", and nothing else changes |
| ParseTransactionsCsv.CleanAmountString | logic/parsing/parse_transactions_csv.py:22-28 | the cleaned text holds only digits, "-" and "." |
| ParseTransactionsCsv.CleanAmountConcat | logic/parsing/parse_transactions_csv.py:25-28 | cleaning works character by character |
| ParseTransactionsCsv.CleanAmountKeepsAmountText | logic/parsing/parse_transactions_csv.py:25-28 | text of digits, "-" and "." is left as it is |
| ParseTransactionsCsv.CleanAmountIdempotent | logic/parsing/parse_transactions_csv.py:25-28 | cleaning twice is cleaning once |
| ParseTransactionsCsv.CleanAmountTrueMinusIsHyphen | logic/parsing/parse_transactions_csv.py:27 | a true minus and a hyphen clean to the same text |
| ParseTransactionsCsv.CleanAmountDropsOther | logic/parsing/parse_transactions_csv.py:22-28 | any other character (a currency sign, say) is dropped |
| ParseTransactionsCsv.UnsignedDecimalValue | logic/parsing/parse_transactions_csv.py:36 | text `Decimal` accepts without a sign holds only digits and at most one point, with at least one digit, and its value is not negative |
| ParseTransactionsCsv.UnsignedAccepts | logic/parsing/parse_transactions_csv.py:36 | conversely, every text of digits and at most one point with a digit (`D+`, `D+.D*`, `.D+`) is accepted |
| ParseTransactionsCsv.UnsignedOfDigits | logic/parsing/parse_transactions_csv.py:36 | a string of digits `D+` has its decimal value |
| ParseTransactionsCsv.UnsignedOfPointed | logic/parsing/parse_transactions_csv.py:36 | `W.F` with digit strings `W` and `F`, not both empty, has the value of `W` plus `F` over 10 to the length of `F` |
| ParseTransactionsCsv.DecimalValue | logic/parsing/parse_transactions_csv.py:36 | on cleaned text, a value needs a digit, at most one point and no "-" but a leading one; a negative value comes from a leading "-" |
| ParseTransactionsCsv.DecimalAccepts | logic/parsing/parse_transactions_csv.py:36 | conversely, every cleaned text with a digit, at most one point and no "-" but a leading one is accepted |
| ParseTransactionsCsv.SignedDecimalValue | logic/parsing/parse_transactions_csv.py:36 | a leading "-" negates the value of the numeral after it, and without one the value is the numeral's |
| ParseTransactionsCsv.ParseTransactionAmount | logic/parsing/parse_transactions_csv.py:31-36 | no amount if and only if the cleaned text has no digit; `InvalidOperation` on the cleaned text if and only if it has a digit and `Decimal` refuses it; an amount is the `Decimal` value of the cleaned text |
| ParseTransactionsCsv.TwoPointsRefused | logic/parsing/parse_transactions_csv.py:36 | a cleaned amount with two points is refused |
| ParseTransactionsCsv.InnerMinusRefused | logic/parsing/parse_transactions_csv.py:36 | a cleaned amount with a "-" after its first character is refused |
| ParseTransactionsCsv.ParseFormattedPence | logic/parsing/parse_transactions_csv.py:31-36 | an amount printed as [-]W.FF parses back to exactly that amount |
| ParseTransactionsCsv.ParseAmountIgnoresOther | logic/parsing/parse_transactions_csv.py:28-36 | a character that cleaning drops does not change the parsed amount |
| ParseTransactionsCsv.ParseAmountTrueMinusIsHyphen | logic/parsing/parse_transactions_csv.py:27-36 | a true minus parses as a hyphen |
| ParseTransactionsCsv.ParseAmountBlankExamples | tests/test_logic/test_parsing/test_parse_transactions_csv.py:17-27 | `""` and `"--"` have no amount |
| ParseTransactionsCsv.ParsePositiveAmountExamples | tests/test_logic/test_parsing/test_parse_transactions_csv.py:29-45 | `"5.00"`, `"£5.00"` and `"5"` are all 5 |
| ParseTransactionsCsv.ParseNegativeAmountExamples | tests/test_logic/test_parsing/test_parse_transactions_csv.py:47-79 | `"-5.00"`, `"£-5.00"` and `"-£5.00"` are all -5 |
| ParseTransactionsCsv.ParseTrueMinusAmountExamples | tests/test_logic/test_parsing/test_parse_transactions_csv.py:47-79 | the same three written with a true minus are all -5 |
| ParseTransactionsCsv.ParseMalformedAmountExample | tests/test_logic/test_parsing/test_parse_transactions_csv.py:81-83 | `"5.0.0"` is refused |
| ParseTransactionsCsv.FromRow | logic/parsing/parse_transactions_csv.py:58-91 | a row without three items fails with no column and lists its items; an unparsable stripped date fails at column 1; an unparsable amount fails at column 3; otherwise the row's date, raw reference, amount and row index are kept |
| ParseTransactionsCsv.FromRowOfFormatted | logic/parsing/parse_transactions_csv.py:58-91 | a row written from a date, a reference and an amount parses back to them |
| ParseTransactionsCsv.FromRowDateWithoutSlash | logic/parsing/parse_transactions_csv.py:71-78 | a date cell without "/" is reported at column 1 |
| ParseTransactionsCsv.FromRowMalformedAmount | logic/parsing/parse_transactions_csv.py:80-85 | a well-formed row with amount `"5.0.0"` is reported at column 3 |
| ParseTransactionsCsv.CheckHeaderRow | logic/parsing/parse_transactions_csv.py:106-119 | the header passes if and only if it has three cells whose stripped, lower-cased text is `date`, `reference`, `amount`; otherwise the error carries the header |
| ParseTransactionsCsv.CheckHeaderRowExamples | logic/parsing/parse_transactions_csv.py:106-119 | the template header passes; reordered or short headers fail |
| ParseTransactionsCsv.ParseFileRow | logic/parsing/parse_transactions_csv.py:148-171 | a row of the wrong length fails with the loop's own error and no note; a failure from `from_row` gets one note naming the row, column and file |
| ParseTransactionsCsv.ParseTransactionRows | logic/parsing/parse_transactions_csv.py:142-171 | success gives one transaction per row, each the parse of its row numbered from 2; failure is the error of the first row that fails, every earlier row having parsed |
| ParseTransactionsCsv.ParsedRowsAreNumbered | logic/parsing/parse_transactions_csv.py:148-165 | each parsed transaction keeps its own row number and its raw reference |
| ParseDeclarationsCsv.ParseBoolean | logic/parsing/parse_declarations_csv.py:29-38 | `"1"` is true, `"0"` is false, and anything else fails, carrying the text |
| ParseDeclarationsCsv.ParseBooleanOfFlagText | logic/parsing/parse_declarations_csv.py:29-33 | each flag's text parses back to it |
| ParseDeclarationsCsv.PostcodeTrimmedCutsAtEnds | logic/parsing/parse_declarations_csv.py:43-47 | the upper-cased text with a run of non-capitals cut off at each end; the only such slice that is empty or starts and ends with a capital |
| ParseDeclarationsCsv.PostcodeCore | logic/parsing/parse_declarations_csv.py:43-49 | after the gunk is dropped, only `A`–`Z` and digits remain, and the ends are still letters |
| ParseDeclarationsCsv.PostcodeCoreOfTrimmed | logic/parsing/parse_declarations_csv.py:47-49 | the core is the trimmed text with everything but capitals and digits dropped, and keeps every capital and digit of it |
| ParseDeclarationsCsv.CleanPostcode | logic/parsing/parse_declarations_csv.py:41-53 | beyond two characters, exactly one space is inserted before the last three and nothing else changes; otherwise the core is returned; only `A`–`Z`, digits and that one space appear |
| ParseDeclarationsCsv.CleanPostcodeIdempotent | logic/parsing/parse_declarations_csv.py:41-53 | cleaning a cleaned postcode changes nothing |
| ParseDeclarationsCsv.CleanPostcodeOfValid | logic/parsing/parse_declarations_csv.py:41-53 | a postcode of the valid shape is left as it is by cleaning |
| ParseDeclarationsCsv.RenderMatches | logic/parsing/parse_declarations_csv.py:57 | every area, district, optional letter, sector and unit of the right shape writes out to a string the pattern accepts |
| ParseDeclarationsCsv.MatchesHasParts | logic/parsing/parse_declarations_csv.py:57 | every string the pattern accepts is such a written-out postcode |
| ParseDeclarationsCsv.ValidatePostcodeIffParts | logic/parsing/parse_declarations_csv.py:57-65 | validation holds if and only if the input is 1–2 letters, 1–2 digits, an optional letter, a space, a digit and 2 letters, optionally followed by one newline |
| ParseDeclarationsCsv.ValidPostcodeLength | logic/parsing/parse_declarations_csv.py:57-65 | a valid postcode has at least six characters |
| ParseDeclarationsCsv.ValidatePostcodeExamples | tests/test_logic/test_parsing/test_parse_declarations_csv.py:22-26 | `"EC1N 8QX"`, `"SA18 3YF"`, `"W3 6LJ"` and `"B12 8QX"` are valid |
| ParseDeclarationsCsv.ValidatePostcodeRefusesSingleLetter | logic/parsing/parse_declarations_csv.py:57-65 | `"X"` is not valid |
| ParseDeclarationsCsv.CleanPostcodeGunkExample | tests/test_logic/test_parsing/test_parse_declarations_csv.py:13-17 | `"123ec1'?n8Q  \tx()"` cleans to `"EC1N 8QX"` |
| ParseDeclarationsCsv.CleanPostcodeSingleLetterExample | tests/test_logic/test_parsing/test_parse_declarations_csv.py:13-17 | `"x"` cleans to `"X"` |
| ParseDeclarationsCsv.FromRow | logic/parsing/parse_declarations_csv.py:98-192 | a row without ten items fails with no column and gives the count; otherwise it succeeds if and only if no rule is broken, and fails with the first broken rule in column order; on success the text fields are stripped, the postcode cleaned, the date and flags parsed, and the identifier stripped but not key-cleaned |
| ParseDeclarationsCsv.MissingNamesReported | logic/parsing/parse_declarations_csv.py:122-125 | a blank first name is reported at column 2, then a blank last name at column 3, each with the row's note |
| ParseDeclarationsCsv.TitleIsNeverChecked | logic/parsing/parse_declarations_csv.py:109-121 | any title, of any length, leaves the outcome unchanged |
| ParseDeclarationsCsv.FromRowOfCells | logic/parsing/parse_declarations_csv.py:98-192 | a normalised declaration written out as ten cells parses back to itself |
| ParseDeclarationsCsv.CheckHeaderRow | logic/parsing/parse_declarations_csv.py:207-233 | the header passes if and only if it has ten cells whose stripped, lower-cased text equals the lower-cased expected names in order |
| ParseDeclarationsCsv.CheckHeaderRowIgnoresCase | logic/parsing/parse_declarations_csv.py:223-225 | stripped cells that differ from the expected names only in case pass |
| ParseDeclarationsCsv.CheckHeaderRowOfTemplate | logic/parsing/parse_declarations_csv.py:210-225 | the template's header passes, and so does its upper-cased form |
| ParseDeclarationsCsv.ParseFileRow | logic/parsing/parse_declarations_csv.py:265-284 | a row of the wrong length fails with the loop's own error and no note; a failure from `from_row` gets one note naming the row, column and file |
| ParseDeclarationsCsv.ParseDeclarationRows | logic/parsing/parse_declarations_csv.py:256-284 | success gives one declaration per row, each the parse of its row numbered from 2; failure is the error of the first row that fails |
| ParseDeclarationsCsv.ParsedDeclarationsAreValid | logic/parsing/parse_declarations_csv.py:122-179 | every parsed declaration has a first name, a last name, a house and a valid postcode |
| Models.DonorNameParts | models.py:37-39 | the donor name is the non-empty parts among title, first and last name, one space between each two, in all seven cases |
| Models.DonorNameOfParsedRow | models.py:37-39 | for a parsed declaration it is "first last", with the title in front when there is one |
| Models.FromDeclarationRow | models.py:41-57 | the identifier is key-cleaned and the other nine fields are copied |
| Models.DeclarationIdentifierIsClean | models.py:56 | a declaration's identifier is all `a`–`z` and unchanged by cleaning again |
| Models.FromTransactionRow | models.py:72-87 | succeeds if and only if the amount is present and not negative, so zero is accepted; the result carries the row's date and amount and the given declaration |
| BuildOutputDirectory.BaseName | build_output_directory.py:28-29 | `output_` followed by today's ISO date |
| BuildOutputDirectory.RunNumbers | build_output_directory.py:46-50 | the number of every existing name that starts with the base and matches the pattern is collected, and every number collected is one of those |
| BuildOutputDirectory.MaxOf | build_output_directory.py:52 | `max` of a non-empty list is one of its elements and no smaller than any of them |
| BuildOutputDirectory.NextRunNumber | build_output_directory.py:51-53 | 1 when no number was collected; otherwise one more than a collected number and greater than all of them, so the maximum plus one |
| BuildOutputDirectory.RunNumberOfNumbered | build_output_directory.py:18 | the pattern reads back the number of a name `<base>_(<n>)` |
| BuildOutputDirectory.OutputDirectoryName | build_output_directory.py:21-56 | the name chosen never equals an existing name; it is the base name when that is free, and otherwise the base name numbered with the next run number of the existing names |
| BuildOutputDirectory.SecondRunOfTheDay | build_output_directory.py:46-56 | with only the base name taken, the next run is `<base>_(1)` |
| BuildOutputDirectory.NextRunOfTheDay | build_output_directory.py:46-56 | with `<base>_(n)` taken, the next run is `<base>_(n+1)` |
| BuildOutputDirectory.OutputsDirectory.constructor | build_output_directory.py:59 | no directory is chosen yet |
| BuildOutputDirectory.OutputsDirectory.GetOutputDirectory | build_output_directory.py:59-67 | the first call picks a fresh name and creates exactly that directory; later calls return the same name and create nothing |
| BuildOutputDirectory.FourYearsBefore | build_output_directory.py:164-166 | the same day and month four years earlier, present exactly when that is a valid date; for a valid date after year 4 it is missing only for 29 February into a non-leap year |
| BuildOutputDirectory.DetermineEligibility | build_output_directory.py:158-190 | raises exactly when the cutoff does; before the cutoff is always too old; otherwise the period (before, on or after the declaration day) picks its flag, the reason when it is off, and gift-aidable exactly when the declaration covers the date |
| BuildOutputDirectory.FullDeclarationCoversFromCutoff | build_output_directory.py:158-190 | with all three flags on, everything from the cutoff on is gift-aidable |
| BuildOutputDirectory.EligibilityExamples | tests/test_build_output_directory.py:35-139 | for a declaration of 14 September 2014: the day before the cutoff is too old, and the cutoff, the declaration day and the day after are each decided by their flag |
| BuildOutputDirectory.LeapDayCutoffUndefined | build_output_directory.py:164-166 | a declaration dated 29 February 1904 makes the check raise |
| BuildOutputDirectory.Matching | build_output_directory.py:268-270 | the declarations whose identifier occurs in the cleaned reference, and only those |
| BuildOutputDirectory.MatchingConcat | build_output_directory.py:268-270 | matching goes through the declarations in order: the matches of a concatenation are the matches of each part, one after the other |
| BuildOutputDirectory.MatchingOne | build_output_directory.py:268-270 | a single declaration matches once, exactly when its identifier occurs in the reference |
| BuildOutputDirectory.IdentifierWithoutLettersMatchesEverything | build_output_directory.py:268-270 | an identifier without letters cleans to "" and matches every reference |
| BuildOutputDirectory.DonorNames | build_output_directory.py:304-306 | one donor name per matching declaration, in the same order |
| BuildOutputDirectory.ManualFor | build_output_directory.py:303-319 | one manual-log line for an ambiguous row, none otherwise |
| BuildOutputDirectory.StepOf | build_output_directory.py:253-323 | raises exactly when a single match's cutoff does; logs the row's number and reference once with its one outcome; no amount and a negative amount are skipped; a kept transaction has the row's date and amount, is justified, and has no declaration exactly when the row was ambiguous; ambiguous rows also go to the manual log |
| BuildOutputDirectory.StepOfDecides | build_output_directory.py:271-323 | for an amount of at least zero: two or more matches keep one transaction without a declaration and log the donors' names; a single match keeps the transaction, bound to that declaration and logged as detected, exactly when the declaration covers its date, and otherwise logs the eligibility check's reason |
| BuildOutputDirectory.StepKeepsConsistent | build_output_directory.py:253-323 | one row keeps the kept transactions matched to the lines that add one, all justified, and the manual log equal to the ambiguous lines |
| BuildOutputDirectory.FilteringKeepsConsistent | build_output_directory.py:253-332 | the whole loop keeps that, never keeps more than 1000, and stops early exactly when it reaches 1000 |
| BuildOutputDirectory.FilteringExtendsLog | build_output_directory.py:253-332 | at most one log line per row, exactly one per row when the loop runs to the end, earlier lines untouched |
| BuildOutputDirectory.FilteringNumbersRow | build_output_directory.py:254-255 | the k-th line added is the k-th row's, numbered on from the first |
| BuildOutputDirectory.FilteringFromStart | build_output_directory.py:247-333 | from an empty start: at most 1000 kept, exactly 1000 when stopped early, every row logged when not stopped, rows numbered from 2, every kept transaction justified |
| BuildOutputDirectory.DoFilteringWithLogging | build_output_directory.py:247-333 | the loop returns exactly what `Filtering` gives from row 2 and an empty start, so `FilteringFromStart`'s guarantees hold of its result |
| BuildOutputDirectory.FewRowsAreNeverCapped | build_output_directory.py:324-332 | fewer rows than the schedule holds never hit the cap |
| BuildOutputDirectory.ManualRowCountsCsvRows | build_output_directory.py:312 | the manual log's xlsx row counts CSV rows, so it can name a schedule row that does not hold the transaction |
| Arguments.ParseSpreadsheetType | arguments.py:21-27 | `"excel"` and `"libre"` give their types; anything else fails with that value |
| Arguments.ParseTypeName | arguments.py:16-25 | each type's name parses back to it |
| Arguments.OutputValue | arguments.py:30 | a match needs `--output=` at the start followed by a word character; the captured value is the longest run of word characters after it |
| Arguments.OutputValueOf | arguments.py:30 | a word after `--output=`, followed by a non-word character or nothing, is captured whole |
| Arguments.ParseArguments | arguments.py:33-39 | no type is provided if and only if no argument matches; a success comes from a matching argument's value |
| Arguments.FirstMatchDecides | arguments.py:35-37 | the first matching argument decides, and later arguments are ignored |
| Arguments.SingleOutputArgument | arguments.py:33-37 | a single `--output=<word>` is decided by the word alone |
| Arguments.ParseArgumentsExamples | tests/test_arguments.py:8-35 | `--output=excel` is Excel, `--output=libre` is Libre, `--output=foo` fails with "foo", and no arguments fail as missing |
| Arguments.ValueStopsAtNonWordChar | arguments.py:30-37 | `--output=excel-beta` still chooses Excel |

## Code and tests disagree

This model follows the code where its tests or its documentation ask for more.

- The postcode `"X"` is asserted valid by
  tests/test_logic/test_parsing/test_parse_declarations_csv.py:28-29. The
  pattern at logic/parsing/parse_declarations_csv.py:57 has no such
  alternative, so `ParseDeclarationsCsv.ValidatePostcodeRefusesSingleLetter`
  proves that `"X"` is refused.
- Tests at tests/test_logic/test_parsing/test_parse_declarations_csv.py:209-320
  expect some rows to be refused. They cover title length, name length,
  hyphens in the last name and house length. `DeclarationRow.from_row` makes
  none of these checks (see the TODO at
  logic/parsing/parse_declarations_csv.py:258-260). The model has none, and
  `ParseDeclarationsCsv.TitleIsNeverChecked` shows that the title never
  matters.
- The eligibility cutoff is `replace(year=year - 4)`. It raises for a
  declaration dated 29 February whose year four earlier is not a leap year.
  The source does not special-case this. The model keeps the failure:
  `FourYearsBefore` gives nothing exactly then (and for years before 5), and
  the filtering loop ends as `Raised`.
- The manual-handling log names xlsx row `25 + row_index - 2`, counting CSV
  rows (build_output_directory.py:312). The schedule writes the k-th kept
  transaction to row `25 + k` (build_output_directory.py:382-385). The two
  differ as soon as an earlier row was not kept.
  `BuildOutputDirectory.ManualRowCountsCsvRows` shows a two-row input where
  the named row holds no transaction. The model keeps the source's number.
- An identifier with no letters (digits only, say) cleans to the empty
  string. The empty string occurs in every reference, so such a declaration
  matches every transaction (`IdentifierWithoutLettersMatchesEverything`).
- `from_transaction_row` accepts an amount of zero, although its message says
  "greater than zero" (models.py:78-82). The model accepts zero.

## Left out

- File-system effects:
  - Creating, listing and copying files, and opening the logs with `"x"`.
  - The model takes the outputs directory's listing as a list of names.
  - `GetOutputDirectory`'s creation appends the name to that list.
- The `csv` module, and the `readline().strip().split(",")` the header checks
  read with: headers and rows arrive already split into cells.
- openpyxl: `_create_output_file`, `_check_output_workbook`,
  `_write_transactions_to_output_workbook` and the workbook loading in
  `build_output_directory`. The schedule row a transaction lands on
  (`25 + k`) is stated only in `ManualEntryPointsAtItsRow`.
- The clock: today's date is a parameter of `BaseName`, `OutputDirectoryName`
  and `GetOutputDirectory`.
- Terminal output (`utils.py`), `warnings.warn` at the cap (the `Capped`
  outcome records the last row), and the orchestration in
  gift_aid_schedule_builder.py.
- The wording of every message:
  - Log lines are `LogEntry` values with the row number, the reference and
    the outcome, and manual-log lines are `ManualEntry` values.
  - The non-eligible messages of
    `_log_non_gift_aidable_transaction_that_has_declaration` are written
    without a trailing newline (build_output_directory.py:205-238). Line
    breaks are not modelled, so log entries stand for writes, not lines.
  - That function's final `raise` cannot be reached from the loop.
    `StepOf` states that a `NotEligible` outcome never carries
    `IsGiftAidable`.
- Python's exception notes are the explicit `notes` list of
  `RowParsingError`.
- Unicode beyond ASCII:
  - Case mapping, `\d` and `\w` are modelled on ASCII.
  - `KeyCleaning.KeyLetters` also maps U+0130 and U+212A, the only other
    characters whose `lower()` yields an `a`–`z` letter.
  - `isspace` is modelled with its full set of characters.
- `Decimal` arithmetic: amounts are exact `real`s, and only parsing and the
  sign test are modelled.
- Arguments.OutputValue: `\w` is taken as ASCII letters, digits and `_`.
  Python's `\w` also accepts other Unicode word characters.
