/**
 * The decisions of build_output_directory.py: naming a fresh output
 * directory for today's run, choosing it once, deciding whether a
 * declaration covers a transaction, and the filtering loop that turns
 * transaction rows into schedule entries and log entries. The file system
 * is a list of names, the clock a parameter, and log files lists of
 * entries; the workbook is not modelled.
 */
module BuildOutputDirectory {
  import opened Wrappers
  import opened Text
  import opened Dates
  import opened KeyCleaning
  import opened Models
  import Transactions = ParseTransactionsCsv
  import Declarations = ParseDeclarationsCsv

  // ---------------------------------------------------------------------
  // Naming the output directory

  /** `output_<date.isoformat()>`. */
  function BaseName(today: Date): (name: string)
    requires ValidDate(today)
    ensures |name| == 17
    ensures name[..7] == "output_" && name[7..] == IsoFormat(today)
  {
    "output_" + IsoFormat(today)
  }

  predicate StartsWith(s: string, prefix: string)
  {
    |prefix| <= |s| && s[..|prefix|] == prefix
  }

  /**
   * `_output_file_name_regex.match(name)`: the pattern
   * `output_\d{4}-\d{2}-\d{2}_\((\d+)\)` at the start of `name` (anything
   * may follow), giving the number in brackets.
   */
  function RunNumberOf(name: string): (r: Option<nat>)
  {
    if |name| < 19 || name[..7] != "output_" then None
    else if !(AllDigits(name[7..11]) && name[11] == '-' && AllDigits(name[12..14])
              && name[14] == '-' && AllDigits(name[15..17]) && name[17..19] == "_(") then None
    else
      var rest := name[19..];
      var digits := TakeWhile(IsAsciiDigit, rest);
      if |digits| == 0 || |digits| == |rest| || rest[|digits|] != ')' then None
      else Some(DigitsValue(digits))
  }

  /** The run numbers of the names that start with `base` and match the pattern, in order. */
  function RunNumbers(base: string, names: seq<string>): (r: seq<nat>)
    ensures forall k :: 0 <= k < |names| && StartsWith(names[k], base) && RunNumberOf(names[k]).Some? ==>
              RunNumberOf(names[k]).value in r
    ensures forall x :: x in r ==> NumberOfSomeName(base, names, x)
  {
    if names == [] then []
    else
      var here := if StartsWith(names[0], base) && RunNumberOf(names[0]).Some?
        then [RunNumberOf(names[0]).value] else [];
      var rest := RunNumbers(base, names[1..]);
      forall x | x in rest ensures NumberOfSomeName(base, names, x) {
        var k :| 0 <= k < |names[1..]| && StartsWith(names[1..][k], base) && RunNumberOf(names[1..][k]) == Some(x);
        assert names[k + 1] == names[1..][k];
      }
      assert forall x :: x in here ==> StartsWith(names[0], base) && RunNumberOf(names[0]) == Some(x);
      here + rest
  }

  /** `x` is the run number of one of `names` that starts with `base`. */
  ghost predicate NumberOfSomeName(base: string, names: seq<string>, x: nat)
  {
    exists k :: 0 <= k < |names| && StartsWith(names[k], base) && RunNumberOf(names[k]) == Some(x)
  }

  function MaxOf(s: seq<nat>): (m: nat)
    requires s != []
    ensures m in s
    ensures forall k :: 0 <= k < |s| ==> s[k] <= m
  {
    if |s| == 1 then s[0]
    else
      var rest := MaxOf(s[1..]);
      if s[0] >= rest then s[0] else rest
  }

  /** One more than the largest run number, or 1 when there is none. */
  function NextRunNumber(numbers: seq<nat>): (n: nat)
    ensures n >= 1
    ensures forall k :: 0 <= k < |numbers| ==> numbers[k] < n
    ensures numbers == [] ==> n == 1
    ensures numbers != [] ==> n - 1 in numbers
  {
    if numbers == [] then 1 else MaxOf(numbers) + 1
  }

  /** The name of a later run on the same day: `<base>_(<n>)`. */
  function NumberedName(base: string, n: nat): string
  {
    base + "_(" + NatToString(n) + ")"
  }

  /** A numbered name matches the pattern again, giving back its number. */
  lemma RunNumberOfNumbered(today: Date, n: nat)
    requires ValidDate(today)
    ensures RunNumberOf(NumberedName(BaseName(today), n)) == Some(n)
  {
    var iso := IsoFormat(today);
    var digits := NatToString(n);
    var name := NumberedName(BaseName(today), n);
    assert name == "output_" + iso + "_(" + digits + ")";
    NumberedNameFields(name, iso, digits);
    TakeWhileOfDigits(digits, ")");
  }

  /** Where the fields of `output_<iso>_(<digits>)` sit. */
  lemma NumberedNameFields(name: string, iso: string, digits: string)
    requires |iso| == 10 && name == "output_" + iso + "_(" + digits + ")"
    ensures |name| >= 19 && name[..7] == "output_" && name[17..19] == "_("
    ensures name[7..11] == iso[..4] && name[12..14] == iso[5..7] && name[15..17] == iso[8..]
    ensures name[11] == iso[4] && name[14] == iso[7]
    ensures name[19..] == digits + ")"
  {
    var head := "output_" + iso;
    assert name == head + ("_(" + digits + ")");
    assert head[..7] == "output_" && head[7..] == iso;
  }

  lemma {:induction false} TakeWhileOfDigits(digits: string, tail: string)
    requires AllDigits(digits)
    requires tail == [] || !IsAsciiDigit(tail[0])
    ensures TakeWhile(IsAsciiDigit, digits + tail) == digits
  {
    if digits != [] {
      assert (digits + tail)[1..] == digits[1..] + tail;
      TakeWhileOfDigits(digits[1..], tail);
    } else {
      assert digits + tail == tail;
    }
  }

  /**
   * `_determine_output_directory`, on the names already in the outputs
   * directory: today's base name when it is free, otherwise the base name
   * numbered one past the largest run number found. The name chosen is
   * never one that already exists.
   */
  function OutputDirectoryName(today: Date, entries: seq<string>): (name: string)
    requires ValidDate(today)
    ensures name !in entries
    ensures StartsWith(name, BaseName(today))
    ensures BaseName(today) !in entries ==> name == BaseName(today)
    ensures BaseName(today) in entries ==>
      name == NumberedName(BaseName(today), NextRunNumber(RunNumbers(BaseName(today), entries)))
  {
    var base := BaseName(today);
    if base !in entries then base
    else
      var n := NextRunNumber(RunNumbers(base, entries));
      var name := NumberedName(base, n);
      assert StartsWith(name, base) by {
        assert name[..|base|] == base;
      }
      assert name !in entries by {
        RunNumberOfNumbered(today, n);
        forall k | 0 <= k < |entries| ensures entries[k] != name {
          if StartsWith(entries[k], base) && RunNumberOf(entries[k]).Some? {
            assert RunNumberOf(entries[k]).value < n;
          }
        }
      }
      name
  }

  /** With today's base name taken and no numbered run yet, the next run is numbered 1. */
  lemma SecondRunOfTheDay(today: Date)
    requires ValidDate(today)
    ensures OutputDirectoryName(today, [BaseName(today)]) == NumberedName(BaseName(today), 1)
  {
    var base := BaseName(today);
    var names: seq<string> := [base];
    assert names[1..] == [];
    assert RunNumberOf(base) == None;
    assert RunNumbers(base, names) == [];
  }

  /** Each later run of the day is numbered one past the previous one. */
  lemma NextRunOfTheDay(today: Date, n: nat)
    requires ValidDate(today)
    ensures var base := BaseName(today);
      OutputDirectoryName(today, [base, NumberedName(base, n)]) == NumberedName(base, n + 1)
  {
    var base := BaseName(today);
    var numbered := NumberedName(base, n);
    RunNumberOfNumbered(today, n);
    assert numbered[..|base|] == base;
    assert RunNumberOf(base) == None;
    var names: seq<string> := [base, numbered];
    assert names[1..] == [numbered];
    assert names[1..][1..] == [];
    var expected: seq<nat> := [n];
    assert RunNumbers(base, names[1..][1..]) == [];
    assert RunNumbers(base, names[1..]) == expected + [];
    assert RunNumbers(base, names) == [] + expected;
  }

  /**
   * The outputs directory and the module's memory of the directory chosen
   * for this run (`_output_directory`).
   */
  class OutputsDirectory {
    /** The names of the directories under `outputs`. */
    var entries: seq<string>
    /** The directory chosen for this run, once there is one. */
    var outputDirectory: Option<string>

    ghost predicate Valid()
      reads this
    {
      outputDirectory.Some? ==> outputDirectory.value in entries
    }

    constructor (existing: seq<string>)
      ensures Valid()
      ensures entries == existing && outputDirectory == None
    {
      entries := existing;
      outputDirectory := None;
    }

    /**
     * `_get_output_directory`: the first call chooses a fresh name and
     * creates that directory; every later call returns the same name and
     * creates nothing.
     */
    method GetOutputDirectory(today: Date) returns (name: string)
      requires ValidDate(today)
      requires Valid()
      modifies this
      ensures Valid()
      ensures outputDirectory == Some(name)
      ensures name in entries
      ensures old(outputDirectory).Some? ==> name == old(outputDirectory).value && entries == old(entries)
      ensures old(outputDirectory).None? ==>
        && name == OutputDirectoryName(today, old(entries))
        && name !in old(entries)
        && entries == old(entries) + [name]
    {
      if outputDirectory.None? {
        var chosen := OutputDirectoryName(today, entries);
        entries := entries + [chosen];
        outputDirectory := Some(chosen);
      }
      name := outputDirectory.value;
    }
  }

  // ---------------------------------------------------------------------
  // Whether a declaration covers a transaction

  /** `TransactionEligability`. */
  datatype TransactionEligibility =
    | IsGiftAidable
    | TransactionOccurredMoreThanFourYearsBeforeDeclaration
    | DeclarationInvalidFourYearsPrecedingDayOfDeclaration
    | DeclarationInvalidForDayOfDeclaration
    | DeclarationInvalidAfterDayOfDeclaration

  /**
   * `declaration_date.replace(year=declaration_date.year - 4)`, or None
   * where that raises ValueError: 29 February when the year four before is
   * not a leap year (1904 gives 1900), and years 1 to 4.
   */
  function FourYearsBefore(d: Date): (r: Option<Date>)
    ensures r.Some? <==> ValidDate(Date(d.year - 4, d.month, d.day))
    ensures r.Some? ==> r.value == Date(d.year - 4, d.month, d.day)
    ensures ValidDate(d) && !(d.month == 2 && d.day == 29) && d.year > 4 ==> r.Some?
    ensures ValidDate(d) && d.month == 2 && d.day == 29 && d.year > 4 ==> (r.Some? <==> IsLeapYear(d.year - 4))
  {
    var c := Date(d.year - 4, d.month, d.day);
    if ValidDate(c) then Some(c) else None
  }

  predicate CutoffDefined(d: DonorDeclaration)
  {
    FourYearsBefore(d.declarationDate).Some?
  }

  /**
   * What a declaration promises, stated on its own: a transaction dated on
   * or after the day four years before the declaration is covered when the
   * flag for its period (before, on, or after the declaration day) is set.
   */
  predicate Covers(d: DonorDeclaration, cutoff: Date, t: Date)
  {
    && !Before(t, cutoff)
    && (Before(t, d.declarationDate) ==> d.validFourYearsBeforeDeclaration)
    && (t == d.declarationDate ==> d.validDayOfDeclaration)
    && (Before(d.declarationDate, t) ==> d.validAfterDayOfDeclaration)
  }

  /**
   * `_determine_whether_transaction_gift_aidable_for_declaration`; None
   * where computing the cutoff raises. The reason given is the one for the
   * period the transaction falls in, and the transaction is gift-aidable
   * exactly when the declaration covers it.
   */
  function DetermineEligibility(row: Transactions.TransactionRow, declaration: DonorDeclaration)
    : (r: Option<TransactionEligibility>)
    ensures r.Some? <==> CutoffDefined(declaration)
    ensures r.Some? ==>
      var (t, d, cutoff) := (row.transactionDate, declaration.declarationDate, FourYearsBefore(declaration.declarationDate).value);
      && (r.value == IsGiftAidable <==> Covers(declaration, cutoff, t))
      && (r.value == TransactionOccurredMoreThanFourYearsBeforeDeclaration <==> Before(t, cutoff))
      && (r.value == DeclarationInvalidFourYearsPrecedingDayOfDeclaration <==>
            !Before(t, cutoff) && Before(t, d) && !declaration.validFourYearsBeforeDeclaration)
      && (r.value == DeclarationInvalidForDayOfDeclaration <==>
            t == d && !declaration.validDayOfDeclaration)
      && (r.value == DeclarationInvalidAfterDayOfDeclaration <==>
            Before(d, t) && !declaration.validAfterDayOfDeclaration)
  {
    match FourYearsBefore(declaration.declarationDate)
    case None => None
    case Some(cutoff) =>
      var t := row.transactionDate;
      var d := declaration.declarationDate;
      if Before(t, cutoff) then Some(TransactionOccurredMoreThanFourYearsBeforeDeclaration)
      else if Before(t, d) && !declaration.validFourYearsBeforeDeclaration then
        Some(DeclarationInvalidFourYearsPrecedingDayOfDeclaration)
      else if t == d && !declaration.validDayOfDeclaration then Some(DeclarationInvalidForDayOfDeclaration)
      else if Before(d, t) && !declaration.validAfterDayOfDeclaration then
        Some(DeclarationInvalidAfterDayOfDeclaration)
      else Some(IsGiftAidable)
  }

  /** A declaration with all three flags set covers everything from its cutoff on. */
  lemma FullDeclarationCoversFromCutoff(row: Transactions.TransactionRow, declaration: DonorDeclaration)
    requires CutoffDefined(declaration)
    requires declaration.validFourYearsBeforeDeclaration && declaration.validDayOfDeclaration
    requires declaration.validAfterDayOfDeclaration
    ensures DetermineEligibility(row, declaration) == Some(
      if Before(row.transactionDate, FourYearsBefore(declaration.declarationDate).value)
      then TransactionOccurredMoreThanFourYearsBeforeDeclaration else IsGiftAidable)
  {
  }

  /**
   * The source's tests, for a declaration dated 14 September 2014: the day
   * before the cutoff is too old whatever the flags, and the cutoff day,
   * the declaration day and the day after are each decided by their flag.
   */
  lemma EligibilityExamples(row: Transactions.TransactionRow, declaration: DonorDeclaration)
    requires declaration.declarationDate == Date(2014, 9, 14)
    ensures row.transactionDate == Date(2010, 9, 13) ==>
      DetermineEligibility(row, declaration) == Some(TransactionOccurredMoreThanFourYearsBeforeDeclaration)
    ensures row.transactionDate == Date(2010, 9, 14) ==>
      DetermineEligibility(row, declaration) == Some(
        if declaration.validFourYearsBeforeDeclaration then IsGiftAidable
        else DeclarationInvalidFourYearsPrecedingDayOfDeclaration)
    ensures row.transactionDate == Date(2014, 9, 14) ==>
      DetermineEligibility(row, declaration) == Some(
        if declaration.validDayOfDeclaration then IsGiftAidable else DeclarationInvalidForDayOfDeclaration)
    ensures row.transactionDate == Date(2014, 9, 15) ==>
      DetermineEligibility(row, declaration) == Some(
        if declaration.validAfterDayOfDeclaration then IsGiftAidable
        else DeclarationInvalidAfterDayOfDeclaration)
  {
    assert FourYearsBefore(declaration.declarationDate) == Some(Date(2010, 9, 14));
  }

  /** A declaration dated 29 February 1904 makes the eligibility check raise. */
  lemma LeapDayCutoffUndefined(declaration: DonorDeclaration)
    requires declaration.declarationDate == Date(1904, 2, 29)
    ensures !CutoffDefined(declaration)
  {
  }

  // ---------------------------------------------------------------------
  // Filtering the transactions

  /** The first row of the schedule's transactions table. */
  const FirstTableRowIndex := 25
  /** The most transactions one schedule holds. */
  const ScheduleCapacity := 1000

  /**
   * The declarations whose identifier occurs in a cleaned reference, in
   * their original order.
   */
  function Matching(reference: string, declarations: seq<DonorDeclaration>): (r: seq<DonorDeclaration>)
    ensures |r| <= |declarations|
    ensures forall d :: d in r <==> d in declarations && Contains(reference, d.identifier)
  {
    var r := Filter((d: DonorDeclaration) => Contains(reference, d.identifier), declarations);
    forall d | d in declarations && Contains(reference, d.identifier) ensures d in r {
      FilterHas((d: DonorDeclaration) => Contains(reference, d.identifier), declarations, d);
    }
    r
  }

  /** Matching works declaration by declaration, keeping their order. */
  lemma MatchingConcat(reference: string, a: seq<DonorDeclaration>, b: seq<DonorDeclaration>)
    ensures Matching(reference, a + b) == Matching(reference, a) + Matching(reference, b)
  {
    FilterConcat((d: DonorDeclaration) => Contains(reference, d.identifier), a, b);
  }

  /** One declaration matches once, when its identifier occurs in the reference. */
  lemma MatchingOne(reference: string, d: DonorDeclaration)
    ensures Matching(reference, [d]) == if Contains(reference, d.identifier) then [d] else []
  {
    assert [d][1..] == [];
  }

  function DonorNames(declarations: seq<DonorDeclaration>): (r: seq<string>)
    ensures |r| == |declarations|
    ensures forall k :: 0 <= k < |r| ==> r[k] == DonorName(declarations[k])
  {
    seq(|declarations|, k requires 0 <= k < |declarations| => DonorName(declarations[k]))
  }

  /** What the transactions log says about one row. */
  datatype RowOutcome =
    | NoAmount
    | NegativeAmount
    | NotDetected
    | Detected(donorName: string)
    | NotEligible(donorName: string, reason: TransactionEligibility)
    | MultipleDonors(donorNames: seq<string>)

  /** A line of the transactions log: the row's number, its reference, and what was decided. */
  datatype LogEntry = LogEntry(rowIndex: int, reference: string, outcome: RowOutcome)

  /** A line of the log of transactions that need manual handling. */
  datatype ManualEntry = ManualEntry(xlsxRowIndex: int, rowIndex: int, donorNames: seq<string>)

  /** What processing one row adds to the two logs and to the transactions. */
  datatype RowStep = RowStep(log: LogEntry, manual: seq<ManualEntry>, appended: seq<GiftAidableTransaction>)

  /** `_first_table_row_index + row_index - 2`: the schedule row the manual log names. */
  function XlsxRowAsWritten(rowIndex: int): int
  {
    FirstTableRowIndex + rowIndex - 2
  }

  /** The manual-log line a transactions-log line calls for: one for each ambiguous row. */
  function ManualFor(e: LogEntry): (r: seq<ManualEntry>)
    ensures |r| <= 1 && (r != [] <==> e.outcome.MultipleDonors?)
  {
    if e.outcome.MultipleDonors? then [ManualEntry(XlsxRowAsWritten(e.rowIndex), e.rowIndex, e.outcome.donorNames)]
    else []
  }

  /** The manual log that goes with a transactions log. */
  function ManualOf(log: seq<LogEntry>): seq<ManualEntry>
  {
    if log == [] then [] else ManualOf(log[..|log| - 1]) + ManualFor(log[|log| - 1])
  }

  predicate AddsTransaction(e: LogEntry)
  {
    e.outcome.Detected? || e.outcome.MultipleDonors?
  }

  /** The rows the loop passes over without the cap check (`continue`). */
  predicate IsSkipped(e: LogEntry)
  {
    e.outcome.NoAmount? || e.outcome.NegativeAmount?
  }

  /**
   * A transaction the schedule may hold: a non-negative amount, and a
   * declaration, when it names one, from the declarations given that
   * covers the transaction's date.
   */
  predicate Justified(t: GiftAidableTransaction, declarations: seq<DonorDeclaration>)
  {
    && t.amount >= 0.0
    && (t.donorDeclaration.Some? ==>
          var d := t.donorDeclaration.value;
          d in declarations && CutoffDefined(d) && Covers(d, FourYearsBefore(d.declarationDate).value, t.transactionDate))
  }

  /**
   * One iteration of `_do_filtering_with_logging` for the row numbered
   * `rowIndex`; None where the eligibility check raises. A transaction
   * with several possible donors is kept without a declaration and also
   * goes to the manual log.
   */
  function StepOf(row: Transactions.TransactionRow, rowIndex: int, declarations: seq<DonorDeclaration>)
    : (r: Option<RowStep>)
    ensures var matches := Matching(row.CleanedReference(), declarations);
      r.None? <==> row.amount.Some? && row.amount.value >= 0.0 && |matches| == 1 && !CutoffDefined(matches[0])
    ensures r.Some? ==> var step := r.value;
      && step.log.rowIndex == rowIndex && step.log.reference == row.reference
      && (step.log.outcome == NoAmount <==> row.amount.None?)
      && (step.log.outcome == NegativeAmount <==> row.amount.Some? && row.amount.value < 0.0)
      && (step.log.outcome == NotDetected <==>
            row.amount.Some? && row.amount.value >= 0.0 && Matching(row.CleanedReference(), declarations) == [])
      && (step.log.outcome.NotEligible? ==> step.log.outcome.reason != IsGiftAidable)
      && (step.appended != [] <==> AddsTransaction(step.log))
      && |step.appended| <= 1
      && (step.manual != [] <==> step.log.outcome.MultipleDonors?)
      && step.manual == ManualFor(step.log)
      && (step.log.outcome.MultipleDonors? ==>
            step.log.outcome.donorNames == DonorNames(Matching(row.CleanedReference(), declarations)))
      && (forall t :: t in step.appended ==>
            && Justified(t, declarations)
            && t.transactionDate == row.transactionDate && row.amount == Some(t.amount)
            && (t.donorDeclaration.None? <==> step.log.outcome.MultipleDonors?)
            && (t.donorDeclaration.Some? ==> Contains(row.CleanedReference(), t.donorDeclaration.value.identifier)))
  {
    if row.amount.None? then Some(RowStep(LogEntry(rowIndex, row.reference, NoAmount), [], []))
    else if row.amount.value < 0.0 then Some(RowStep(LogEntry(rowIndex, row.reference, NegativeAmount), [], []))
    else
      var matches := Matching(row.CleanedReference(), declarations);
      if |matches| == 0 then Some(RowStep(LogEntry(rowIndex, row.reference, NotDetected), [], []))
      else if |matches| == 1 then
        var declaration := matches[0];
        match DetermineEligibility(row, declaration)
        case None => None
        case Some(eligibility) =>
          if eligibility == IsGiftAidable then
            var t := FromTransactionRow(row, Some(declaration)).value;
            Some(RowStep(LogEntry(rowIndex, row.reference, Detected(DonorName(declaration))), [], [t]))
          else
            Some(RowStep(LogEntry(rowIndex, row.reference, NotEligible(DonorName(declaration), eligibility)), [], []))
      else
        var names := DonorNames(matches);
        var t := FromTransactionRow(row, None).value;
        Some(RowStep(LogEntry(rowIndex, row.reference, MultipleDonors(names)),
                     [ManualEntry(XlsxRowAsWritten(rowIndex), rowIndex, names)], [t]))
  }

  /**
   * The decision for a row with an amount of at least zero: two or more
   * matching declarations keep the transaction without a declaration and
   * log the donors' names; a single match keeps it, bound to that
   * declaration, exactly when the declaration covers its date, and
   * otherwise logs the reason the eligibility check gives.
   */
  lemma StepOfDecides(row: Transactions.TransactionRow, rowIndex: int, declarations: seq<DonorDeclaration>)
    ensures var (matches, r) := (Matching(row.CleanedReference(), declarations), StepOf(row, rowIndex, declarations));
      row.amount.Some? && row.amount.value >= 0.0 && |matches| >= 2 ==>
        && r.Some? && r.value.log.outcome == MultipleDonors(DonorNames(matches))
        && |r.value.appended| == 1 && r.value.appended[0].donorDeclaration.None?
    ensures var (matches, r) := (Matching(row.CleanedReference(), declarations), StepOf(row, rowIndex, declarations));
      row.amount.Some? && row.amount.value >= 0.0 && |matches| == 1 && CutoffDefined(matches[0]) ==>
        var (d, cutoff) := (matches[0], FourYearsBefore(matches[0].declarationDate).value);
        && r.Some?
        && (r.value.appended != [] <==> Covers(d, cutoff, row.transactionDate))
        && (r.value.appended != [] ==>
              r.value.appended[0].donorDeclaration == Some(d) && r.value.log.outcome == Detected(DonorName(d)))
        && (r.value.appended == [] ==>
              r.value.log.outcome == NotEligible(DonorName(d), DetermineEligibility(row, d).value))
  {
  }

  /** The transactions kept and the two logs written so far. */
  datatype Progress = Progress(
    transactions: seq<GiftAidableTransaction>,
    log: seq<LogEntry>,
    manual: seq<ManualEntry>)

  /** How the loop ends: all rows done, stopped at the schedule's capacity, or raised. */
  datatype Filtered =
    | Finished(progress: Progress)
    | Capped(progress: Progress, lastRowIndex: int)
    | Raised(progress: Progress)

  /**
   * The loop of `_do_filtering_with_logging` over the remaining `rows`,
   * the first of them numbered `rowIndex`, from what `p` holds.
   */
  function Filtering(rows: seq<Transactions.TransactionRow>, declarations: seq<DonorDeclaration>,
                     rowIndex: int, p: Progress): Filtered
    decreases |rows|
  {
    if rows == [] then Finished(p)
    else match StepOf(rows[0], rowIndex, declarations)
      case None => Raised(p)
      case Some(step) =>
        var q := Progress(p.transactions + step.appended, p.log + [step.log], p.manual + step.manual);
        if !IsSkipped(step.log) && |q.transactions| == ScheduleCapacity then Capped(q, rowIndex)
        else Filtering(rows[1..], declarations, rowIndex + 1, q)
  }

  /** The start of a run: nothing kept, both logs empty. */
  function Start(): Progress
  {
    Progress([], [], [])
  }

  /**
   * `_do_filtering_with_logging`: rows are numbered from 2 (the header
   * is row 1), and the loop stops after the row that brings the
   * transactions kept to the schedule's capacity. Its result is
   * `Filtering` from an empty start, which `FilteringFromStart` bounds.
   */
  method DoFilteringWithLogging(rows: seq<Transactions.TransactionRow>, declarations: seq<DonorDeclaration>)
    returns (outcome: Filtered)
    ensures outcome == Filtering(rows, declarations, 2, Start())
  {
    var transactions: seq<GiftAidableTransaction> := [];
    var log: seq<LogEntry> := [];
    var manual: seq<ManualEntry> := [];
    var stopped := false;
    var i := 0;
    while i < |rows|
      invariant 0 <= i <= |rows| && !stopped
      invariant Filtering(rows[i..], declarations, i + 2, Progress(transactions, log, manual))
             == Filtering(rows, declarations, 2, Start())
    {
      var rowIndex := i + 2;
      var step := StepOf(rows[i], rowIndex, declarations);
      FilteringAt(rows, declarations, i, Progress(transactions, log, manual));
      if step.None? {
        outcome := Raised(Progress(transactions, log, manual));
        stopped := true;
        break;
      }
      transactions := transactions + step.value.appended;
      log := log + [step.value.log];
      manual := manual + step.value.manual;
      if !IsSkipped(step.value.log) && |transactions| == ScheduleCapacity {
        outcome := Capped(Progress(transactions, log, manual), rowIndex);
        stopped := true;
        break;
      }
      i := i + 1;
    }
    if !stopped {
      outcome := Finished(Progress(transactions, log, manual));
    }
  }

  /** What `Filtering` does with the first of the remaining rows. */
  lemma FilteringOneRow(rows: seq<Transactions.TransactionRow>, declarations: seq<DonorDeclaration>,
                        rowIndex: int, p: Progress)
    requires rows != []
    ensures StepOf(rows[0], rowIndex, declarations).None? ==> Filtering(rows, declarations, rowIndex, p) == Raised(p)
    ensures StepOf(rows[0], rowIndex, declarations).Some? ==>
      var step := StepOf(rows[0], rowIndex, declarations).value;
      var q := Progress(p.transactions + step.appended, p.log + [step.log], p.manual + step.manual);
      Filtering(rows, declarations, rowIndex, p) ==
        if !IsSkipped(step.log) && |q.transactions| == ScheduleCapacity then Capped(q, rowIndex)
        else Filtering(rows[1..], declarations, rowIndex + 1, q)
  {
  }

  /** `FilteringOneRow` for the rows left from index `i`, numbered from `i + 2`. */
  lemma FilteringAt(rows: seq<Transactions.TransactionRow>, declarations: seq<DonorDeclaration>, i: int, p: Progress)
    requires 0 <= i < |rows|
    ensures StepOf(rows[i], i + 2, declarations).None? ==> Filtering(rows[i..], declarations, i + 2, p) == Raised(p)
    ensures StepOf(rows[i], i + 2, declarations).Some? ==>
      var step := StepOf(rows[i], i + 2, declarations).value;
      var q := Progress(p.transactions + step.appended, p.log + [step.log], p.manual + step.manual);
      Filtering(rows[i..], declarations, i + 2, p) ==
        if !IsSkipped(step.log) && |q.transactions| == ScheduleCapacity then Capped(q, i + 2)
        else Filtering(rows[i + 1..], declarations, i + 3, q)
  {
    assert rows[i..][0] == rows[i] && rows[i..][1..] == rows[i + 1..];
    FilteringOneRow(rows[i..], declarations, i + 2, p);
  }

  // ---------------------------------------------------------------------
  // What the filtering loop guarantees

  /**
   * `_write_transactions_to_output_workbook` writes the k-th transaction
   * kept to schedule row `FirstTableRowIndex + k`; a manual entry that
   * points at the row holding its transaction names a row holding one
   * kept without a declaration.
   */
  predicate ManualEntryPointsAtItsRow(m: ManualEntry, transactions: seq<GiftAidableTransaction>)
  {
    && 0 <= m.xlsxRowIndex - FirstTableRowIndex < |transactions|
    && transactions[m.xlsxRowIndex - FirstTableRowIndex].donorDeclaration.None?
  }

  /**
   * What holds of the kept transactions and the logs at every point of
   * the loop: one transaction per log line that adds one, every
   * transaction justified, and the manual log made of exactly the
   * ambiguous lines of the transactions log, in order.
   */
  predicate Consistent(p: Progress, declarations: seq<DonorDeclaration>)
  {
    && |p.transactions| == |Filter(AddsTransaction, p.log)|
    && (forall k :: 0 <= k < |p.transactions| ==> Justified(p.transactions[k], declarations))
    && p.manual == ManualOf(p.log)
  }

  /** One step keeps `Consistent`. */
  lemma StepKeepsConsistent(row: Transactions.TransactionRow, rowIndex: int,
                            declarations: seq<DonorDeclaration>, p: Progress)
    requires Consistent(p, declarations)
    requires StepOf(row, rowIndex, declarations).Some?
    ensures var step := StepOf(row, rowIndex, declarations).value;
      Consistent(Progress(p.transactions + step.appended, p.log + [step.log], p.manual + step.manual), declarations)
  {
    var step := StepOf(row, rowIndex, declarations).value;
    var ts := p.transactions + step.appended;
    FilterConcat(AddsTransaction, p.log, [step.log]);
    assert [step.log][1..] == [];
    assert forall k :: 0 <= k < |ts| ==> ts[k] in p.transactions || ts[k] in step.appended;
    forall k | 0 <= k < |p.transactions| ensures ts[k] == p.transactions[k] {
    }
    var log := p.log + [step.log];
    assert log[..|log| - 1] == p.log;
  }

  /**
   * Over the whole loop: `Consistent` is kept, and the kept transactions
   * never exceed the schedule's capacity and reach it exactly when the
   * loop stops early.
   */
  lemma {:induction false} FilteringKeepsConsistent(rows: seq<Transactions.TransactionRow>,
                                                    declarations: seq<DonorDeclaration>, rowIndex: int, p: Progress)
    requires Consistent(p, declarations) && |p.transactions| < ScheduleCapacity
    ensures var r := Filtering(rows, declarations, rowIndex, p);
      && Consistent(r.progress, declarations)
      && |r.progress.transactions| <= ScheduleCapacity
      && (r.Capped? <==> |r.progress.transactions| == ScheduleCapacity)
    decreases |rows|
  {
    if rows != [] {
      var step := StepOf(rows[0], rowIndex, declarations);
      if step.Some? {
        StepKeepsConsistent(rows[0], rowIndex, declarations, p);
        var q := Progress(p.transactions + step.value.appended, p.log + [step.value.log], p.manual + step.value.manual);
        if !(!IsSkipped(step.value.log) && |q.transactions| == ScheduleCapacity) {
          assert |q.transactions| < ScheduleCapacity;
          FilteringKeepsConsistent(rows[1..], declarations, rowIndex + 1, q);
        }
      }
    }
  }

  /**
   * Over the whole loop the transactions log gets at most one line per
   * row, one for every row when the loop runs to the end, and the lines
   * already written stay.
   */
  lemma {:induction false} FilteringExtendsLog(rows: seq<Transactions.TransactionRow>,
                                               declarations: seq<DonorDeclaration>, rowIndex: int, p: Progress)
    ensures var r := Filtering(rows, declarations, rowIndex, p);
      && |p.log| <= |r.progress.log| <= |p.log| + |rows|
      && (r.Finished? ==> |r.progress.log| == |p.log| + |rows|)
      && r.progress.log[..|p.log|] == p.log
    decreases |rows|
  {
    if rows != [] {
      var step := StepOf(rows[0], rowIndex, declarations);
      if step.Some? {
        var q := Progress(p.transactions + step.value.appended, p.log + [step.value.log], p.manual + step.value.manual);
        assert q.log[..|p.log|] == p.log;
        if !(!IsSkipped(step.value.log) && |q.transactions| == ScheduleCapacity) {
          FilteringExtendsLog(rows[1..], declarations, rowIndex + 1, q);
          var r := Filtering(rows[1..], declarations, rowIndex + 1, q);
          assert r.progress.log[..|p.log|] == q.log[..|p.log|];
        }
      }
    }
  }

  /** The first line the loop adds is the first row's. */
  lemma FilteringFirstLine(rows: seq<Transactions.TransactionRow>, declarations: seq<DonorDeclaration>,
                           rowIndex: int, p: Progress)
    requires rows != [] && |p.log| < |Filtering(rows, declarations, rowIndex, p).progress.log|
    ensures StepOf(rows[0], rowIndex, declarations).Some?
    ensures Filtering(rows, declarations, rowIndex, p).progress.log[|p.log|] == StepOf(rows[0], rowIndex, declarations).value.log
  {
    FilteringOneRow(rows, declarations, rowIndex, p);
    var step := StepOf(rows[0], rowIndex, declarations).value;
    var q := Progress(p.transactions + step.appended, p.log + [step.log], p.manual + step.manual);
    if !(!IsSkipped(step.log) && |q.transactions| == ScheduleCapacity) {
      FilteringExtendsLog(rows[1..], declarations, rowIndex + 1, q);
      var r := Filtering(rows[1..], declarations, rowIndex + 1, q);
      assert r.progress.log[|p.log|] == r.progress.log[..|q.log|][|p.log|];
    }
  }

  /** Once the loop has added more than one line, it went on past the first row. */
  lemma FilteringGoesOn(rows: seq<Transactions.TransactionRow>, declarations: seq<DonorDeclaration>,
                        rowIndex: int, p: Progress)
    requires rows != [] && |p.log| + 1 < |Filtering(rows, declarations, rowIndex, p).progress.log|
    ensures StepOf(rows[0], rowIndex, declarations).Some?
    ensures var step := StepOf(rows[0], rowIndex, declarations).value;
      var q := Progress(p.transactions + step.appended, p.log + [step.log], p.manual + step.manual);
      Filtering(rows, declarations, rowIndex, p) == Filtering(rows[1..], declarations, rowIndex + 1, q)
  {
    FilteringOneRow(rows, declarations, rowIndex, p);
  }

  /** The line the loop adds at position `k` of the transactions log is row `k`'s. */
  lemma {:induction false} FilteringNumbersRow(rows: seq<Transactions.TransactionRow>,
                                               declarations: seq<DonorDeclaration>, rowIndex: int, p: Progress, k: int)
    requires |p.log| <= k < |Filtering(rows, declarations, rowIndex, p).progress.log|
    ensures k - |p.log| < |rows|
    ensures var e := Filtering(rows, declarations, rowIndex, p).progress.log[k];
      e.rowIndex == rowIndex + (k - |p.log|) && e.reference == rows[k - |p.log|].reference
    decreases |rows|
  {
    FilteringExtendsLog(rows, declarations, rowIndex, p);
    if k == |p.log| {
      FilteringFirstLine(rows, declarations, rowIndex, p);
    } else {
      FilteringGoesOn(rows, declarations, rowIndex, p);
      var step := StepOf(rows[0], rowIndex, declarations).value;
      var q := Progress(p.transactions + step.appended, p.log + [step.log], p.manual + step.manual);
      FilteringNumbersRow(rows[1..], declarations, rowIndex + 1, q, k);
      assert rows[1..][k - |q.log|] == rows[k - |p.log|];
    }
  }

  lemma FilteringFromStart(rows: seq<Transactions.TransactionRow>, declarations: seq<DonorDeclaration>, outcome: Filtered)
    requires outcome == Filtering(rows, declarations, 2, Start())
    ensures |outcome.progress.transactions| <= ScheduleCapacity
    ensures outcome.Capped? ==> |outcome.progress.transactions| == ScheduleCapacity
    ensures outcome.Finished? ==> |outcome.progress.log| == |rows|
    ensures forall t :: t in outcome.progress.transactions ==> Justified(t, declarations)
    ensures |outcome.progress.transactions| == |Filter(AddsTransaction, outcome.progress.log)|
    ensures outcome.progress.manual == ManualOf(outcome.progress.log)
    ensures |outcome.progress.log| <= |rows|
    ensures forall k :: 0 <= k < |outcome.progress.log| ==>
      outcome.progress.log[k].rowIndex == k + 2 && outcome.progress.log[k].reference == rows[k].reference
  {
    FilteringKeepsConsistent(rows, declarations, 2, Start());
    FilteringExtendsLog(rows, declarations, 2, Start());
    ConsistentJustifies(outcome.progress, declarations);
    FilteringNumbersAll(rows, declarations, 2, Start(), outcome.progress.log);
  }

  lemma ConsistentJustifies(p: Progress, declarations: seq<DonorDeclaration>)
    requires Consistent(p, declarations)
    ensures forall t :: t in p.transactions ==> Justified(t, declarations)
  {
  }

  /** From an empty log, line `k` of the transactions log is row `k`'s, numbered from `rowIndex`. */
  lemma {:induction false} FilteringNumbersAll(rows: seq<Transactions.TransactionRow>, declarations: seq<DonorDeclaration>,
                                               rowIndex: int, p: Progress, log: seq<LogEntry>)
    requires p.log == [] && log == Filtering(rows, declarations, rowIndex, p).progress.log
    ensures |log| <= |rows|
    ensures forall k :: 0 <= k < |log| ==> log[k].rowIndex == rowIndex + k && log[k].reference == rows[k].reference
  {
    FilteringExtendsLog(rows, declarations, rowIndex, p);
    forall k | 0 <= k < |log|
      ensures log[k].rowIndex == rowIndex + k && log[k].reference == rows[k].reference
    {
      LogLineNumbersRow(rows, declarations, rowIndex, p, log, k);
    }
  }

  lemma LogLineNumbersRow(rows: seq<Transactions.TransactionRow>, declarations: seq<DonorDeclaration>,
                          rowIndex: int, p: Progress, log: seq<LogEntry>, k: int)
    requires p.log == [] && log == Filtering(rows, declarations, rowIndex, p).progress.log
    requires 0 <= k < |log|
    ensures k < |rows| && log[k].rowIndex == rowIndex + k && log[k].reference == rows[k].reference
  {
    FilteringNumbersRow(rows, declarations, rowIndex, p, k);
  }

  /** A run over fewer rows than the schedule holds is never cut short. */
  lemma {:induction false} FewRowsAreNeverCapped(rows: seq<Transactions.TransactionRow>,
                                                 declarations: seq<DonorDeclaration>, rowIndex: int, p: Progress)
    requires |p.transactions| + |rows| < ScheduleCapacity
    ensures !Filtering(rows, declarations, rowIndex, p).Capped?
    decreases |rows|
  {
    if rows != [] {
      var step := StepOf(rows[0], rowIndex, declarations);
      if step.Some? {
        var q := Progress(p.transactions + step.value.appended, p.log + [step.value.log], p.manual + step.value.manual);
        FewRowsAreNeverCapped(rows[1..], declarations, rowIndex + 1, q);
      }
    }
  }

  /**
   * The manual log names schedule row `25 + row_index - 2`, counting CSV
   * rows, while the transaction is written at `25 +` its place among the
   * transactions kept. A first row without an amount and a second with two
   * possible donors show the difference: the only transaction kept is
   * written to row 25, and the manual log names row 26, which holds none.
   */
  lemma ManualRowCountsCsvRows(rows: seq<Transactions.TransactionRow>, declarations: seq<DonorDeclaration>)
    requires |rows| == 2
    requires rows[0].amount.None?
    requires rows[1].amount.Some? && rows[1].amount.value >= 0.0
    requires |Matching(rows[1].CleanedReference(), declarations)| >= 2
    ensures var r := Filtering(rows, declarations, 2, Start());
      && r.Finished?
      && |r.progress.transactions| == 1 && r.progress.transactions[0].donorDeclaration.None?
      && r.progress.manual == [ManualEntry(FirstTableRowIndex + 1, 3, DonorNames(Matching(rows[1].CleanedReference(), declarations)))]
      && !ManualEntryPointsAtItsRow(r.progress.manual[0], r.progress.transactions)
  {
    var step0 := StepOf(rows[0], 2, declarations).value;
    var p := Progress([], [step0.log], []);
    assert rows[1..][0] == rows[1] && |rows[1..][1..]| == 0;
    var step1 := StepOf(rows[1], 3, declarations).value;
    assert step1.log.outcome.MultipleDonors?;
    var q := Progress(step1.appended, [step0.log, step1.log], step1.manual);
    assert Filtering(rows[1..][1..], declarations, 4, q) == Finished(q);
    assert p.transactions + step1.appended == q.transactions;
    assert p.log + [step1.log] == q.log;
    assert p.manual + step1.manual == q.manual;
    assert Filtering(rows[1..], declarations, 3, p) == Finished(q);
    assert step0.log.outcome == NoAmount && step0.appended == [] && step0.manual == [];
    assert Start().log + [step0.log] == p.log;
    assert Filtering(rows, declarations, 2, Start()) == Finished(q);
  }

  /**
   * A declaration whose identifier has no letters (digits only, say) is
   * cleaned to the empty string, which occurs in every reference: it
   * matches every transaction.
   */
  lemma IdentifierWithoutLettersMatchesEverything(row: Declarations.DeclarationRow, reference: string)
    requires forall i :: 0 <= i < |row.identifier| ==> !IsAsciiLetter(row.identifier[i]) && row.identifier[i] < '\U{80}'
    ensures var d := FromDeclarationRow(row); d.identifier == [] && d in Matching(reference, [d])
  {
    CleanKeyOfNonLetters(row.identifier);
    EmptyIsContained(reference);
  }
}
