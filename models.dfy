/**
 * The records the rest of the program works with (models.py): a donor's
 * declaration with its identifier normalised, and a transaction that can
 * carry gift aid.
 */
module Models {
  import opened Wrappers
  import opened Text
  import opened Dates
  import opened KeyCleaning
  import Declarations = ParseDeclarationsCsv
  import Transactions = ParseTransactionsCsv

  /** `DonorDeclaration`. */
  datatype DonorDeclaration = DonorDeclaration(
    title: string,
    firstName: string,
    lastName: string,
    houseNameOrNumber: string,
    postcode: string,
    declarationDate: Date,
    validFourYearsBeforeDeclaration: bool,
    validDayOfDeclaration: bool,
    validAfterDayOfDeclaration: bool,
    identifier: string)

  predicate IsNonEmpty(s: string) { s != [] }

  /**
   * `DonorDeclaration.donor_name`: title, first name and last name, the
   * empty ones left out, separated by single spaces.
   */
  function DonorName(d: DonorDeclaration): (r: string)
  {
    Join(" ", Filter(IsNonEmpty, [d.title, d.firstName, d.lastName]))
  }

  lemma {:induction false} JoinOfThree(a: string, b: string, c: string)
    ensures Join(" ", [a, b, c]) == a + " " + b + " " + c
  {
    assert [a, b, c][1..] == [b, c];
    assert [b, c][1..] == [c];
  }

  lemma {:induction false} JoinOfTwo(a: string, b: string)
    ensures Join(" ", [a, b]) == a + " " + b
  {
    assert [a, b][1..] == [b];
  }

  lemma {:induction false} FilterOfThree(a: string, b: string, c: string)
    ensures Filter(IsNonEmpty, [a, b, c])
      == (if a != [] then [a] else []) + (if b != [] then [b] else []) + (if c != [] then [c] else [])
  {
    assert [a, b, c] == [a, b] + [c] && [a, b] == [a] + [b];
    FilterConcat(IsNonEmpty, [a, b], [c]);
    FilterConcat(IsNonEmpty, [a], [b]);
    assert [a][1..] == [] && [b][1..] == [] && [c][1..] == [];
  }

  /**
   * The donor name spelt out: the non-empty parts in order, one space
   * between each two of them, and no space at either end.
   */
  lemma DonorNameParts(d: DonorDeclaration)
    ensures var (t, f, l) := (d.title, d.firstName, d.lastName);
      && (t != [] && f != [] && l != [] ==> DonorName(d) == t + " " + f + " " + l)
      && (t == [] && f != [] && l != [] ==> DonorName(d) == f + " " + l)
      && (t != [] && f == [] && l != [] ==> DonorName(d) == t + " " + l)
      && (t != [] && f != [] && l == [] ==> DonorName(d) == t + " " + f)
      && (t == [] && f == [] ==> DonorName(d) == l)
      && (t == [] && l == [] ==> DonorName(d) == f)
      && (f == [] && l == [] ==> DonorName(d) == t)
  {
    var (t, f, l) := (d.title, d.firstName, d.lastName);
    FilterOfThree(t, f, l);
    assert [t] + [f] + [l] == [t, f, l] && [t] + [f] == [t, f] && [t] + [l] == [t, l] && [f] + [l] == [f, l];
    JoinOfThree(t, f, l);
    JoinOfTwo(f, l);
    JoinOfTwo(t, l);
    JoinOfTwo(t, f);
  }

  /** `DonorDeclaration.from_declaration_row`: the identifier is cleaned, the other nine fields copied. */
  function FromDeclarationRow(row: Declarations.DeclarationRow): (d: DonorDeclaration)
    ensures d.identifier == CleanKey(row.identifier)
    ensures && d.title == row.title && d.firstName == row.firstName && d.lastName == row.lastName
            && d.houseNameOrNumber == row.houseNumberOrName && d.postcode == row.postcode
            && d.declarationDate == row.declarationDate
            && d.validFourYearsBeforeDeclaration == row.validFourYearsBeforeDeclaration
            && d.validDayOfDeclaration == row.validDayOfDeclaration
            && d.validAfterDayOfDeclaration == row.validAfterDayOfDeclaration
  {
    DonorDeclaration(
      row.title, row.firstName, row.lastName, row.houseNumberOrName, row.postcode,
      row.declarationDate,
      row.validFourYearsBeforeDeclaration, row.validDayOfDeclaration, row.validAfterDayOfDeclaration,
      CleanKey(row.identifier))
  }

  /**
   * A declaration's identifier is already in the form references are
   * compared in: a–z only, and cleaning it again changes nothing.
   */
  lemma DeclarationIdentifierIsClean(row: Declarations.DeclarationRow)
    ensures var id := FromDeclarationRow(row).identifier;
      (forall i :: 0 <= i < |id| ==> IsAsciiLower(id[i])) && CleanKey(id) == id
  {
    CleanKeyIdempotent(row.identifier);
  }

  /**
   * A declaration from a parsed row always has a first and a last name,
   * so its donor name is "first last", with the title in front when there
   * is one.
   */
  lemma DonorNameOfParsedRow(row: Declarations.DeclarationRow)
    requires Declarations.ValidDeclarationRow(row)
    ensures var d := FromDeclarationRow(row);
      DonorName(d) == if row.title == [] then row.firstName + " " + row.lastName
                      else row.title + " " + row.firstName + " " + row.lastName
  {
    DonorNameParts(FromDeclarationRow(row));
  }

  /** `GiftAidableTransaction`; amounts are exact decimals. */
  datatype GiftAidableTransaction = GiftAidableTransaction(
    transactionDate: Date,
    amount: real,
    donorDeclaration: Option<DonorDeclaration>)

  /** The `ValueError` raised for a transaction without a usable amount. */
  datatype ModelError = NotGiftAidable(amount: Option<real>)

  /**
   * `GiftAidableTransaction.from_transaction_row`: a row without an amount
   * or with a negative one is refused; zero is accepted.
   */
  function FromTransactionRow(row: Transactions.TransactionRow, declaration: Option<DonorDeclaration>)
    : (r: Result<GiftAidableTransaction, ModelError>)
    ensures r.Success? <==> row.amount.Some? && row.amount.value >= 0.0
    ensures r.Success? ==>
      && r.value.transactionDate == row.transactionDate
      && Some(r.value.amount) == row.amount
      && r.value.donorDeclaration == declaration
    ensures r.Failure? ==> r.error == NotGiftAidable(row.amount)
  {
    if row.amount.None? || row.amount.value < 0.0 then Failure(NotGiftAidable(row.amount))
    else Success(GiftAidableTransaction(row.transactionDate, row.amount.value, declaration))
  }
}
