/**
 * Parsing of the transactions file (logic/parsing/parse_transactions_csv.py):
 * amounts, single rows, the header and the loop over the data rows. Rows
 * arrive already split into cells; reading the file is not modelled.
 */
module ParseTransactionsCsv {
  import opened Wrappers
  import opened Text
  import opened Dates
  import opened KeyCleaning
  import opened RowErrors

  const FileName: string := "transactions.csv"

  /** U+2212 MINUS SIGN, which some bank statements use for negative amounts. */
  const TrueMinus: char := '\U{2212}'

  // ---------------------------------------------------------------------
  // Amounts

  /** The characters `_clean_amount_string` keeps: `\d`, `-` and `.`. */
  predicate IsAmountChar(c: char)
  {
    IsAsciiDigit(c) || c == '-' || c == '.'
  }

  function ReplaceTrueMinus(s: string): (r: string)
    ensures |r| == |s|
    ensures forall i :: 0 <= i < |s| ==> r[i] == (if s[i] == TrueMinus then '-' else s[i])
  {
    seq(|s|, i requires 0 <= i < |s| => if s[i] == TrueMinus then '-' else s[i])
  }

  /** `_clean_amount_string`: true minus to hyphen, then drop everything but digits, `-` and `.`. */
  function CleanAmountString(s: string): (r: string)
    ensures |r| <= |s|
    ensures forall i :: 0 <= i < |r| ==> IsAmountChar(r[i])
  {
    Filter(IsAmountChar, ReplaceTrueMinus(s))
  }

  lemma CleanAmountConcat(a: string, b: string)
    ensures CleanAmountString(a + b) == CleanAmountString(a) + CleanAmountString(b)
  {
    assert ReplaceTrueMinus(a + b) == ReplaceTrueMinus(a) + ReplaceTrueMinus(b);
    FilterConcat(IsAmountChar, ReplaceTrueMinus(a), ReplaceTrueMinus(b));
  }

  /** Text made only of digits, `-` and `.` is left as it is by cleaning. */
  lemma CleanAmountKeepsAmountText(s: string)
    requires forall i :: 0 <= i < |s| ==> IsAmountChar(s[i])
    ensures CleanAmountString(s) == s
  {
    assert ReplaceTrueMinus(s) == s;
    FilterKeepsAll(IsAmountChar, s);
  }

  /** Cleaning is idempotent. */
  lemma CleanAmountIdempotent(s: string)
    ensures CleanAmountString(CleanAmountString(s)) == CleanAmountString(s)
  {
    CleanAmountKeepsAmountText(CleanAmountString(s));
  }

  /** A true minus and a hyphen clean to the same text. */
  lemma CleanAmountTrueMinusIsHyphen(a: string, b: string)
    ensures CleanAmountString(a + [TrueMinus] + b) == CleanAmountString(a + "-" + b)
  {
    CleanAmountConcat(a + [TrueMinus], b);
    CleanAmountConcat(a, [TrueMinus]);
    CleanAmountConcat(a + "-", b);
    CleanAmountConcat(a, "-");
    assert ReplaceTrueMinus([TrueMinus]) == "-";
  }

  /** A character other than a digit, `-`, `.` or a true minus (a currency sign, say) is dropped. */
  lemma CleanAmountDropsOther(a: string, c: char, b: string)
    requires !IsAmountChar(c) && c != TrueMinus
    ensures CleanAmountString(a + [c] + b) == CleanAmountString(a + b)
  {
    CleanAmountConcat(a + [c], b);
    CleanAmountConcat(a, [c]);
    CleanAmountConcat(a, b);
    assert ReplaceTrueMinus([c]) == [c];
  }

  predicate HasDigit(t: string)
  {
    exists i :: 0 <= i < |t| && IsAsciiDigit(t[i])
  }

  /** No two decimal points. */
  predicate AtMostOnePoint(t: string)
  {
    forall i, j :: 0 <= i < j < |t| && t[i] == '.' ==> t[j] != '.'
  }

  /** The value of the numeral `whole.fraction`. */
  function NumeralValue(whole: string, fraction: string): (r: real)
    requires AllDigits(whole) && AllDigits(fraction)
    ensures r >= 0.0
  {
    DigitsValue(whole) as real + DigitsValue(fraction) as real / Pow10(|fraction|) as real
  }

  /**
   * The value `Decimal` gives a numeral `D+(.D*)?` or `.D+` (D a digit), or
   * None for any other text.
   */
  function UnsignedDecimalValue(t: string): (r: Option<real>)
    ensures r.Some? ==> r.value >= 0.0 && HasDigit(t) && AtMostOnePoint(t)
    ensures r.Some? ==> forall i :: 0 <= i < |t| ==> IsAsciiDigit(t[i]) || t[i] == '.'
    ensures r.Some? ==> forall i :: 0 <= i < |t| ==> t[i] != '-'
  {
    var p := IndexOf(t, '.');
    if p == |t| then
      if |t| > 0 && AllDigits(t) then
        assert IsAsciiDigit(t[0]);
        Some(NumeralValue(t, ""))
      else None
    else
      var whole := t[..p];
      var fraction := t[p + 1..];
      if AllDigits(whole) && AllDigits(fraction) && (|whole| > 0 || |fraction| > 0) then
        assert |whole| > 0 ==> IsAsciiDigit(t[0]);
        assert |whole| == 0 ==> IsAsciiDigit(t[p + 1]);
        assert forall i :: p < i < |t| ==> t[i] == fraction[i - p - 1];
        Some(NumeralValue(whole, fraction))
      else None
  }

  /** `Decimal(t)` on cleaned text: an optional leading `-` and an unsigned numeral. */
  function DecimalValue(t: string): (r: Option<real>)
    ensures r.Some? ==> HasDigit(t) && AtMostOnePoint(t)
    ensures r.Some? ==> forall i :: 0 <= i < |t| ==> IsAmountChar(t[i])
    ensures r.Some? ==> forall i :: 0 < i < |t| ==> t[i] != '-'
    ensures r.Some? ==> (r.value < 0.0 ==> t[0] == '-')
  {
    if |t| > 0 && t[0] == '-' then
      match UnsignedDecimalValue(t[1..])
      case Some(v) =>
        assert forall i :: 0 < i < |t| ==> t[i] == t[1..][i - 1];
        Some(-v)
      case None => None
    else UnsignedDecimalValue(t)
  }

  /** `decimal.InvalidOperation`, raised for the cleaned text. */
  datatype AmountError = InvalidOperation(cleaned: string)

  /**
   * `_parse_transaction_amount`: None when the cleaned text holds no digit
   * (bank statements write valueless rows as "--"); otherwise the decimal
   * value, or InvalidOperation.
   */
  function ParseTransactionAmount(s: string): (r: Result<Option<real>, AmountError>)
    ensures r == Success(None) <==> !HasDigit(CleanAmountString(s))
    ensures r.Failure? ==> r.error == InvalidOperation(CleanAmountString(s))
    ensures r.Failure? <==> HasDigit(CleanAmountString(s)) && DecimalValue(CleanAmountString(s)).None?
    ensures r.Success? && r.value.Some? ==> DecimalValue(CleanAmountString(s)) == r.value
  {
    var cleaned := CleanAmountString(s);
    if !HasDigit(cleaned) then Success(None)
    else match DecimalValue(cleaned)
      case Some(v) => Success(Some(v))
      case None => Failure(InvalidOperation(cleaned))
  }

  /** A cleaned amount with a digit and two decimal points is always refused ("5.0.0"). */
  lemma TwoPointsRefused(s: string, i: int, j: int)
    requires HasDigit(CleanAmountString(s))
    requires 0 <= i < j < |CleanAmountString(s)|
    requires CleanAmountString(s)[i] == '.' && CleanAmountString(s)[j] == '.'
    ensures ParseTransactionAmount(s).Failure?
  {
  }

  /** A cleaned amount with a digit and a `-` anywhere but first is always refused. */
  lemma InnerMinusRefused(s: string, i: int)
    requires HasDigit(CleanAmountString(s))
    requires 0 < i < |CleanAmountString(s)| && CleanAmountString(s)[i] == '-'
    ensures ParseTransactionAmount(s).Failure?
  {
  }

  /** `amount` pence written as `Decimal` prints it with two places: [-]W.FF. */
  function FormatPence(pence: int): (s: string)
    ensures forall i :: 0 <= i < |s| ==> IsAmountChar(s[i])
  {
    var magnitude := if pence < 0 then -pence else pence;
    var whole := NatToString(magnitude / 100);
    var fraction := ZeroPadded(magnitude % 100, 2);
    var s := (if pence < 0 then "-" else "") + whole + "." + fraction;
    assert forall i :: 0 <= i < |s| ==> IsAmountChar(s[i]) by {
      assert forall i :: 0 <= i < |whole| ==> IsAsciiDigit(whole[i]);
      assert forall i :: 0 <= i < |fraction| ==> IsAsciiDigit(fraction[i]);
    }
    s
  }

  /** `Decimal` reads a string of digits `D+` as its value. */
  lemma UnsignedOfDigits(w: string)
    requires |w| > 0 && AllDigits(w)
    ensures UnsignedDecimalValue(w) == Some(NumeralValue(w, ""))
  {
    assert '.' !in w by {
      assert forall k :: 0 <= k < |w| ==> IsAsciiDigit(w[k]);
    }
  }

  /** `Decimal` reads `D+.D*` and `.D+` as whole part plus fraction. */
  lemma UnsignedOfPointed(whole: string, fraction: string)
    requires |whole| + |fraction| > 0 && AllDigits(whole) && AllDigits(fraction)
    ensures UnsignedDecimalValue(whole + "." + fraction) == Some(NumeralValue(whole, fraction))
  {
    var t := whole + "." + fraction;
    assert '.' !in whole by {
      assert forall k :: 0 <= k < |whole| ==> IsAsciiDigit(whole[k]);
    }
    IndexOfAfter(whole, '.', fraction);
    assert t[..|whole|] == whole;
    assert t[|whole| + 1..] == fraction;
  }

  /** Every text of digits and at most one point, with a digit, is a numeral `Decimal` accepts. */
  lemma UnsignedAccepts(t: string)
    requires forall i :: 0 <= i < |t| ==> IsAsciiDigit(t[i]) || t[i] == '.'
    requires HasDigit(t) && AtMostOnePoint(t)
    ensures UnsignedDecimalValue(t).Some?
  {
    var p := IndexOf(t, '.');
    if p < |t| {
      var whole := t[..p];
      var fraction := t[p + 1..];
      assert AllDigits(whole);
      assert AllDigits(fraction) by {
        forall k | 0 <= k < |fraction| ensures IsAsciiDigit(fraction[k]) {
          assert fraction[k] == t[p + 1 + k];
        }
      }
      var i :| 0 <= i < |t| && IsAsciiDigit(t[i]);
      assert i < p || fraction[i - p - 1] == t[i];
    }
  }

  /**
   * Every cleaned text with a digit, at most one point and no `-` but a
   * leading one is accepted by `Decimal`.
   */
  lemma DecimalAccepts(t: string)
    requires forall i :: 0 <= i < |t| ==> IsAmountChar(t[i])
    requires HasDigit(t) && AtMostOnePoint(t)
    requires forall i :: 0 < i < |t| ==> t[i] != '-'
    ensures DecimalValue(t).Some?
  {
    if t[0] == '-' {
      var u := t[1..];
      assert forall k :: 0 <= k < |u| ==> u[k] == t[k + 1];
      var i :| 0 <= i < |t| && IsAsciiDigit(t[i]);
      assert IsAsciiDigit(u[i - 1]);
      UnsignedAccepts(u);
    } else {
      UnsignedAccepts(t);
    }
  }

  lemma SignedDecimalValue(u: string, negative: bool, v: real, w: real)
    requires UnsignedDecimalValue(u) == Some(v)
    requires w == if negative then -v else v
    ensures DecimalValue((if negative then "-" else "") + u) == Some(w)
    ensures HasDigit((if negative then "-" else "") + u)
  {
    var t := (if negative then "-" else "") + u;
    var i :| 0 <= i < |u| && IsAsciiDigit(u[i]);
    if negative {
      assert t[1..] == u;
      assert IsAsciiDigit(t[i + 1]);
    } else {
      assert t == u;
      assert u[0] != '-';
    }
  }

  lemma PenceValue(magnitude: nat, whole: string, fraction: string)
    requires whole == NatToString(magnitude / 100) && fraction == ZeroPadded(magnitude % 100, 2)
    ensures NumeralValue(whole, fraction) == magnitude as real / 100.0
  {
    var (q, m) := (magnitude / 100, magnitude % 100);
    assert Pow10(|fraction|) == 100 by {
      assert Pow10(2) == 10 * Pow10(1) == 10 * (10 * Pow10(0));
    }
    assert DigitsValue(whole) == q && DigitsValue(fraction) == m;
    RealPence(magnitude, q, m);
  }

  lemma RealPence(magnitude: nat, q: nat, m: nat)
    requires magnitude == 100 * q + m
    ensures q as real + m as real / 100.0 == magnitude as real / 100.0
  {
    assert magnitude as real == 100.0 * q as real + m as real;
  }

  lemma NegatedPence(pence: int, v: real)
    requires v == (if pence < 0 then -pence else pence) as real / 100.0
    ensures (if pence < 0 then -v else v) == pence as real / 100.0
  {
  }

  /** On text that cleaning leaves alone, a decimal value is the parsed amount. */
  lemma ParseOfAmountText(s: string, v: real)
    requires forall i :: 0 <= i < |s| ==> IsAmountChar(s[i])
    requires DecimalValue(s) == Some(v)
    ensures ParseTransactionAmount(s) == Success(Some(v))
  {
    CleanAmountKeepsAmountText(s);
  }

  /** `Decimal` reads an amount printed as [-]W.FF back exactly. */
  lemma DecimalOfFormattedPence(pence: int)
    ensures DecimalValue(FormatPence(pence)) == Some(pence as real / 100.0)
  {
    var u := UnsignedPence(if pence < 0 then -pence else pence);
    FormatPenceIsSigned(pence, u);
    SignedPenceDecimal(pence, u);
  }

  lemma SignedPenceDecimal(pence: int, u: string)
    requires UnsignedDecimalValue(u) == Some((if pence < 0 then -pence else pence) as real / 100.0)
    ensures DecimalValue((if pence < 0 then "-" else "") + u) == Some(pence as real / 100.0)
  {
    var v := (if pence < 0 then -pence else pence) as real / 100.0;
    NegatedPence(pence, v);
    SignedDecimalValue(u, pence < 0, v, pence as real / 100.0);
  }

  /** The digits of `magnitude` pence, W.FF, and their value. */
  lemma UnsignedPence(magnitude: nat) returns (u: string)
    ensures u == NatToString(magnitude / 100) + "." + ZeroPadded(magnitude % 100, 2)
    ensures UnsignedDecimalValue(u) == Some(magnitude as real / 100.0)
  {
    var whole := NatToString(magnitude / 100);
    var fraction := ZeroPadded(magnitude % 100, 2);
    u := whole + "." + fraction;
    UnsignedOfPointed(whole, fraction);
    PenceValue(magnitude, whole, fraction);
  }

  lemma FormatPenceIsSigned(pence: int, u: string)
    requires var magnitude := if pence < 0 then -pence else pence;
      u == NatToString(magnitude / 100) + "." + ZeroPadded(magnitude % 100, 2)
    ensures FormatPence(pence) == (if pence < 0 then "-" else "") + u
  {
  }

  /** Parsing an amount printed as [-]W.FF gives that amount back exactly. */
  lemma ParseFormattedPence(pence: int)
    ensures ParseTransactionAmount(FormatPence(pence)) == Success(Some(pence as real / 100.0))
  {
    DecimalOfFormattedPence(pence);
    ParseOfAmountText(FormatPence(pence), pence as real / 100.0);
  }

  /** A currency sign, or any other character that cleaning drops, does not change the amount. */
  lemma ParseAmountIgnoresOther(a: string, c: char, b: string)
    requires !IsAmountChar(c) && c != TrueMinus
    ensures ParseTransactionAmount(a + [c] + b) == ParseTransactionAmount(a + b)
  {
    CleanAmountDropsOther(a, c, b);
  }

  /** A true minus means the same as a hyphen. */
  lemma ParseAmountTrueMinusIsHyphen(a: string, b: string)
    ensures ParseTransactionAmount(a + [TrueMinus] + b) == ParseTransactionAmount(a + "-" + b)
  {
    CleanAmountTrueMinusIsHyphen(a, b);
  }

  /** The source's tests of valueless amounts. */
  lemma ParseAmountBlankExamples()
    ensures ParseTransactionAmount("") == Success(None)
    ensures ParseTransactionAmount("--") == Success(None)
  {
    CleanAmountKeepsAmountText("--");
    assert !HasDigit("--");
  }

  lemma FormatFivePounds()
    ensures FormatPence(500) == "5.00" && FormatPence(-500) == "-5.00"
  {
    assert NatToString(5) == "5";
    assert ZeroPadded(0, 2) == "00";
  }

  lemma FivePounds(five: string, minusFive: string)
    requires five == "5.00" && minusFive == "-5.00"
    ensures ParseTransactionAmount(five) == Success(Some(5.0))
    ensures ParseTransactionAmount(minusFive) == Success(Some(-5.0))
  {
    FormatFivePounds();
    ParseFormattedPence(500);
    ParseFormattedPence(-500);
  }

  lemma PoundFive(five: string, poundFive: string)
    requires five == "5.00" && poundFive == "£5.00"
    ensures ParseTransactionAmount(poundFive) == ParseTransactionAmount(five)
  {
    OtherFor(poundFive, five, '£', "", five);
  }

  lemma BareFive(bare: string)
    requires bare == "5"
    ensures ParseTransactionAmount(bare) == Success(Some(5.0))
  {
    ParseOfAmountText(bare, 5.0);
  }

  lemma PoundMinusFive(minusFive: string, poundMinus: string)
    requires minusFive == "-5.00" && poundMinus == "£-5.00"
    ensures ParseTransactionAmount(poundMinus) == ParseTransactionAmount(minusFive)
  {
    OtherFor(poundMinus, minusFive, '£', "", minusFive);
  }

  lemma MinusPoundFive(minusFive: string, minusPound: string)
    requires minusFive == "-5.00" && minusPound == "-£5.00"
    ensures ParseTransactionAmount(minusPound) == ParseTransactionAmount(minusFive)
  {
    OtherFor(minusPound, minusFive, '£', "-", "5.00");
  }

  lemma OtherFor(withOther: string, plain: string, c: char, before: string, after: string)
    requires !IsAmountChar(c) && c != TrueMinus
    requires withOther == before + [c] + after && plain == before + after
    ensures ParseTransactionAmount(withOther) == ParseTransactionAmount(plain)
  {
    ParseAmountIgnoresOther(before, c, after);
  }

  lemma TrueMinusFor(withTrueMinus: string, withHyphen: string, before: string, after: string)
    requires withTrueMinus == before + [TrueMinus] + after && withHyphen == before + "-" + after
    ensures ParseTransactionAmount(withTrueMinus) == ParseTransactionAmount(withHyphen)
  {
    ParseAmountTrueMinusIsHyphen(before, after);
  }

  lemma TrueMinusLeading(a: string, a': string)
    requires a == "\U{2212}5.00" && a' == "-5.00"
    ensures ParseTransactionAmount(a) == ParseTransactionAmount(a')
  {
    assert a == [] + [TrueMinus] + "5.00" && a' == [] + "-" + "5.00";
    TrueMinusFor(a, a', [], "5.00");
  }

  lemma TrueMinusBeforePound(b: string, b': string)
    requires b == "\U{2212}£5.00" && b' == "-£5.00"
    ensures ParseTransactionAmount(b) == ParseTransactionAmount(b')
  {
    assert b == [] + [TrueMinus] + "£5.00" && b' == [] + "-" + "£5.00";
    TrueMinusFor(b, b', [], "£5.00");
  }

  lemma TrueMinusAfterPound(c: string, c': string)
    requires c == "£\U{2212}5.00" && c' == "£-5.00"
    ensures ParseTransactionAmount(c) == ParseTransactionAmount(c')
  {
    assert c == "£" + [TrueMinus] + "5.00" && c' == "£" + "-" + "5.00";
    TrueMinusFor(c, c', "£", "5.00");
  }

  /** The source's tests of positive amounts: "5.00", "£5.00" and "5" are all 5. */
  lemma ParsePositiveAmountExamples()
    ensures ParseTransactionAmount("5.00") == Success(Some(5.0))
    ensures ParseTransactionAmount("£5.00") == Success(Some(5.0))
    ensures ParseTransactionAmount("5") == Success(Some(5.0))
  {
    FivePounds("5.00", "-5.00");
    PoundFive("5.00", "£5.00");
    BareFive("5");
  }

  /** The source's tests of negative amounts written with a hyphen, before or after "£". */
  lemma ParseNegativeAmountExamples()
    ensures ParseTransactionAmount("-5.00") == Success(Some(-5.0))
    ensures ParseTransactionAmount("£-5.00") == Success(Some(-5.0))
    ensures ParseTransactionAmount("-£5.00") == Success(Some(-5.0))
  {
    FivePounds("5.00", "-5.00");
    PoundMinusFive("-5.00", "£-5.00");
    MinusPoundFive("-5.00", "-£5.00");
  }

  /** The source's tests of negative amounts written with a true minus, before or after "£". */
  lemma ParseTrueMinusAmountExamples()
    ensures ParseTransactionAmount("\U{2212}5.00") == Success(Some(-5.0))
    ensures ParseTransactionAmount("\U{2212}£5.00") == Success(Some(-5.0))
    ensures ParseTransactionAmount("£\U{2212}5.00") == Success(Some(-5.0))
  {
    ParseNegativeAmountExamples();
    TrueMinusLeading("\U{2212}5.00", "-5.00");
    TrueMinusBeforePound("\U{2212}£5.00", "-£5.00");
    TrueMinusAfterPound("£\U{2212}5.00", "£-5.00");
  }

  /** The source's test of a malformed amount. */
  lemma ParseMalformedAmountExample()
    ensures ParseTransactionAmount("5.0.0").Failure?
  {
    MalformedAmount("5.0.0");
  }

  lemma MalformedAmount(s: string)
    requires s == "5.0.0"
    ensures ParseTransactionAmount(s).Failure?
  {
    assert forall i :: 0 <= i < |s| ==> IsAmountChar(s[i]);
    CleanAmountKeepsAmountText(s);
    assert IsAsciiDigit(s[0]);
    TwoPointsRefused(s, 1, 3);
  }

  // ---------------------------------------------------------------------
  // Rows

  /** `TransactionRow`; `rowIndex` is the row's 1-based position in the file. */
  datatype TransactionRow = TransactionRow(
    transactionDate: Date,
    reference: string,
    amount: Option<real>,
    rowIndex: int)
  {
    /** `cleaned_reference`: the key the declarations' identifiers are looked for in. */
    function CleanedReference(): string
    {
      CleanKey(reference)
    }
  }

  /**
   * `TransactionRow.from_row`: three items, a date in column 1 (stripped
   * before parsing) and an amount in column 3; the reference is kept as it
   * is. The first check that fails decides the error.
   */
  function FromRow(row: seq<string>, rowIndex: int): (r: Result<TransactionRow, RowParsingError>)
    ensures r.Failure? ==> r.error.notes == []
    ensures |row| != 3 <==> r.Failure? && r.error.column.None?
    ensures |row| != 3 ==> r.error.reason == TransactionItemCount(row) && |r.error.reason.items| == |row|
    ensures r.Failure? && r.error.column == Some(1)
        <==> |row| == 3 && ParseUkFormattedDate(Strip(row[0])).None?
    ensures r.Failure? && r.error.column == Some(3)
        <==> |row| == 3 && ParseUkFormattedDate(Strip(row[0])).Some? && ParseTransactionAmount(row[2]).Failure?
    ensures r.Failure? ==> r.error.column in {None, Some(1), Some(3)}
    ensures r.Success? ==>
      && |row| == 3
      && ParseUkFormattedDate(Strip(row[0])) == Some(r.value.transactionDate)
      && ValidDate(r.value.transactionDate)
      && r.value.reference == row[1]
      && ParseTransactionAmount(row[2]) == Success(r.value.amount)
      && r.value.rowIndex == rowIndex
  {
    if |row| != 3 then Failure(Raise(None, TransactionItemCount(row)))
    else match ParseUkFormattedDate(Strip(row[0]))
      case None => Failure(Raise(Some(1), UnparsableDate(row[0])))
      case Some(transactionDate) =>
        match ParseTransactionAmount(row[2])
        case Failure(_) => Failure(Raise(Some(3), UnparsableAmount(row[2])))
        case Success(amount) => Success(TransactionRow(transactionDate, row[1], amount, rowIndex))
  }

  lemma StripOfFormattedDate(d: Date)
    requires ValidDate(d)
    ensures Strip(FormatDayMonthYear(d)) == FormatDayMonthYear(d)
  {
    var s := FormatDayMonthYear(d);
    assert !IsSpace(s[0]) && !IsSpace(s[|s| - 1]);
    assert TrimStart(IsSpace, s) == s;
  }

  /** A row written from a transaction's own date, reference and amount parses back to it. */
  lemma FromRowOfFormatted(d: Date, reference: string, pence: int, rowIndex: int)
    requires ValidDate(d)
    ensures FromRow([FormatDayMonthYear(d), reference, FormatPence(pence)], rowIndex)
         == Success(TransactionRow(d, reference, Some(pence as real / 100.0), rowIndex))
  {
    StripOfFormattedDate(d);
    ParseFormattedDate(d);
    ParseFormattedPence(pence);
  }

  /** A date cell with no "/" in it (an ISO date, say) is reported at column 1. */
  lemma FromRowDateWithoutSlash(row: seq<string>, rowIndex: int)
    requires |row| == 3 && '/' !in Strip(row[0])
    ensures FromRow(row, rowIndex) == Failure(Raise(Some(1), UnparsableDate(row[0])))
  {
    assert IndexOf(Strip(row[0]), '/') == |Strip(row[0])|;
  }

  /** A well-formed row whose amount is "5.0.0" is reported at column 3. */
  lemma FromRowMalformedAmount(d: Date, reference: string, rowIndex: int)
    requires ValidDate(d)
    ensures FromRow([FormatDayMonthYear(d), reference, "5.0.0"], rowIndex)
         == Failure(Raise(Some(3), UnparsableAmount("5.0.0")))
  {
    StripOfFormattedDate(d);
    ParseFormattedDate(d);
    ParseMalformedAmountExample();
  }

  // ---------------------------------------------------------------------
  // The header and the file

  /** The file-level error raised for a header that is not Date, Reference, Amount. */
  datatype FileError = UnexpectedHeaders(headers: seq<string>)

  const ExpectedHeaders: seq<string> := ["date", "reference", "amount"]

  /** `_check_header_row`. */
  function CheckHeaderRow(headers: seq<string>): (r: Outcome<FileError>)
    ensures r.Pass? <==> |headers| == 3 && forall i :: 0 <= i < 3 ==> StripLower(headers[i]) == ExpectedHeaders[i]
    ensures r.Fail? ==> r.error == UnexpectedHeaders(headers)
  {
    if |headers| == 3
       && StripLower(headers[0]) == "date"
       && StripLower(headers[1]) == "reference"
       && StripLower(headers[2]) == "amount"
    then Pass
    else Fail(UnexpectedHeaders(headers))
  }

  /** The headers of the template file are accepted; the same names in another order are not. */
  lemma CheckHeaderRowExamples()
    ensures CheckHeaderRow(["Date", "Reference", "Amount"]).Pass?
    ensures CheckHeaderRow(["Date", "Amount", "Reference"]).Fail?
    ensures CheckHeaderRow(["Date", "Reference"]).Fail?
  {
    StripKeepsTrimmed("Date");
    StripKeepsTrimmed("Reference");
    StripKeepsTrimmed("Amount");
    assert LowerAscii("Amount") == "amount";
    assert LowerAscii("Reference") == "reference";
    assert LowerAscii("Date") == "date";
  }

  /**
   * One pass of the loop in `parse_transactions_file` for the row at
   * `rowIndex`: the loop's own length check (raised without a note), then
   * `from_row`, whose errors leave the loop with a note naming the row, the
   * column and the file.
   */
  function ParseFileRow(row: seq<string>, rowIndex: int): (r: Result<TransactionRow, RowParsingError>)
    ensures r.Success? <==> FromRow(row, rowIndex).Success?
    ensures r.Success? ==> r == FromRow(row, rowIndex)
    ensures r.Failure? && |row| != 3 ==>
      r.error == RowParsingError(None, RowLength(rowIndex, FileName, row), [])
    ensures r.Failure? && |row| == 3 ==>
      && r.error.column.Some?
      && r.error.reason == FromRow(row, rowIndex).error.reason
      && r.error.notes == [RowNote(rowIndex, r.error.column, FileName)]
  {
    if |row| != 3 then Failure(Raise(None, RowLength(rowIndex, FileName, row)))
    else match FromRow(row, rowIndex)
      case Failure(e) => Failure(e.AddNote(RowNote(rowIndex, e.column, FileName)))
      case Success(t) => Success(t)
  }

  /**
   * The row loop of `parse_transactions_file`, over the rows after the
   * header (numbered from 2): every row is parsed in order, and the first
   * row that fails ends the loop with its error.
   */
  method ParseTransactionRows(rows: seq<seq<string>>) returns (r: Result<seq<TransactionRow>, RowParsingError>)
    ensures r.Success? ==>
      && |r.value| == |rows|
      && forall k :: 0 <= k < |rows| ==> ParseFileRow(rows[k], k + 2) == Success(r.value[k])
    ensures r.Failure? ==>
      exists k :: 0 <= k < |rows|
        && (forall j :: 0 <= j < k ==> ParseFileRow(rows[j], j + 2).Success?)
        && ParseFileRow(rows[k], k + 2) == Failure(r.error)
  {
    var transactions: seq<TransactionRow> := [];
    var i := 0;
    while i < |rows|
      invariant 0 <= i <= |rows|
      invariant |transactions| == i
      invariant ParsedPrefix(ParseFileRow, rows, transactions)
    {
      var parsed := ParseFileRow(rows[i], i + 2);
      if parsed.Failure? {
        FailedAfterPrefix(ParseFileRow, rows, transactions, parsed.error);
        return Failure(parsed.error);
      }
      ExtendParsedPrefix(ParseFileRow, rows, transactions, parsed.value);
      transactions := transactions + [parsed.value];
      i := i + 1;
    }
    r := Success(transactions);
  }

  /** Every parsed transaction remembers its own row, numbered from 2 after the header. */
  lemma ParsedRowsAreNumbered(rows: seq<seq<string>>, transactions: seq<TransactionRow>)
    requires |transactions| == |rows|
    requires forall k :: 0 <= k < |rows| ==> ParseFileRow(rows[k], k + 2) == Success(transactions[k])
    ensures forall k :: 0 <= k < |rows| ==>
      |rows[k]| == 3 && transactions[k].rowIndex == k + 2 && transactions[k].reference == rows[k][1]
  {
    forall k | 0 <= k < |rows|
      ensures |rows[k]| == 3 && transactions[k].rowIndex == k + 2 && transactions[k].reference == rows[k][1]
    {
      assert FromRow(rows[k], k + 2) == Success(transactions[k]);
    }
  }
}
