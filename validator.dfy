/**
 * The record validator of the service-hours tracker (is_row_corrupted): a raw
 * CSV row is a sequence of text fields in the order student name, date,
 * hours, status. The checks run in a fixed order and the first failing one is
 * the one reported.
 */
module Validator {
  import opened Wrappers
  import opened Text
  import opened Numbers

  /** The four required columns, in the order the empty-field checks visit them. */
  datatype Column = Name | Date | Hours | Status
  {
    function Label(): string
    {
      match this
      case Name => "student name"
      case Date => "date"
      case Hours => "hours"
      case Status => "status"
    }
  }

  /** Why a row is corrupted; the text fields carry the trimmed field the message quotes. */
  datatype Reason =
    | MissingColumns(found: nat)
    | EmptyField(column: Column)
    | InvalidDate(date: string)
    | NegativeHours(hours: string)
    | InvalidHours(hours: string)
    | InvalidStatus(status: string)

  /** Four digits, hyphen, two digits, hyphen, two digits; no calendar check. */
  predicate IsDatePattern(s: string)
  {
    && |s| == 10
    && IsDigit(s[0]) && IsDigit(s[1]) && IsDigit(s[2]) && IsDigit(s[3]) && s[4] == '-'
    && IsDigit(s[5]) && IsDigit(s[6]) && s[7] == '-'
    && IsDigit(s[8]) && IsDigit(s[9])
  }

  predicate IsStatusLiteral(s: string)
  {
    EqualsIgnoringCase(s, "true") || EqualsIgnoringCase(s, "false")
  }

  /** All four columns exist and none is blank after trimming. */
  predicate AllPresent(row: seq<string>)
  {
    |row| >= 4 && Trim(row[0]) != [] && Trim(row[1]) != [] && Trim(row[2]) != [] && Trim(row[3]) != []
  }

  /**
   * What a well-formed row is, stated without any order of checks: four columns,
   * a name, a date of the right shape, a non-negative number of hours and a
   * status that case-folds to true or false.
   */
  predicate WellFormed(row: seq<string>)
  {
    && |row| >= 4
    && Trim(row[0]) != []
    && IsDatePattern(Trim(row[1]))
    && ParseDecimal(Trim(row[2])).Some?
    && ParseDecimal(Trim(row[2])).value >= 0.0
    && IsStatusLiteral(Trim(row[3]))
  }

  /** The number of hours a well-formed row records. */
  function HoursOf(row: seq<string>): (h: real)
    requires WellFormed(row)
    ensures h >= 0.0
  {
    ParseDecimal(Trim(row[2])).value
  }

  /** The first check a row fails, or None when it passes them all. */
  function FirstViolation(row: seq<string>): (r: Option<Reason>)
    ensures r.None? <==> WellFormed(row)
  {
    if |row| < 4 then Some(MissingColumns(|row|))
    else
      var name, date, hours, status := Trim(row[0]), Trim(row[1]), Trim(row[2]), Trim(row[3]);
      if name == [] then Some(EmptyField(Name))
      else if date == [] then Some(EmptyField(Date))
      else if hours == [] then Some(EmptyField(Hours))
      else if status == [] then Some(EmptyField(Status))
      else if !IsDatePattern(date) then Some(InvalidDate(date))
      else match ParseDecimal(hours)
        case None => Some(InvalidHours(hours))
        case Some(h) =>
          if h < 0.0 then Some(NegativeHours(hours))
          else if !IsStatusLiteral(status) then Some(InvalidStatus(status))
          else None
  }

  /**
   * Which reason is reported: each one exactly when every earlier check passed
   * and its own check fails, in the order too few columns, blank name, blank
   * date, blank hours, blank status, date shape, unparsable hours, negative
   * hours, status literal.
   */
  lemma FirstViolationReports(row: seq<string>)
    ensures FirstViolation(row).Some? && FirstViolation(row).value.MissingColumns? <==> |row| < 4
    ensures FirstViolation(row).Some? && FirstViolation(row).value.MissingColumns? ==> FirstViolation(row).value.found == |row|
    ensures FirstViolation(row) == Some(EmptyField(Name)) <==> |row| >= 4 && Trim(row[0]) == []
    ensures FirstViolation(row) == Some(EmptyField(Date)) <==> |row| >= 4 && Trim(row[0]) != [] && Trim(row[1]) == []
    ensures FirstViolation(row) == Some(EmptyField(Hours)) <==>
      |row| >= 4 && Trim(row[0]) != [] && Trim(row[1]) != [] && Trim(row[2]) == []
    ensures FirstViolation(row) == Some(EmptyField(Status)) <==>
      |row| >= 4 && Trim(row[0]) != [] && Trim(row[1]) != [] && Trim(row[2]) != [] && Trim(row[3]) == []
    ensures FirstViolation(row).Some? && !FirstViolation(row).value.MissingColumns? && !FirstViolation(row).value.EmptyField?
      ==> AllPresent(row)
    ensures AllPresent(row) ==>
      (FirstViolation(row) == Some(InvalidDate(Trim(row[1]))) <==> !IsDatePattern(Trim(row[1])))
    ensures AllPresent(row) && IsDatePattern(Trim(row[1])) ==>
      (FirstViolation(row) == Some(InvalidHours(Trim(row[2]))) <==> ParseDecimal(Trim(row[2])).None?)
    ensures AllPresent(row) && IsDatePattern(Trim(row[1])) ==>
      (FirstViolation(row) == Some(NegativeHours(Trim(row[2]))) <==>
        ParseDecimal(Trim(row[2])).Some? && ParseDecimal(Trim(row[2])).value < 0.0)
    ensures AllPresent(row) && IsDatePattern(Trim(row[1])) && ParseDecimal(Trim(row[2])).Some?
            && ParseDecimal(Trim(row[2])).value >= 0.0 ==>
      (FirstViolation(row) == Some(InvalidStatus(Trim(row[3]))) <==> !IsStatusLiteral(Trim(row[3])))
  {
  }

  /** The row label: "Row" alone without a number, otherwise "Row " and the number in decimal. */
  function RowInfo(rowNumber: Option<nat>): (s: string)
    ensures rowNumber.None? ==> s == "Row"
    ensures rowNumber.Some? ==>
      |s| > 4 && s[..4] == "Row " && AllDigits(s[4..]) && DigitsValue(s[4..]) == rowNumber.value
      && (s[4] == '0' ==> rowNumber.value == 0)
  {
    match rowNumber
    case None => "Row"
    case Some(n) =>
      assert ("Row " + NatToString(n))[4..] == NatToString(n);
      assert ("Row " + NatToString(n))[4] == NatToString(n)[0];
      "Row " + NatToString(n)
  }

  function Describe(reason: Reason): string
  {
    match reason
    case MissingColumns(n) => "Missing columns (expected 4, found " + NatToString(n) + ")"
    case EmptyField(c) => "Missing or empty " + c.Label()
    case InvalidDate(d) => "Invalid date format '" + d + "' (expected YYYY-MM-DD)"
    case NegativeHours(h) => "Hours cannot be negative (" + h + ")"
    case InvalidHours(h) => "Invalid hours value '" + h + "' (must be a number)"
    case InvalidStatus(s) => "Invalid status '" + s + "' (must be 'true' or 'false')"
  }

  /**
   * is_row_corrupted: (true, message naming the row and the first failed check)
   * for a corrupted row, (false, "") for a well-formed one.
   */
  function IsRowCorrupted(row: seq<string>, rowNumber: Option<nat>): (r: (bool, string))
    ensures r.0 <==> !WellFormed(row)
    ensures !r.0 ==> r.1 == []
    ensures r.0 ==> |r.1| > |RowInfo(rowNumber)| + 2 && r.1[..|RowInfo(rowNumber)| + 2] == RowInfo(rowNumber) + ": "
  {
    match FirstViolation(row)
    case None => (false, "")
    case Some(reason) =>
      var info := RowInfo(rowNumber);
      assert (info + ": " + Describe(reason))[..|info| + 2] == info + ": ";
      (true, info + ": " + Describe(reason))
  }

  /** A short row is reported with the number of fields it actually has, whatever they hold. */
  lemma MissingColumnsReported(row: seq<string>, rowNumber: Option<nat>)
    requires |row| < 4
    ensures IsRowCorrupted(row, rowNumber) ==
      (true, RowInfo(rowNumber) + ": " + Describe(MissingColumns(|row|)))
    ensures Describe(MissingColumns(|row|)) ==
      "Missing columns (expected 4, found " + NatToString(|row|) + ")"
    ensures DigitsValue(NatToString(|row|)) == |row|
  {
  }

  /** A fully blank row: only the first blank field, the student name, is reported. */
  lemma BlankRowReportsName()
    ensures IsRowCorrupted(["", "", "", ""], Some(1)) ==
      (true, RowInfo(Some(1)) + ": " + Describe(EmptyField(Name)))
    ensures RowInfo(Some(1)) == "Row 1"
    ensures Describe(EmptyField(Name)) == "Missing or empty student name"
  {
    var row := ["", "", "", ""];
    assert Trim(row[0]) == [];
    assert FirstViolation(row) == Some(EmptyField(Name));
    assert NatToString(1) == "1";
  }

  /** The date check is purely syntactic: month 13, day 40 is accepted. */
  lemma NoCalendarCheck()
    ensures WellFormed(["Ann", "2024-13-40", "2", "true"])
  {
    var row := ["Ann", "2024-13-40", "2", "true"];
    assert Trim(row[0]) == "Ann";
    assert Trim(row[1]) == "2024-13-40";
    assert IsDatePattern(Trim(row[1]));
    assert Trim(row[2]) == "2";
    DigitsHaveNoPoint("2");
    assert ParseDecimal(Trim(row[2])) == Some(2.0);
    assert Trim(row[3]) == "true";
    assert IsStatusLiteral(Trim(row[3]));
  }

  /** A date field that is not of the YYYY-MM-DD shape is reported with its text. */
  lemma BadDateReported()
    ensures FirstViolation(["Bob", "x", "1", "true"]) == Some(InvalidDate("x"))
  {
    var row := ["Bob", "x", "1", "true"];
    assert Trim(row[0]) == "Bob" && Trim(row[1]) == "x" && Trim(row[2]) == "1" && Trim(row[3]) == "true";
  }

  /** Zero hours is accepted; any parseable negative amount is reported as negative. */
  lemma ZeroAcceptedNegativeRejected(row: seq<string>, n: nat)
    requires AllPresent(row) && IsDatePattern(Trim(row[1])) && IsStatusLiteral(Trim(row[3]))
    ensures Trim(row[2]) == "0" ==> FirstViolation(row).None?
    ensures n > 0 && Trim(row[2]) == "-" + NatToString(n) ==>
      FirstViolation(row) == Some(NegativeHours(Trim(row[2])))
  {
    if Trim(row[2]) == "0" {
      assert NatToString(0) == "0";
      ParseNatRendering(0);
    }
    ParseNegatedNatRendering(n);
  }
}
