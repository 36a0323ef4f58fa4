/** The HSN code validator: strip the input, check it is all digits, check
    its length, then look it up in the master table. The first failing check
    decides the verdict. The table is passed in rather than read from a
    module-level global. */
module Validator {
  import opened Text
  import opened Wrappers
  import MasterData

  const NotNumericReason := "HSN code must be numeric"
  const LengthReason := "HSN code length must be between 2 and 8 digits"
  const NotFoundReason := "HSN code not found in master data"

  const MinLength := 2
  const MaxLength := 8

  /** The verdict dict: the stripped `code`, the `valid` flag, and the
      `description` key (on success) or the `reason` key (on failure). */
  datatype ValidationResult = ValidationResult(
    code: string,
    valid: bool,
    description: Option<string>,
    reason: Option<string>)

  /** A code that passes both format checks. */
  predicate WellFormedCode(code: string) {
    IsNumeric(code) && MinLength <= |code| <= MaxLength
  }

  function Validate(code: string, table: map<string, string>): (r: ValidationResult)
    ensures r.code == Trim(code)
    // a verdict is valid exactly when both format checks pass and the code is a key
    ensures r.valid <==> WellFormedCode(r.code) && r.code in table
    // exactly one of description and reason is present
    ensures r.valid ==> r.description == Some(table[r.code]) && r.reason == None
    ensures !r.valid ==> r.description == None && r.reason.Some?
    // the numeric check comes first, whatever the length
    ensures !IsNumeric(r.code) ==> r.reason == Some(NotNumericReason)
    ensures IsNumeric(r.code) && !(MinLength <= |r.code| <= MaxLength) ==> r.reason == Some(LengthReason)
    ensures WellFormedCode(r.code) && r.code !in table ==> r.reason == Some(NotFoundReason)
  {
    var code := Trim(code);
    if !IsNumeric(code) then
      ValidationResult(code, false, None, Some(NotNumericReason))
    else if |code| < MinLength || |code| > MaxLength then
      ValidationResult(code, false, None, Some(LengthReason))
    else if code in table then
      ValidationResult(code, true, Some(table[code]), None)
    else
      ValidationResult(code, false, None, Some(NotFoundReason))
  }

  /** The three failure reasons are distinct, so a reason names its stage. */
  lemma ReasonsDistinct()
    ensures NotNumericReason != LengthReason
    ensures LengthReason != NotFoundReason
    ensures NotNumericReason != NotFoundReason
  {
    assert NotNumericReason[9] != LengthReason[9];
    assert LengthReason[9] != NotFoundReason[9];
    assert NotNumericReason[9] != NotFoundReason[9];
  }

  /** Validating the stripped input gives the verdict for the original. */
  lemma ValidateTrimmed(code: string, table: map<string, string>)
    ensures Validate(Trim(code), table) == Validate(code, table)
  {
    TrimIdempotent(code);
  }

  /** Whitespace around the code never changes the verdict. */
  lemma ValidateIgnoresPadding(a: string, code: string, b: string, table: map<string, string>)
    requires AllWhitespace(a) && AllWhitespace(b)
    ensures Validate(a + code + b, table) == Validate(code, table)
  {
    TrimAbsorbsPadding(a, code, b);
  }

  /** Against a table built from master rows, a well-formed code is valid
      exactly when some row carries it, and then its description is the
      stripped description of the last such row. */
  lemma ValidateAgainstRows(code: string, rows: seq<(string, string)>, i: int)
    requires WellFormedCode(Trim(code))
    requires MasterData.IsLastFor(rows, i) && Trim(rows[i].0) == Trim(code)
    ensures Validate(code, MasterData.BuildTable(rows)).valid
    ensures Validate(code, MasterData.BuildTable(rows)).description == Some(Trim(rows[i].1))
  {
    MasterData.LastWriteWins(rows, i);
  }

  /** A well-formed code that no row carries is reported as not found. */
  lemma ValidateMissingFromRows(code: string, rows: seq<(string, string)>)
    requires WellFormedCode(Trim(code))
    requires forall i :: 0 <= i < |rows| ==> Trim(rows[i].0) != Trim(code)
    ensures Validate(code, MasterData.BuildTable(rows)).reason == Some(NotFoundReason)
  {
  }

  // ------------------------------------------------- end-to-end examples

  lemma DigitsAreNumeric(s: string)
    requires |s| > 0 && forall i :: 0 <= i < |s| ==> '0' <= s[i] <= '9'
    ensures IsNumeric(s) && Trim(s) == s
  {
    NumericIsTrimmed(s);
  }

  /** "1010" with {"1010": "Live animals"} is valid with that description. */
  lemma ExampleFound(code: string, table: map<string, string>)
    requires code == "1010" && table == map["1010" := "Live animals"]
    ensures Validate(code, table) == ValidationResult("1010", true, Some("Live animals"), None)
  {
    DigitsAreNumeric(code);
  }

  /** "9999" is well formed but absent from {"1010": "Live animals"}. */
  lemma ExampleNotFound(code: string, table: map<string, string>)
    requires code == "9999" && table == map["1010" := "Live animals"]
    ensures Validate(code, table) == ValidationResult("9999", false, None, Some(NotFoundReason))
  {
    assert code !in table;
    DigitsAreNumeric(code);
  }

  /** "10A0" fails the numeric check. */
  lemma ExampleNotNumeric(code: string, table: map<string, string>)
    requires code == "10A0"
    ensures Validate(code, table) == ValidationResult("10A0", false, None, Some(NotNumericReason))
  {
    assert !IsWhitespace(code[0]) && !IsWhitespace(code[3]);
    TrimmedIffFixpoint(code);
    assert !IsDigit(code[2]);
  }

  /** "1" is numeric but too short. */
  lemma ExampleTooShort(code: string, table: map<string, string>)
    requires code == "1"
    ensures Validate(code, table) == ValidationResult("1", false, None, Some(LengthReason))
  {
    DigitsAreNumeric(code);
  }

  /** An eleven-digit code is numeric but too long. */
  lemma ExampleTooLong(code: string, table: map<string, string>)
    requires code == "99999999999"
    ensures Validate(code, table) == ValidationResult(code, false, None, Some(LengthReason))
  {
    assert |code| == 11;
    assert forall i :: 0 <= i < |code| ==> code[i] == '9';
    DigitsAreNumeric(code);
  }

  /** " 1010 " gets the verdict of "1010". */
  lemma ExamplePadded(code: string, table: map<string, string>)
    requires code == " 1010 "
    ensures Validate(code, table) == Validate("1010", table)
  {
    assert IsWhitespace(' ');
    assert code == " " + "1010" + " ";
    ValidateIgnoresPadding(" ", "1010", " ", table);
  }

  /** Leading zeros are significant: "0101" is not found under key "101". */
  lemma ExampleLeadingZero(code: string, table: map<string, string>)
    requires code == "0101" && table == map["101" := "Horses"]
    ensures Validate(code, table).reason == Some(NotFoundReason)
  {
    assert code !in table;
    DigitsAreNumeric(code);
  }
}
