/** Batch validation behind the POST endpoint: a payload whose `codes` field
    is a string or a list of strings gets one verdict per code, in order; a
    missing, empty or `codes`-less payload gets the error object. */
module Batch {
  import opened Text
  import opened Validator
  import opened Wrappers

  const PayloadError := "Please provide 'codes' array in JSON payload"

  /** The decoded request body, restricted to well-typed `codes` fields. */
  datatype Payload =
    | NoPayload                 // the decoded body is null or empty (`not data`)
    | NoCodes                   // a non-empty body without a `codes` key
    | Single(code: string)      // `codes` is one string
    | Many(codes: seq<string>)  // `codes` is a list of strings

  /** The response body: `{"error": ...}` or `{"results": [...]}`. */
  datatype Response = Error(message: string) | Results(results: seq<ValidationResult>)

  /** The list comprehension: one verdict per code, in input order. */
  function ValidateAll(codes: seq<string>, table: map<string, string>): (rs: seq<ValidationResult>)
    ensures |rs| == |codes|
    ensures forall i :: 0 <= i < |codes| ==> rs[i] == Validate(codes[i], table)
  {
    seq(|codes|, i requires 0 <= i < |codes| => Validate(codes[i], table))
  }

  function ValidateMultiple(payload: Payload, table: map<string, string>): (resp: Response)
    ensures resp.Error? <==> payload.NoPayload? || payload.NoCodes?
    ensures resp.Error? ==> resp.message == PayloadError
    ensures payload.Single? ==> resp == Results([Validate(payload.code, table)])
    ensures payload.Many? ==> resp.Results? && |resp.results| == |payload.codes|
    ensures payload.Many? ==> forall i :: 0 <= i < |payload.codes| ==>
      resp.results[i] == Validate(payload.codes[i], table)
  {
    match payload
    case NoPayload => Error(PayloadError)
    case NoCodes => Error(PayloadError)
    case Single(code) => Results(ValidateAll([code], table))
    case Many(codes) => Results(ValidateAll(codes, table))
  }

  /** A single string is answered as the one-element list holding it. */
  lemma SingleIsOneElementList(code: string, table: map<string, string>)
    ensures ValidateMultiple(Single(code), table) == ValidateMultiple(Many([code]), table)
  {
  }

  /** Each verdict depends on its own code only: validating a concatenation
      concatenates the verdicts. */
  lemma ValidateAllAppend(xs: seq<string>, ys: seq<string>, table: map<string, string>)
    ensures ValidateAll(xs + ys, table) == ValidateAll(xs, table) + ValidateAll(ys, table)
  {
    var l, r := ValidateAll(xs + ys, table), ValidateAll(xs, table) + ValidateAll(ys, table);
    assert |l| == |r|;
    forall i | 0 <= i < |l| ensures l[i] == r[i] {
      if i < |xs| {
        assert (xs + ys)[i] == xs[i];
      } else {
        assert (xs + ys)[i] == ys[i - |xs|];
      }
    }
  }

  /** The number of codes that are well formed and present once stripped. */
  function CountAccepted(codes: seq<string>, table: map<string, string>): nat {
    if codes == [] then 0
    else
      var k := Trim(codes[0]);
      (if WellFormedCode(k) && k in table then 1 else 0) + CountAccepted(codes[1..], table)
  }

  /** The number of verdicts marked valid. */
  function CountValid(rs: seq<ValidationResult>): nat {
    if rs == [] then 0 else (if rs[0].valid then 1 else 0) + CountValid(rs[1..])
  }

  /** A batch reports as many valid verdicts as it has accepted codes. */
  lemma {:induction false} ValidCountMatches(codes: seq<string>, table: map<string, string>)
    ensures CountValid(ValidateAll(codes, table)) == CountAccepted(codes, table)
  {
    if codes != [] {
      var rs := ValidateAll(codes, table);
      assert rs[1..] == ValidateAll(codes[1..], table);
      ValidCountMatches(codes[1..], table);
    }
  }

  /** `{"codes": ["1010", "9999"]}` with only "1010" known: one valid verdict,
      then a not-found one. */
  lemma ExampleBatch(known: string, unknown: string, table: map<string, string>)
    requires known == "1010" && unknown == "9999" && table == map["1010" := "Live animals"]
    ensures ValidateMultiple(Many([known, unknown]), table) == Results([
      ValidationResult("1010", true, Some("Live animals"), None),
      ValidationResult("9999", false, None, Some(NotFoundReason))])
  {
    var rs := ValidateMultiple(Many([known, unknown]), table).results;
    ExampleFound(known, table);
    ExampleNotFound(unknown, table);
    assert |rs| == 2 && rs[0] == Validate(known, table) && rs[1] == Validate(unknown, table);
    assert rs == [rs[0], rs[1]];
  }
}
