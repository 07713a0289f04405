/**
 * The patient-record validator (`validate_patient` in
 * src/menus/menu_utils.rs): four checks in a fixed order, the first failing
 * one reported.
 */
module MenuUtils {
  import opened Wrappers
  import opened Models

  /** `char::is_whitespace`: the characters with the Unicode White_Space property. */
  predicate IsWhitespace(c: char) {
    || '\t' <= c <= '\r'
    || c == ' '
    || c == '\U{0085}'
    || c == '\U{00A0}'
    || c == '\U{1680}'
    || '\U{2000}' <= c <= '\U{200A}'
    || c == '\U{2028}'
    || c == '\U{2029}'
    || c == '\U{202F}'
    || c == '\U{205F}'
    || c == '\U{3000}'
  }

  /** `str::trim_start`: drops the leading whitespace. */
  function TrimStart(s: string): (t: string)
    ensures |t| <= |s| && t == s[|s| - |t|..]
    ensures forall i :: 0 <= i < |s| - |t| ==> IsWhitespace(s[i])
    ensures t != [] ==> !IsWhitespace(t[0])
  {
    if s != [] && IsWhitespace(s[0]) then TrimStart(s[1..]) else s
  }

  /** `str::trim_end`: drops the trailing whitespace. */
  function TrimEnd(s: string): (t: string)
    ensures |t| <= |s| && t == s[..|t|]
    ensures forall i :: |t| <= i < |s| ==> IsWhitespace(s[i])
    ensures t != [] ==> !IsWhitespace(t[|t| - 1])
  {
    if s != [] && IsWhitespace(s[|s| - 1]) then TrimEnd(s[..|s| - 1]) else s
  }

  /** `str::trim`. */
  function Trim(s: string): string {
    TrimEnd(TrimStart(s))
  }

  /** A name is blank when every one of its characters is whitespace (the empty name included). */
  predicate IsBlank(s: string) {
    forall i :: 0 <= i < |s| ==> IsWhitespace(s[i])
  }

  /** Trimming leaves nothing exactly when the string is blank. */
  lemma TrimEmptyIffBlank(s: string)
    ensures Trim(s) == [] <==> IsBlank(s)
  {
  }

  const FirstNameEmpty := "First name cannot be empty"
  const LastNameEmpty := "Last name cannot be empty"
  const NegativeDosage := "Dosage rates cannot be negative"
  const ThresholdOrder := "Low glucose threshold must be less than high glucose threshold"

  /** What a record that passes validation looks like. */
  predicate WellFormed(p: Patient) {
    && !IsBlank(p.first_name)
    && !IsBlank(p.last_name)
    && p.basal_rate >= 0.0 && p.bolus_rate >= 0.0 && p.max_dosage >= 0.0
    && p.low_glucose_threshold < p.high_glucose_threshold
  }

  /**
   * `validate_patient`: blank first name, then blank last name, then a
   * negative dosage, then an inverted threshold pair; the first failing check
   * is reported, and a record passes exactly when it is well formed.
   */
  function ValidatePatient(p: Patient): (r: Result<(), string>)
    ensures r == Failure(FirstNameEmpty) <==> IsBlank(p.first_name)
    ensures r == Failure(LastNameEmpty) <==> !IsBlank(p.first_name) && IsBlank(p.last_name)
    ensures r == Failure(NegativeDosage) <==>
      && !IsBlank(p.first_name) && !IsBlank(p.last_name)
      && (p.basal_rate < 0.0 || p.bolus_rate < 0.0 || p.max_dosage < 0.0)
    ensures r == Failure(ThresholdOrder) <==>
      && !IsBlank(p.first_name) && !IsBlank(p.last_name)
      && p.basal_rate >= 0.0 && p.bolus_rate >= 0.0 && p.max_dosage >= 0.0
      && p.low_glucose_threshold >= p.high_glucose_threshold
    ensures r.Success? <==> WellFormed(p)
  {
    TrimEmptyIffBlank(p.first_name);
    TrimEmptyIffBlank(p.last_name);
    if Trim(p.first_name) == [] then Failure(FirstNameEmpty)
    else if Trim(p.last_name) == [] then Failure(LastNameEmpty)
    else if p.basal_rate < 0.0 || p.bolus_rate < 0.0 || p.max_dosage < 0.0 then Failure(NegativeDosage)
    else if p.low_glucose_threshold >= p.high_glucose_threshold then Failure(ThresholdOrder)
    else Success(())
  }
}
