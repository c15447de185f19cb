/**
 * Digit and letter checks over a whole string. char.IsDigit and char.IsLetter are
 * the framework's Unicode tables and are passed in.
 */
module StringMatch {
  import opened Wrappers

  /** The specification of IsNumeric: a present, non-empty string of digits. */
  predicate Numeric(value: Option<string>, isDigit: char -> bool)
  {
    value.Some? && |value.value| > 0 && forall k :: 0 <= k < |value.value| ==> isDigit(value.value[k])
  }

  /** The specification of IsAlphaNumeric: a present, non-empty string of digits and letters. */
  predicate AlphaNumeric(value: Option<string>, isDigit: char -> bool, isLetter: char -> bool)
  {
    value.Some? && |value.value| > 0 &&
    forall k :: 0 <= k < |value.value| ==> isDigit(value.value[k]) || isLetter(value.value[k])
  }

  /** IsNumeric: scans until the first character that is not a digit. */
  method IsNumeric(value: Option<string>, isDigit: char -> bool) returns (r: bool)
    ensures r == Numeric(value, isDigit)
    ensures value.None? || value == Some("") ==> !r
  {
    if value.None? || |value.value| == 0 {
      return false;
    }
    var s := value.value;
    var i := 0;
    while i < |s|
      invariant 0 <= i <= |s|
      invariant forall k :: 0 <= k < i ==> isDigit(s[k])
    {
      if !isDigit(s[i]) {
        return false;
      }
      i := i + 1;
    }
    return true;
  }

  /** IsAlphaNumeric: scans until the first character that is neither a digit nor a letter. */
  method IsAlphaNumeric(value: Option<string>, isDigit: char -> bool, isLetter: char -> bool) returns (r: bool)
    ensures r == AlphaNumeric(value, isDigit, isLetter)
    ensures value.None? || value == Some("") ==> !r
  {
    if value.None? || |value.value| == 0 {
      return false;
    }
    var s := value.value;
    var i := 0;
    while i < |s|
      invariant 0 <= i <= |s|
      invariant forall k :: 0 <= k < i ==> isDigit(s[k]) || isLetter(s[k])
    {
      if !(isDigit(s[i]) || isLetter(s[i])) {
        return false;
      }
      i := i + 1;
    }
    return true;
  }

  /** Every numeric string is alphanumeric. */
  lemma NumericIsAlphaNumeric(value: Option<string>, isDigit: char -> bool, isLetter: char -> bool)
    requires Numeric(value, isDigit)
    ensures AlphaNumeric(value, isDigit, isLetter)
  {
  }

  /**
   * The unit-test strings, under the usual Unicode classification of their
   * characters: "h98802-44" is neither numeric nor alphanumeric because of '-',
   * "000988024400" is both, "000988ACCX024400" is alphanumeric but not numeric,
   * and "   \t\n" is neither.
   */
  lemma MatchExamples(isDigit: char -> bool, isLetter: char -> bool)
    requires !isDigit('-') && !isLetter('-') && !isDigit(' ') && !isLetter(' ') && !isDigit('A')
    requires forall c :: c in "0123456789" ==> isDigit(c)
    requires forall c :: c in "ACX" ==> isLetter(c)
    ensures !Numeric(Some("h98802-44"), isDigit) && !AlphaNumeric(Some("h98802-44"), isDigit, isLetter)
    ensures Numeric(Some("000988024400"), isDigit) && AlphaNumeric(Some("000988024400"), isDigit, isLetter)
    ensures !Numeric(Some("000988ACCX024400"), isDigit) && AlphaNumeric(Some("000988ACCX024400"), isDigit, isLetter)
    ensures !Numeric(Some("   \t\n"), isDigit) && !AlphaNumeric(Some("   \t\n"), isDigit, isLetter)
  {
    assert "h98802-44"[6] == '-';
    assert "000988ACCX024400"[6] == 'A';
    assert "   \t\n"[0] == ' ';
  }
}
