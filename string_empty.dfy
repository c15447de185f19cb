/**
 * Null, empty and white-space predicates on optional strings. char.IsWhiteSpace
 * is the framework's Unicode table and is passed in as `isWhiteSpace`.
 */
module StringEmpty {
  import opened Wrappers

  /** IsNullOrEmpty: string.IsNullOrEmpty. */
  predicate IsNullOrEmpty(value: Option<string>)
  {
    value.None? || |value.value| == 0
  }

  /** IsNotNullOrEmpty. */
  predicate IsNotNullOrEmpty(value: Option<string>)
  {
    !IsNullOrEmpty(value)
  }

  /** Every character of `s` is white space. */
  predicate AllWhiteSpace(s: string, isWhiteSpace: char -> bool)
  {
    forall k :: 0 <= k < |s| ==> isWhiteSpace(s[k])
  }

  /** IsNullOrWhiteSpace: string.IsNullOrWhiteSpace (null, empty, or white space only). */
  predicate IsNullOrWhiteSpace(value: Option<string>, isWhiteSpace: char -> bool)
  {
    value.None? || AllWhiteSpace(value.value, isWhiteSpace)
  }

  /** IsNotNullOrWhiteSpace. */
  predicate IsNotNullOrWhiteSpace(value: Option<string>, isWhiteSpace: char -> bool)
  {
    !IsNullOrWhiteSpace(value, isWhiteSpace)
  }

  /** IsNull. */
  predicate IsNull(value: Option<string>)
  {
    value.None?
  }

  /** IsNotNull. */
  predicate IsNotNull(value: Option<string>)
  {
    !(value.None?)
  }

  /** IsEmpty: a string that is present and has no characters. */
  predicate IsEmpty(value: Option<string>)
  {
    value.Some? && |value.value| == 0
  }

  /** IsNotEmpty: the negation of IsEmpty, so it holds for null. */
  predicate IsNotEmpty(value: Option<string>)
  {
    !IsEmpty(value)
  }

  /** How the small predicates relate to each other and to null. */
  lemma EmptinessPredicates(value: Option<string>, isWhiteSpace: char -> bool)
    ensures IsNullOrEmpty(value) <==> value == None || value == Some("")
    ensures IsNotNullOrEmpty(value) <==> !IsNullOrEmpty(value)
    ensures IsEmpty(value) <==> value == Some("")
    ensures IsNotEmpty(None) && !IsEmpty(None)
    ensures IsNull(value) <==> !IsNotNull(value)
    ensures IsNullOrEmpty(value) ==> IsNullOrWhiteSpace(value, isWhiteSpace)
    ensures IsNotNullOrWhiteSpace(value, isWhiteSpace) <==> !IsNullOrWhiteSpace(value, isWhiteSpace)
  {
  }

  /** The specification of IsOnlyWhiteSpace: a present, non-empty string of white space. */
  predicate OnlyWhiteSpace(value: Option<string>, isWhiteSpace: char -> bool)
  {
    value.Some? && |value.value| > 0 && AllWhiteSpace(value.value, isWhiteSpace)
  }

  /** IsOnlyWhiteSpace: an indexed scan that stops at the first non-white-space character. */
  method IsOnlyWhiteSpace(value: Option<string>, isWhiteSpace: char -> bool) returns (r: bool)
    ensures r <==> value.Some? && |value.value| > 0 && forall k :: 0 <= k < |value.value| ==> isWhiteSpace(value.value[k])
    ensures r == OnlyWhiteSpace(value, isWhiteSpace)
  {
    if value.None? || |value.value| == 0 {
      return false;
    }
    var s := value.value;
    for index := 0 to |s|
      invariant forall k :: 0 <= k < index ==> isWhiteSpace(s[k])
    {
      if !isWhiteSpace(s[index]) {
        return false;
      }
    }
    return true;
  }

  /** IsNotOnlyWhiteSpace: the negation, so it holds for null and for "". */
  method IsNotOnlyWhiteSpace(value: Option<string>, isWhiteSpace: char -> bool) returns (r: bool)
    ensures r <==> !OnlyWhiteSpace(value, isWhiteSpace)
    ensures value.None? || value == Some("") ==> r
  {
    var only := IsOnlyWhiteSpace(value, isWhiteSpace);
    r := !only;
  }

  /** IsOnlyWhiteSpace is IsNullOrWhiteSpace without the null and empty cases. */
  lemma OnlyWhiteSpaceIff(value: Option<string>, isWhiteSpace: char -> bool)
    ensures OnlyWhiteSpace(value, isWhiteSpace) <==> IsNullOrWhiteSpace(value, isWhiteSpace) && !IsNullOrEmpty(value)
  {
  }
}
