/**
 * Equality of a string against a set of candidates under a StringComparison.
 * The candidate set is an enumeration that may be null and may hold nulls.
 */
module StringEqualsExtensions {
  import opened Wrappers
  import opened Globalization
  import opened StringSearch

  /** No candidate before index `i` is null. */
  predicate NoNullBefore(matchSet: seq<Option<string>>, i: int)
    requires 0 <= i <= |matchSet|
  {
    forall j :: 0 <= j < i ==> matchSet[j].Some?
  }

  /** Every candidate before index `i` is present and differs from `value`. */
  predicate NoMatchBefore(fold: char -> char, value: string, matchSet: seq<Option<string>>, i: int)
    requires 0 <= i <= |matchSet|
  {
    forall j :: 0 <= j < i ==> matchSet[j].Some? && !StringEquals(fold, matchSet[j].value, value)
  }

  /**
   * matchSet.Any(s => s.Equals(value, comparison)): walks the candidates in
   * order and stops at the first equal one. A null candidate reached by the walk
   * throws NullReferenceException; the first present candidate reached under an
   * undefined comparison throws ArgumentException.
   */
  function AnyEquals(value: string, comparison: StringComparison, cultures: Cultures, matchSet: seq<Option<string>>): (r: Result<bool>)
    ensures |matchSet| == 0 ==> r == Ok(false)
    ensures FoldOf(comparison, cultures).Err? && |matchSet| > 0 ==>
      r == Err(if matchSet[0].None? then NullReferenceException else ArgumentException)
    ensures FoldOf(comparison, cultures).Ok? ==>
      var fold := FoldOf(comparison, cultures).value;
      (r == Ok(true) <==> exists i :: 0 <= i < |matchSet| && NoMatchBefore(fold, value, matchSet, i) &&
                                       matchSet[i].Some? && StringEquals(fold, matchSet[i].value, value)) &&
      (r == Ok(false) <==> NoMatchBefore(fold, value, matchSet, |matchSet|)) &&
      (r.Err? ==> r.error == NullReferenceException) &&
      (NoNullBefore(matchSet, |matchSet|) ==> r.Ok?)
    decreases |matchSet|
  {
    if |matchSet| == 0 then Ok(false)
    else if matchSet[0].None? then Err(NullReferenceException)
    else
      match FoldOf(comparison, cultures)
      case Err(e) => Err(e)
      case Ok(fold) =>
        if StringEquals(fold, matchSet[0].value, value) then Ok(true)
        else
          var rest := AnyEquals(value, comparison, cultures, matchSet[1..]);
          assert forall i :: 1 <= i <= |matchSet| ==>
            (NoMatchBefore(fold, value, matchSet, i) <==> NoMatchBefore(fold, value, matchSet[1..], i - 1));
          assert forall i :: 1 <= i < |matchSet| ==> matchSet[i] == matchSet[1..][i - 1];
          rest
  }

  /** Some candidate of `matchSet` is present and equal to `value`. */
  predicate HasEqual(fold: char -> char, value: string, matchSet: seq<Option<string>>)
  {
    exists i :: 0 <= i < |matchSet| && matchSet[i].Some? && StringEquals(fold, matchSet[i].value, value)
  }

  /** The walk's verdict in terms of HasEqual. */
  lemma {:induction false} AnyEqualsMeaning(value: string, comparison: StringComparison, cultures: Cultures, matchSet: seq<Option<string>>)
    requires FoldOf(comparison, cultures).Ok?
    ensures AnyEquals(value, comparison, cultures, matchSet) == Ok(true) ==> HasEqual(FoldOf(comparison, cultures).value, value, matchSet)
    ensures NoNullBefore(matchSet, |matchSet|) ==>
      AnyEquals(value, comparison, cultures, matchSet) == Ok(HasEqual(FoldOf(comparison, cultures).value, value, matchSet))
  {
    var r := AnyEquals(value, comparison, cultures, matchSet);
    if r.Ok? && r.value {
      assert r == Ok(true);
      AnyEqualsTrue(value, comparison, cultures, matchSet);
    } else if r.Ok? {
      assert r == Ok(false);
      AnyEqualsFalse(value, comparison, cultures, matchSet);
    }
  }

  /** A true verdict names a present, equal candidate. */
  lemma AnyEqualsTrue(value: string, comparison: StringComparison, cultures: Cultures, matchSet: seq<Option<string>>)
    requires FoldOf(comparison, cultures).Ok? && AnyEquals(value, comparison, cultures, matchSet) == Ok(true)
    ensures HasEqual(FoldOf(comparison, cultures).value, value, matchSet)
  {
    var fold := FoldOf(comparison, cultures).value;
    var i :| 0 <= i < |matchSet| && NoMatchBefore(fold, value, matchSet, i) &&
             matchSet[i].Some? && StringEquals(fold, matchSet[i].value, value);
  }

  /** A false verdict means no candidate is present and equal. */
  lemma AnyEqualsFalse(value: string, comparison: StringComparison, cultures: Cultures, matchSet: seq<Option<string>>)
    requires FoldOf(comparison, cultures).Ok? && AnyEquals(value, comparison, cultures, matchSet) == Ok(false)
    ensures !HasEqual(FoldOf(comparison, cultures).value, value, matchSet)
  {
    assert NoMatchBefore(FoldOf(comparison, cultures).value, value, matchSet, |matchSet|);
  }

  /** EqualsAny(value, comparisonType, matchSet). */
  function EqualsAny(value: Option<string>, comparison: StringComparison, matchSet: Option<seq<Option<string>>>, cultures: Cultures): (r: Result<bool>)
    ensures value.None? || value == Some("") ==> r == Ok(false)
    ensures value.Some? && value != Some("") && matchSet.None? ==> r == Err(ArgumentNullException("matchSet"))
    ensures r == Ok(true) ==>
      (value.Some? && matchSet.Some? && FoldOf(comparison, cultures).Ok? &&
       HasEqual(FoldOf(comparison, cultures).value, value.value, matchSet.value))
    ensures value.Some? && value != Some("") && matchSet.Some? && FoldOf(comparison, cultures).Ok? &&
            NoNullBefore(matchSet.value, |matchSet.value|) ==>
      r == Ok(HasEqual(FoldOf(comparison, cultures).value, value.value, matchSet.value))
    ensures value.Some? && value != Some("") && matchSet.Some? ==> r == AnyEquals(value.value, comparison, cultures, matchSet.value)
  {
    if value.None? || |value.value| == 0 then Ok(false)
    else if matchSet.None? then Err(ArgumentNullException("matchSet"))
    else
      var r := AnyEquals(value.value, comparison, cultures, matchSet.value);
      if FoldOf(comparison, cultures).Ok? then
        AnyEqualsMeaning(value.value, comparison, cultures, matchSet.value);
        r
      else r
  }

  /** EqualsAny(value, matchSet): the comparison defaults to Ordinal, which is plain equality. */
  function EqualsAnyOrdinal(value: Option<string>, matchSet: Option<seq<Option<string>>>, cultures: Cultures): (r: Result<bool>)
    ensures value.None? || value == Some("") ==> r == Ok(false)
    ensures value.Some? && value != Some("") && matchSet.None? ==> r == Err(ArgumentNullException("matchSet"))
    ensures value.Some? && value != Some("") && matchSet.Some? ==>
      (r == Ok(true) <==> exists i :: 0 <= i < |matchSet.value| && PresentAndOtherBefore(value.value, matchSet.value, i) &&
                                       matchSet.value[i] == value) &&
      (r == Ok(false) <==> PresentAndOtherBefore(value.value, matchSet.value, |matchSet.value|)) &&
      (r.Err? ==> r.error == NullReferenceException)
    ensures value.Some? && value != Some("") && matchSet.Some? && NoNullBefore(matchSet.value, |matchSet.value|) ==>
      r == Ok(exists i :: 0 <= i < |matchSet.value| && matchSet.value[i] == value)
  {
    var r := EqualsAny(value, Ordinal, matchSet, cultures);
    OrdinalIsEquality();
    if value.Some? && matchSet.Some? then
      OrdinalNoMatchBefore(value.value, matchSet.value);
      r
    else r
  }

  /** Every candidate before index `i` is present and is not `value`. */
  predicate PresentAndOtherBefore(value: string, matchSet: seq<Option<string>>, i: int)
    requires 0 <= i <= |matchSet|
  {
    forall j :: 0 <= j < i ==> matchSet[j].Some? && matchSet[j].value != value
  }

  /** Under the exact fold, the walk's stopping condition is plain inequality. */
  lemma OrdinalNoMatchBefore(value: string, matchSet: seq<Option<string>>)
    ensures forall i :: 0 <= i <= |matchSet| ==>
      (NoMatchBefore(Exact, value, matchSet, i) <==> PresentAndOtherBefore(value, matchSet, i))
  {
    OrdinalIsEquality();
  }

  /** Under the exact fold, StringEquals is equality. */
  lemma OrdinalIsEquality()
    ensures forall a: string, b: string :: StringEquals(Exact, a, b) <==> a == b
  {
    forall a: string, b: string | StringEquals(Exact, a, b) ensures a == b {
      assert forall k :: 0 <= k < |a| ==> a[k] == b[k];
    }
  }

  /**
   * EqualsNone(value, comparisonType, matchSet): false for a null or empty value,
   * otherwise the negation of EqualsAny, whose exceptions it passes on.
   */
  function EqualsNone(value: Option<string>, comparison: StringComparison, matchSet: Option<seq<Option<string>>>, cultures: Cultures): (r: Result<bool>)
    ensures value.None? || value == Some("") ==> r == Ok(false)
    ensures value.Some? && value != Some("") ==>
      match EqualsAny(value, comparison, matchSet, cultures)
      case Ok(b) => r == Ok(!b)
      case Err(e) => r == Err(e)
  {
    if value.None? || |value.value| == 0 then Ok(false)
    else
      match EqualsAny(value, comparison, matchSet, cultures)
      case Err(e) => Err(e)
      case Ok(b) => Ok(!b)
  }

  /** EqualsNone(value, matchSet): the Ordinal default. */
  function EqualsNoneOrdinal(value: Option<string>, matchSet: Option<seq<Option<string>>>, cultures: Cultures): (r: Result<bool>)
    ensures value.None? || value == Some("") ==> r == Ok(false)
    ensures value.Some? && value != Some("") && matchSet.None? ==> r == Err(ArgumentNullException("matchSet"))
    ensures value.Some? && value != Some("") && matchSet.Some? ==>
      (r == Ok(true) <==> PresentAndOtherBefore(value.value, matchSet.value, |matchSet.value|)) &&
      (r == Ok(false) <==> exists i :: 0 <= i < |matchSet.value| && PresentAndOtherBefore(value.value, matchSet.value, i) &&
                                        matchSet.value[i] == value) &&
      (r.Err? ==> r.error == NullReferenceException)
    ensures value.Some? && value != Some("") && matchSet.Some? && NoNullBefore(matchSet.value, |matchSet.value|) ==>
      r == Ok(forall i :: 0 <= i < |matchSet.value| ==> matchSet.value[i] != value)
  {
    var r := EqualsNone(value, Ordinal, matchSet, cultures);
    OrdinalIsEquality();
    if value.Some? && matchSet.Some? then
      OrdinalNoMatchBefore(value.value, matchSet.value);
      r
    else r
  }

  /**
   * For a non-empty value, exactly one of EqualsAny and EqualsNone holds when
   * neither throws; for a null or empty value both are false.
   */
  lemma AnyNoneComplement(value: Option<string>, comparison: StringComparison, matchSet: Option<seq<Option<string>>>, cultures: Cultures)
    ensures value.Some? && value != Some("") && EqualsAny(value, comparison, matchSet, cultures).Ok? ==>
      EqualsNone(value, comparison, matchSet, cultures).Ok? &&
      EqualsNone(value, comparison, matchSet, cultures).value != EqualsAny(value, comparison, matchSet, cultures).value
    ensures value.None? || value == Some("") ==>
      EqualsAny(value, comparison, matchSet, cultures) == EqualsNone(value, comparison, matchSet, cultures) == Ok(false)
  {
  }

  /** The unit-test cases under Ordinal and OrdinalIgnoreCase, and the undefined comparison -12. */
  lemma EqualsExamples(cultures: Cultures)
    requires cultures.fixed.upper('h') == 'H' && cultures.fixed.upper('H') == 'H'
    requires forall c :: c in "elo" ==> cultures.fixed.upper(c) != cultures.fixed.upper('o') || c == 'o'
    ensures EqualsAny(Some("Hello"), Ordinal, Some([Some("Hello"), Some("World")]), cultures) == Ok(true)
    ensures EqualsAny(Some("hello"), Ordinal, Some([Some("Hello"), Some("World")]), cultures) == Ok(false)
    ensures EqualsAny(Some("hello"), Ordinal, Some([]), cultures) == Ok(false)
    ensures EqualsAny(Some("hello"), OrdinalIgnoreCase, Some([Some("Hello"), Some("World")]), cultures) == Ok(true)
    ensures EqualsAny(None, Ordinal, Some([Some("Hello")]), cultures) == Ok(false)
    ensures EqualsAny(Some("Hello"), Ordinal, None, cultures) == Err(ArgumentNullException("matchSet"))
    ensures EqualsAny(Some("Hello"), UndefinedStringComparison(-12), Some([Some("Hello"), Some("World")]), cultures) == Err(ArgumentException)
    ensures EqualsNone(Some("hello"), Ordinal, Some([Some("Hello"), Some("World")]), cultures) == Ok(true)
    ensures EqualsNone(Some("hello"), OrdinalIgnoreCase, Some([Some("Hello"), Some("World")]), cultures) == Ok(false)
  {
    OrdinalIsEquality();
    var fold := cultures.fixed.upper;
    assert StringEquals(fold, "Hello", "hello");
    assert "hello"[0] != "Hello"[0];
    assert "hello"[0] != "World"[0];
  }
}
