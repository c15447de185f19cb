/**
 * Counting a character or a string inside a string. A null or empty value has no
 * occurrences, whatever the other arguments are.
 */
module CountOccurrences {
  import opened Wrappers
  import opened Globalization
  import opened StringSearch
  import opened CultureAwareCharacterComparer
  import opened CharacterComparer
  import opened StringContains
  import opened Sequences

  /** The number of characters of `s` that compare equal to `t`. */
  function MatchCount(cmp: Comparer, s: string, t: char): (r: nat)
    ensures r <= |s|
    decreases |s|
  {
    if |s| == 0 then 0
    else MatchCount(cmp, s[..|s| - 1], t) + (if Compare(cmp, s[|s| - 1], t) == 0 then 1 else 0)
  }

  /**
   * CountOccurrences(value, searchValue, comparisonType) for a character: the
   * selector is resolved only for a non-empty value, then every character is
   * compared with the needle.
   */
  method CountCharacter(value: Option<string>, searchValue: char, comparison: CharacterComparison, cultures: Cultures) returns (r: Result<nat>)
    ensures value.None? || value == Some("") ==> r == Ok(0)
    ensures value.Some? && value != Some("") && FromComparison(comparison, cultures).Err? ==> r == Err(ArgumentException)
    ensures value.Some? && FromComparison(comparison, cultures).Ok? ==>
      r == Ok(MatchCount(FromComparison(comparison, cultures).value, value.value, searchValue))
    ensures r.Ok? ==> value.Some? ==> r.value <= |value.value|
  {
    if value.None? || |value.value| == 0 {
      return Ok(0);
    }
    var comparer := FromComparison(comparison, cultures);
    if comparer.Err? {
      return Err(comparer.error);
    }
    var s, cmp := value.value, comparer.value;
    var count := 0;
    for i := 0 to |s|
      invariant count == MatchCount(cmp, s[..i], searchValue)
    {
      assert s[..i + 1][..i] == s[..i];
      if Compare(cmp, s[i], searchValue) == 0 {
        count := count + 1;
      }
    }
    assert s[..|s|] == s;
    return Ok(count);
  }

  /** CountOccurrences(value, searchValue) for a character: the current-culture, case-sensitive comparer. */
  method CountCharacterCurrentCulture(value: Option<string>, searchValue: char, cultures: Cultures) returns (r: Result<nat>)
    ensures r == Ok(if value.None? then 0 else MatchCount(Comparer(cultures.current, false), value.value, searchValue))
  {
    r := CountCharacter(value, searchValue, CharacterComparison.CurrentCulture, cultures);
  }

  /** Counts add up over a concatenation. */
  lemma {:induction false} MatchCountAppend(cmp: Comparer, a: string, b: string, t: char)
    ensures MatchCount(cmp, a + b, t) == MatchCount(cmp, a, t) + MatchCount(cmp, b, t)
    decreases |b|
  {
    if |b| > 0 {
      MatchCountAppend(cmp, a, b[..|b| - 1], t);
      assert (a + b)[..|a + b| - 1] == a + b[..|b| - 1];
    } else {
      assert a + b == a;
    }
  }

  /** A character occurs at least once exactly when its count is positive. */
  lemma {:induction false} MatchCountPositive(cmp: Comparer, s: string, t: char)
    ensures MatchCount(cmp, s, t) > 0 <==> Occurs(cmp, s, t)
    decreases |s|
  {
    if |s| > 0 {
      var p := s[..|s| - 1];
      MatchCountPositive(cmp, p, t);
      if Occurs(cmp, p, t) {
        var k :| 0 <= k < |p| && Compare(cmp, p[k], t) == 0;
        assert s[k] == p[k];
      }
      if Occurs(cmp, s, t) && Compare(cmp, s[|s| - 1], t) != 0 {
        var k :| 0 <= k < |s| && Compare(cmp, s[k], t) == 0;
        assert p[k] == s[k];
      }
    }
  }

  /** Every character is counted when every character matches. */
  lemma {:induction false} MatchCountAll(cmp: Comparer, s: string, t: char)
    requires forall k :: 0 <= k < |s| ==> Compare(cmp, s[k], t) == 0
    ensures MatchCount(cmp, s, t) == |s|
    decreases |s|
  {
    if |s| > 0 {
      MatchCountAll(cmp, s[..|s| - 1], t);
    }
  }

  /**
   * When, among the characters of `s`, exactly those equal to `a` match `t`, the
   * count is the number of copies of `a` in `s`.
   */
  lemma {:induction false} MatchCountByKey(cmp: Comparer, s: string, t: char, a: char)
    requires forall x :: x in s ==> (Compare(cmp, x, t) == 0 <==> x == a)
    ensures MatchCount(cmp, s, t) == multiset(s)[a]
    decreases |s|
  {
    if |s| > 0 {
      var p := s[..|s| - 1];
      assert forall x :: x in p ==> x in s;
      MatchCountByKey(cmp, p, t, a);
      SplitLast(s);
      assert multiset(s) == multiset(p) + multiset{s[|s| - 1]};
    }
  }

  /** Under a case-sensitive comparer the count is the multiplicity of the needle. */
  lemma MatchCountOrdinal(culture: Culture, s: string, t: char)
    ensures MatchCount(Comparer(culture, false), s, t) == multiset(s)[t]
  {
    MatchCountByKey(Comparer(culture, false), s, t, t);
  }

  /**
   * CountOccurrences(value, searchValue, comparisonType) for a string: repeated
   * IndexOf from just past the previous match. A null needle is rejected and an
   * empty needle counts 0; an undefined comparison fails in the first IndexOf.
   */
  method CountString(value: Option<string>, searchValue: Option<string>, comparison: StringComparison, cultures: Cultures) returns (r: Result<nat>)
    ensures value.None? || value == Some("") ==> r == Ok(0)
    ensures value.Some? && value != Some("") && searchValue.None? ==> r == Err(ArgumentNullException("searchValue"))
    ensures value.Some? && value != Some("") && searchValue == Some("") ==> r == Ok(0)
    ensures (value.Some? && value != Some("") && searchValue.Some? && searchValue != Some("") &&
             FoldOf(comparison, cultures).Err?) ==> r == Err(ArgumentException)
    ensures (value.Some? && value != Some("") && searchValue.Some? && searchValue != Some("") &&
             FoldOf(comparison, cultures).Ok?) ==>
      r == Ok(|MatchPositions(FoldOf(comparison, cultures).value, value.value, searchValue.value, 0)|)
    ensures r.Ok? && value.Some? && searchValue.Some? ==> r.value * |searchValue.value| <= |value.value|
    ensures (r.Ok? && value.Some? && searchValue.Some? && searchValue != Some("") && FoldOf(comparison, cultures).Ok?) ==>
      (r.value > 0 <==> exists j :: MatchAt(FoldOf(comparison, cultures).value, value.value, searchValue.value, j))
  {
    if value.None? || |value.value| == 0 {
      return Ok(0);
    }
    if searchValue.None? {
      return Err(ArgumentNullException("searchValue"));
    }
    if |searchValue.value| == 0 {
      return Ok(0);
    }
    var fold := FoldOf(comparison, cultures);
    if fold.Err? {
      return Err(fold.error);
    }
    var count := CountMatches(fold.value, value.value, searchValue.value);
    SearchCountIsPositions(fold.value, value.value, searchValue.value, 0);
    PositiveIffFound(fold.value, value.value, searchValue.value);
    return Ok(count);
  }

  /**
   * value.IndexOf(searchValue, index, comparisonType) inside the counting loop,
   * stated by what it does to the number of matches still to be counted.
   */
  method FindNext(fold: char -> char, s: string, needle: string, index: nat) returns (found: int)
    requires |needle| > 0 && index <= |s|
    ensures found == -1 ==> SearchCount(fold, s, needle, index) == 0
    ensures found != -1 ==> index <= found && found + |needle| <= |s|
    ensures found != -1 ==> SearchCount(fold, s, needle, index) == 1 + SearchCount(fold, s, needle, found + |needle|)
  {
    found := IndexOf(fold, s, needle, index);
  }

  /**
   * The loop of CountOccurrences for a string: search from `index`, count the
   * match, resume just past it. The matches counted never take more characters
   * than the value has.
   */
  method CountMatches(fold: char -> char, s: string, needle: string) returns (count: nat)
    requires |needle| > 0
    ensures count == SearchCount(fold, s, needle, 0)
    ensures count * |needle| <= |s|
  {
    count := 0;
    var index := 0;
    while true
      invariant index <= |s|
      invariant count + SearchCount(fold, s, needle, index) == SearchCount(fold, s, needle, 0)
      invariant count * |needle| <= index
      decreases |s| - index
    {
      var found := FindNext(fold, s, needle, index);
      if found == -1 {
        return;
      }
      MultiplySuccessor(count, |needle|);
      index := found + |needle|;
      count := count + 1;
    }
  }

  /** CountOccurrences(value, searchValue) for a string: the current culture, case-sensitive. */
  method CountStringCurrentCulture(value: Option<string>, searchValue: Option<string>, cultures: Cultures) returns (r: Result<nat>)
    ensures value.None? || value == Some("") ==> r == Ok(0)
    ensures value.Some? && value != Some("") && searchValue.None? ==> r == Err(ArgumentNullException("searchValue"))
    ensures value.Some? && value != Some("") && searchValue == Some("") ==> r == Ok(0)
    ensures value.Some? && value != Some("") && searchValue.Some? && searchValue != Some("") ==>
      r == Ok(|MatchPositions(Exact, value.value, searchValue.value, 0)|)
  {
    r := CountString(value, searchValue, StringComparison.CurrentCulture, cultures);
  }

  /**
   * The counted string matches are real and do not overlap: each position is a
   * match, and consecutive positions are at least |needle| apart.
   */
  lemma CountedMatchesAreDisjointMatches(fold: char -> char, s: string, needle: string)
    requires |needle| > 0
    ensures AllMatchesFrom(fold, s, needle, 0, MatchPositions(fold, s, needle, 0))
    ensures Spaced(MatchPositions(fold, s, needle, 0), |needle|)
  {
    MatchPositionsAreMatches(fold, s, needle, 0);
    MatchPositionsDisjoint(fold, s, needle, 0);
  }
}
