/**
 * Prefix extraction up to the first or the last match of a string or a
 * character, and capitalisation of the first character.
 */
module SubstringExtensions {
  import opened Wrappers
  import opened Globalization
  import opened StringSearch
  import opened CultureAwareCharacterComparer
  import opened CharacterComparer

  // ---------------------------------------------------------------------------
  // String needles
  // ---------------------------------------------------------------------------

  /**
   * Until(value, matchValue, comparisonType): the part of the value before the first
   * match, or the whole value when there is none.
   */
  function Until(value: Option<string>, matchValue: Option<string>, comparison: StringComparison, cultures: Cultures): (r: Result<string>)
    ensures value.None? ==> r == Err(ArgumentNullException("value"))
    ensures value.Some? && matchValue.None? ==> r == Err(ArgumentNullException("match"))
    ensures value.Some? && matchValue.Some? ==> (r.Err? <==> FoldOf(comparison, cultures).Err?)
    ensures r.Err? ==> r.error != NullReferenceException && r.error != IndexOutOfRangeException
    ensures r.Ok? ==>
      var v, m, fold := value.value, matchValue.value, FoldOf(comparison, cultures).value;
      r.value <= v &&
      ((r.value == v && forall j :: !MatchAt(fold, v, m, j)) ||
       (MatchAt(fold, v, m, |r.value|) && forall j :: 0 <= j < |r.value| ==> !MatchAt(fold, v, m, j)))
  {
    if value.None? then Err(ArgumentNullException("value"))
    else if matchValue.None? then Err(ArgumentNullException("match"))
    else
      match FoldOf(comparison, cultures)
      case Err(e) => Err(e)
      case Ok(fold) =>
        IndexOfFindsFirst(fold, value.value, matchValue.value, 0);
        var i := IndexOf(fold, value.value, matchValue.value, 0);
        if i < 0 then Ok(value.value) else Ok(value.value[..i])
  }

  /**
   * UntilLast(value, matchValue, comparisonType): the part of the value before the
   * last match, or the whole value when there is none.
   */
  function UntilLast(value: Option<string>, matchValue: Option<string>, comparison: StringComparison, cultures: Cultures): (r: Result<string>)
    ensures value.None? ==> r == Err(ArgumentNullException("value"))
    ensures value.Some? && matchValue.None? ==> r == Err(ArgumentNullException("match"))
    ensures value.Some? && matchValue.Some? ==> (r.Err? <==> FoldOf(comparison, cultures).Err?)
    ensures r.Err? ==> r.error != NullReferenceException && r.error != IndexOutOfRangeException
    ensures r.Ok? ==>
      var v, m, fold := value.value, matchValue.value, FoldOf(comparison, cultures).value;
      r.value <= v &&
      ((r.value == v && forall j :: !MatchAt(fold, v, m, j)) ||
       (MatchAt(fold, v, m, |r.value|) && forall j :: |r.value| < j ==> !MatchAt(fold, v, m, j)))
  {
    if value.None? then Err(ArgumentNullException("value"))
    else if matchValue.None? then Err(ArgumentNullException("match"))
    else
      match FoldOf(comparison, cultures)
      case Err(e) => Err(e)
      case Ok(fold) =>
        var i := LastIndexOf(fold, value.value, matchValue.value);
        if i < 0 then Ok(value.value) else Ok(value.value[..i])
  }

  /** Until(value, match): the current culture, case-sensitive, which matches exactly. */
  function UntilCurrentCulture(value: Option<string>, matchValue: Option<string>, cultures: Cultures): (r: Result<string>)
    ensures value.None? ==> r == Err(ArgumentNullException("value"))
    ensures value.Some? && matchValue.None? ==> r == Err(ArgumentNullException("match"))
    ensures value.Some? && matchValue.Some? ==> r.Ok? && r.value <= value.value
    ensures value.Some? && matchValue.Some? && r.value != value.value ==>
      MatchAt(Exact, value.value, matchValue.value, |r.value|) &&
      forall j :: 0 <= j < |r.value| ==> !MatchAt(Exact, value.value, matchValue.value, j)
    ensures value.Some? && matchValue == Some("") ==> r == Ok("")
    ensures value.Some? && matchValue.Some? ==> (r.value == value.value <==> forall j :: 0 <= j < |value.value| ==> !MatchAt(Exact, value.value, matchValue.value, j))
  {
    Until(value, matchValue, StringComparison.CurrentCulture, cultures)
  }

  /** UntilLast(value, match): the current culture, case-sensitive. */
  function UntilLastCurrentCulture(value: Option<string>, matchValue: Option<string>, cultures: Cultures): (r: Result<string>)
    ensures value.None? ==> r == Err(ArgumentNullException("value"))
    ensures value.Some? && matchValue.None? ==> r == Err(ArgumentNullException("match"))
    ensures value.Some? && matchValue.Some? ==> r.Ok? && r.value <= value.value
    ensures value.Some? && matchValue.Some? && r.value != value.value ==>
      MatchAt(Exact, value.value, matchValue.value, |r.value|) &&
      forall j :: |r.value| < j ==> !MatchAt(Exact, value.value, matchValue.value, j)
    ensures value.Some? && matchValue == Some("") ==> r == Ok(value.value)
    ensures value.Some? && matchValue.Some? && matchValue != Some("") ==>
      (r.value == value.value <==> forall j :: 0 <= j < |value.value| ==> !MatchAt(Exact, value.value, matchValue.value, j))
  {
    UntilLast(value, matchValue, StringComparison.CurrentCulture, cultures)
  }

  /**
   * The prefix before the last match is at least as long as the prefix before
   * the first, and both are shorter than the value exactly when a match starts
   * inside it.
   */
  lemma UntilLastNotShorter(value: string, matchValue: string, comparison: StringComparison, cultures: Cultures)
    requires FoldOf(comparison, cultures).Ok?
    ensures |Until(Some(value), Some(matchValue), comparison, cultures).value| <= |UntilLast(Some(value), Some(matchValue), comparison, cultures).value|
    ensures var fold := FoldOf(comparison, cultures).value;
      (|Until(Some(value), Some(matchValue), comparison, cultures).value| < |value| <==> exists j :: 0 <= j < |value| && MatchAt(fold, value, matchValue, j)) &&
      (|matchValue| > 0 ==>
        (|UntilLast(Some(value), Some(matchValue), comparison, cultures).value| < |value| <==> exists j :: 0 <= j < |value| && MatchAt(fold, value, matchValue, j)))
  {
    var fold := FoldOf(comparison, cultures).value;
    var i := IndexOf(fold, value, matchValue, 0);
    IndexOfFindsFirst(fold, value, matchValue, 0);
    var l := LastIndexOf(fold, value, matchValue);
    if i >= 0 {
      assert l >= i;
    }
  }

  /**
   * The unit-test cases on "HelloWorld": Until "World" gives "Hello", UntilLast
   * "l" gives "HelloWor".
   */
  lemma StringCutExamples(cultures: Cultures)
    ensures Until(Some("HelloWorld"), Some("World"), StringComparison.CurrentCulture, cultures) == Ok("Hello")
    ensures UntilLast(Some("HelloWorld"), Some("l"), StringComparison.CurrentCulture, cultures) == Ok("HelloWor")
  {
    var s := "HelloWorld";
    assert MatchAt(Exact, s, "World", 5) by {
      assert s[5..] == "World";
    }
    forall i | 0 <= i < 5
      ensures !MatchAt(Exact, s, "World", i)
    {
      assert !Agrees(Exact, s, "World", i, 0) by {
        if i == 0 { assert s[0] == 'H'; }
        else if i == 1 { assert s[1] == 'e'; }
        else if i == 2 { assert s[2] == 'l'; }
        else if i == 3 { assert s[3] == 'l'; }
        else { assert s[4] == 'o'; }
      }
    }
    IndexOfFirstMatch(Exact, s, "World", 0, 5);
    assert s[..5] == "Hello";
    assert MatchAt(Exact, s, "l", 8) by {
      assert Agrees(Exact, s, "l", 8, 0);
    }
    assert !MatchAt(Exact, s, "l", 9) by {
      assert !Agrees(Exact, s, "l", 9, 0);
    }
    assert LastMatchAtOrBefore(Exact, s, "l", 9) == 8;
    assert s[..8] == "HelloWor";
  }

  // ---------------------------------------------------------------------------
  // Character needles
  // ---------------------------------------------------------------------------

  /** The first index whose character compares equal to `t`, or -1. */
  function FirstCharMatch(cmp: Comparer, s: string, t: char, from: nat): (r: int)
    requires from <= |s|
    ensures r == -1 || (from <= r < |s| && Compare(cmp, s[r], t) == 0)
    ensures forall k :: from <= k < (if r == -1 then |s| else r) ==> Compare(cmp, s[k], t) != 0
    decreases |s| - from
  {
    if from == |s| then -1
    else if Compare(cmp, s[from], t) == 0 then from
    else FirstCharMatch(cmp, s, t, from + 1)
  }

  /** The last index below `upTo` whose character compares equal to `t`, or -1. */
  function LastCharMatch(cmp: Comparer, s: string, t: char, upTo: nat): (r: int)
    requires upTo <= |s|
    ensures r == -1 || (0 <= r < upTo && Compare(cmp, s[r], t) == 0)
    ensures forall k :: r < k < upTo ==> Compare(cmp, s[k], t) != 0
  {
    if upTo == 0 then -1
    else if Compare(cmp, s[upTo - 1], t) == 0 then upTo - 1
    else LastCharMatch(cmp, s, t, upTo - 1)
  }

  /** The value cut at index `i`, or the whole value for -1. */
  function CutAt(s: string, i: int): (r: string)
    requires -1 <= i < |s|
    ensures r <= s && |r| == if i == -1 then |s| else i
  {
    if i < 0 then s else s[..i]
  }

  /**
   * Until(value, matchValue, comparisonType) for a character: the selector is resolved
   * first, then the scan records the first matching index and stops.
   */
  method UntilChar(value: Option<string>, matchValue: char, comparison: CharacterComparison, cultures: Cultures) returns (r: Result<string>)
    ensures value.None? ==> r == Err(ArgumentNullException("value"))
    ensures value.Some? && FromComparison(comparison, cultures).Err? ==> r == Err(ArgumentException)
    ensures value.Some? && FromComparison(comparison, cultures).Ok? ==>
      r == Ok(CutAt(value.value, FirstCharMatch(FromComparison(comparison, cultures).value, value.value, matchValue, 0)))
  {
    if value.None? {
      return Err(ArgumentNullException("value"));
    }
    var characterComparer := FromComparison(comparison, cultures);
    if characterComparer.Err? {
      return Err(characterComparer.error);
    }
    var s, cmp := value.value, characterComparer.value;
    var matchIndex := -1;
    var iterationIndex := 0;
    while iterationIndex < |s|
      invariant 0 <= iterationIndex <= |s|
      invariant forall k :: 0 <= k < iterationIndex ==> Compare(cmp, s[k], matchValue) != 0
    {
      if Compare(cmp, s[iterationIndex], matchValue) == 0 {
        matchIndex := iterationIndex;
        break;
      }
      iterationIndex := iterationIndex + 1;
    }
    assert matchIndex == FirstCharMatch(cmp, s, matchValue, 0);
    if matchIndex < 0 {
      return Ok(s);
    }
    return Ok(s[..matchIndex]);
  }

  /**
   * UntilLast(value, matchValue, comparisonType) for a character: the scan runs to the
   * end and keeps the last matching index.
   */
  method UntilLastChar(value: Option<string>, matchValue: char, comparison: CharacterComparison, cultures: Cultures) returns (r: Result<string>)
    ensures value.None? ==> r == Err(ArgumentNullException("value"))
    ensures value.Some? && FromComparison(comparison, cultures).Err? ==> r == Err(ArgumentException)
    ensures value.Some? && FromComparison(comparison, cultures).Ok? ==>
      r == Ok(CutAt(value.value, LastCharMatch(FromComparison(comparison, cultures).value, value.value, matchValue, |value.value|)))
  {
    if value.None? {
      return Err(ArgumentNullException("value"));
    }
    var characterComparer := FromComparison(comparison, cultures);
    if characterComparer.Err? {
      return Err(characterComparer.error);
    }
    var s, cmp := value.value, characterComparer.value;
    var matchIndex := -1;
    var iterationIndex := 0;
    while iterationIndex < |s|
      invariant 0 <= iterationIndex <= |s|
      invariant matchIndex == LastCharMatch(cmp, s, matchValue, iterationIndex)
    {
      if Compare(cmp, s[iterationIndex], matchValue) == 0 {
        matchIndex := iterationIndex;
      }
      iterationIndex := iterationIndex + 1;
    }
    if matchIndex < 0 {
      return Ok(s);
    }
    return Ok(s[..matchIndex]);
  }

  /** Until(value, match) for a character: the current-culture, case-sensitive comparer. */
  method UntilCharCurrentCulture(value: Option<string>, matchValue: char, cultures: Cultures) returns (r: Result<string>)
    ensures value.None? ==> r == Err(ArgumentNullException("value"))
    ensures value.Some? ==> r == Ok(CutAt(value.value, FirstCharMatch(Comparer(cultures.current, false), value.value, matchValue, 0)))
  {
    r := UntilChar(value, matchValue, CharacterComparison.CurrentCulture, cultures);
  }

  /** UntilLast(value, match) for a character: the current-culture, case-sensitive comparer. */
  method UntilLastCharCurrentCulture(value: Option<string>, matchValue: char, cultures: Cultures) returns (r: Result<string>)
    ensures value.None? ==> r == Err(ArgumentNullException("value"))
    ensures value.Some? ==> r == Ok(CutAt(value.value, LastCharMatch(Comparer(cultures.current, false), value.value, matchValue, |value.value|)))
  {
    r := UntilLastChar(value, matchValue, CharacterComparison.CurrentCulture, cultures);
  }

  /**
   * The first and the last match agree on whether there is a match, the last is
   * never before the first, and both cut the value short exactly when a
   * character matches.
   */
  lemma CharCutsOrdered(cmp: Comparer, s: string, t: char)
    ensures var f, l := FirstCharMatch(cmp, s, t, 0), LastCharMatch(cmp, s, t, |s|);
      (f == -1 <==> l == -1) && f <= l &&
      |CutAt(s, f)| <= |CutAt(s, l)| &&
      (|CutAt(s, f)| < |s| <==> exists k :: 0 <= k < |s| && Compare(cmp, s[k], t) == 0) &&
      (|CutAt(s, l)| < |s| <==> exists k :: 0 <= k < |s| && Compare(cmp, s[k], t) == 0)
  {
    var f, l := FirstCharMatch(cmp, s, t, 0), LastCharMatch(cmp, s, t, |s|);
    if f != -1 {
      assert l != -1;
    }
    if l != -1 {
      assert f != -1;
    }
  }

  /**
   * The unit-test cases on "HelloWorld": Until 'l' gives "He", UntilLast 'o'
   * gives "HelloW", and 'L' is not found case-sensitively.
   */
  lemma CharCutExamples(culture: Culture)
    ensures CutAt("HelloWorld", FirstCharMatch(Comparer(culture, false), "HelloWorld", 'l', 0)) == "He"
    ensures CutAt("HelloWorld", LastCharMatch(Comparer(culture, false), "HelloWorld", 'o', 10)) == "HelloW"
    ensures CutAt("HelloWorld", FirstCharMatch(Comparer(culture, false), "HelloWorld", 'L', 0)) == "HelloWorld"
  {
    var s := "HelloWorld";
    assert FirstCharMatch(Comparer(culture, false), s, 'l', 0) == 2;
    assert LastCharMatch(Comparer(culture, false), s, 'o', 7) == 6;
    assert LastCharMatch(Comparer(culture, false), s, 'o', 10) == 6;
    assert FirstCharMatch(Comparer(culture, false), s, 'L', 0) == -1;
  }

  // ---------------------------------------------------------------------------
  // Capitalize
  // ---------------------------------------------------------------------------

  /** The value with its first character replaced by its upper-case image. */
  function Capitalized(s: string, upper: char -> char): (r: string)
    ensures |r| == |s|
    ensures |s| > 0 ==> r[0] == upper(s[0]) && r[1..] == s[1..]
  {
    if |s| == 0 then s else [upper(s[0])] + s[1..]
  }

  /**
   * Capitalize(value): char.ToUpper (the current culture) on the first character.
   * A single character is handled on its own; longer values are copied into a
   * buffer whose first slot is overwritten.
   */
  method Capitalize(value: Option<string>, cultures: Cultures) returns (r: Result<string>)
    ensures value.None? ==> r == Err(ArgumentNullException("value"))
    ensures value == Some("") ==> r == Ok("")
    ensures value.Some? ==> r == Ok(Capitalized(value.value, cultures.current.upper))
  {
    if value.None? {
      return Err(ArgumentNullException("value"));
    }
    var s := value.value;
    if |s| == 0 {
      return Ok(s);
    }
    var upper := cultures.current.upper;
    if |s| == 1 {
      assert [upper(s[0])] + s[1..] == [upper(s[0])];
      return Ok([upper(s[0])]);
    }
    var buffer := new char[|s|](i requires 0 <= i < |s| => s[i]);
    buffer[0] := upper(buffer[0]);
    assert buffer[..] == [upper(s[0])] + s[1..];
    return Ok(buffer[..]);
  }

  /** Capitalizing twice is capitalizing once when the upper-case mapping is idempotent. */
  lemma CapitalizeIdempotent(s: string, upper: char -> char)
    requires forall c :: upper(upper(c)) == upper(c)
    ensures Capitalized(Capitalized(s, upper), upper) == Capitalized(s, upper)
  {
    if |s| > 0 {
      var once := Capitalized(s, upper);
      assert once[1..] == s[1..];
    }
  }
}
