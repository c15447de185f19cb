/**
 * Removal of characters or substrings from a string. Character removal copies
 * the kept characters into a buffer as long as the value; string removal
 * collects the spans of all matches into a set, sorts them, coalesces them on
 * a stack and deletes them from a builder from the highest start down.
 */
module StringRemoveExtensions {
  import opened Wrappers
  import opened Globalization
  import opened StringSearch
  import opened CultureAwareCharacterComparer
  import opened CharacterComparer
  import opened Slices
  import opened Sequences

  // ---------------------------------------------------------------------------
  // Character removal
  // ---------------------------------------------------------------------------

  /**
   * What the inner loop over the first `j` needles writes for the value
   * character `x`: one copy of `x` for every needle that does not compare equal
   * to it.
   */
  function WritesFor(cmp: Comparer, needles: seq<char>, x: char, j: nat): (r: string)
    requires j <= |needles|
    ensures |r| <= j
  {
    if j == 0 then []
    else WritesFor(cmp, needles, x, j - 1) + (if Compare(cmp, needles[j - 1], x) != 0 then [x] else [])
  }

  /** Everything the two nested loops write, in order, for the first `i` characters of `s`. */
  function WritesUpTo(cmp: Comparer, s: string, needles: seq<char>, i: nat): string
    requires i <= |s|
  {
    if i == 0 then [] else WritesUpTo(cmp, s, needles, i - 1) + WritesFor(cmp, needles, s[i - 1], |needles|)
  }

  /** Everything the two nested loops write for the whole of `s`. */
  function Writes(cmp: Comparer, s: string, needles: seq<char>): string
  {
    WritesUpTo(cmp, s, needles, |s|)
  }

  /** Some needle compares equal to `x`. */
  predicate MatchesAny(cmp: Comparer, needles: seq<char>, x: char)
  {
    exists k :: 0 <= k < |needles| && Compare(cmp, needles[k], x) == 0
  }

  /** The characters of `s` that no needle compares equal to, in order. */
  function Unmatched(cmp: Comparer, s: string, needles: seq<char>): (r: string)
    ensures |r| <= |s|
    ensures forall k :: 0 <= k < |r| ==> !MatchesAny(cmp, needles, r[k])
    decreases |s|
  {
    if |s| == 0 then []
    else Unmatched(cmp, s[..|s| - 1], needles) + (if MatchesAny(cmp, needles, s[|s| - 1]) then [] else [s[|s| - 1]])
  }

  /** Writing for fewer needles writes no more. */
  lemma {:induction false} WritesForMonotonic(cmp: Comparer, needles: seq<char>, x: char, j: nat, k: nat)
    requires j <= k <= |needles|
    ensures |WritesFor(cmp, needles, x, j)| <= |WritesFor(cmp, needles, x, k)|
    decreases k
  {
    if j < k {
      WritesForMonotonic(cmp, needles, x, j, k - 1);
    }
  }

  /** Writing for fewer value characters writes no more. */
  lemma {:induction false} WritesUpToMonotonic(cmp: Comparer, s: string, needles: seq<char>, i: nat, k: nat)
    requires i <= k <= |s|
    ensures |WritesUpTo(cmp, s, needles, i)| <= |WritesUpTo(cmp, s, needles, k)|
    decreases k
  {
    if i < k {
      WritesUpToMonotonic(cmp, s, needles, i, k - 1);
    }
  }

  /**
   * When the writes for the first `i` characters do not fit in a buffer of the
   * value's length, neither do the writes for the whole value.
   */
  lemma WritesOverrun(cmp: Comparer, s: string, needles: seq<char>, i: nat)
    requires i <= |s| && |WritesUpTo(cmp, s, needles, i)| > |s|
    ensures |Writes(cmp, s, needles)| > |s|
  {
    WritesUpToMonotonic(cmp, s, needles, i, |s|);
  }

  /**
   * Remove(value, comparisonType, characters), as written: for every character
   * of the value and every needle that does not match it, the character is
   * written into a buffer of the value's length. A run that writes more than
   * that overruns the buffer (IndexOutOfRangeException).
   */
  method RemoveCharacters(value: Option<string>, comparison: CharacterComparison, characters: Option<seq<char>>, cultures: Cultures)
    returns (r: Result<string>)
    ensures value.None? || value == Some("") ==> r == Err(ArgumentException)
    ensures value.Some? && value != Some("") && characters.None? ==> r == Err(ArgumentNullException("characters"))
    ensures value.Some? && value != Some("") && characters == Some([]) ==> r == Ok(value.value)
    ensures (value.Some? && value != Some("") && characters.Some? && characters != Some([]) &&
             FromComparison(comparison, cultures).Err?) ==> r == Err(ArgumentException)
    ensures (value.Some? && value != Some("") && characters.Some? && characters != Some([]) &&
             FromComparison(comparison, cultures).Ok?) ==>
      var written := Writes(FromComparison(comparison, cultures).value, value.value, characters.value);
      r == if |written| <= |value.value| then Ok(written) else Err(IndexOutOfRangeException)
  {
    if value.None? || |value.value| == 0 {
      return Err(ArgumentException);
    }
    if characters.None? {
      return Err(ArgumentNullException("characters"));
    }
    var s, needles := value.value, characters.value;
    if |needles| == 0 {
      return Ok(s);
    }
    var comparer := FromComparison(comparison, cultures);
    if comparer.Err? {
      return Err(comparer.error);
    }
    r := WriteKept(comparer.value, s, needles);
  }

  /**
   * The nested loops of Remove(value, comparisonType, characters): a buffer of
   * the value's length, written once per (character, non-matching needle).
   */
  method WriteKept(cmp: Comparer, s: string, needles: seq<char>) returns (r: Result<string>)
    ensures var written := Writes(cmp, s, needles);
      r == if |written| <= |s| then Ok(written) else Err(IndexOutOfRangeException)
  {
    var targetCharacters := new char[|s|];
    var targetCharactersIndex: nat := 0;
    for i := 0 to |s|
      invariant targetCharactersIndex <= |s|
      invariant targetCharacters[..targetCharactersIndex] == WritesUpTo(cmp, s, needles, i)
    {
      var overrun;
      targetCharactersIndex, overrun :=
        WriteCopies(cmp, needles, s[i], targetCharacters, targetCharactersIndex, WritesUpTo(cmp, s, needles, i));
      if overrun {
        WritesOverrun(cmp, s, needles, i + 1);
        return Err(IndexOutOfRangeException);
      }
    }
    return Ok(targetCharacters[..targetCharactersIndex]);
  }

  /**
   * The inner loop of Remove(value, comparisonType, characters): the character
   * `x` is written once per needle it does not match, after the `index`
   * characters already written. Running out of buffer means the writes for `x`
   * do not fit.
   */
  method WriteCopies(cmp: Comparer, needles: seq<char>, x: char, buffer: array<char>, index: nat, ghost written: string)
    returns (next: nat, overrun: bool)
    requires index <= buffer.Length && buffer[..index] == written
    modifies buffer
    ensures overrun ==> |written + WritesFor(cmp, needles, x, |needles|)| > buffer.Length
    ensures !overrun ==> next <= buffer.Length && buffer[..next] == written + WritesFor(cmp, needles, x, |needles|)
  {
    next := index;
    for j := 0 to |needles|
      invariant next <= buffer.Length
      invariant buffer[..next] == written + WritesFor(cmp, needles, x, j)
    {
      if Compare(cmp, needles[j], x) != 0 {
        if next == buffer.Length {
          WritesForMonotonic(cmp, needles, x, j + 1, |needles|);
          return next, true;
        }
        Put(buffer, next, x);
        next := next + 1;
      }
    }
    return next, false;
  }

  /** Writes `c` at index `n` of the buffer: its first n + 1 characters are the old first n and `c`. */
  method Put(buffer: array<char>, n: nat, c: char)
    requires n < buffer.Length
    modifies buffer
    ensures buffer[..n + 1] == old(buffer[..n]) + [c]
  {
    buffer[n] := c;
  }

  /**
   * Remove(value, comparisonType, characters) as evidently intended: every
   * character of the value is written once unless some needle matches it.
   */
  method RemoveCharactersCorrected(value: Option<string>, comparison: CharacterComparison, characters: Option<seq<char>>, cultures: Cultures)
    returns (r: Result<string>)
    ensures value.None? || value == Some("") ==> r == Err(ArgumentException)
    ensures value.Some? && value != Some("") && characters.None? ==> r == Err(ArgumentNullException("characters"))
    ensures value.Some? && value != Some("") && characters == Some([]) ==> r == Ok(value.value)
    ensures (value.Some? && value != Some("") && characters.Some? && characters != Some([]) &&
             FromComparison(comparison, cultures).Err?) ==> r == Err(ArgumentException)
    ensures (value.Some? && value != Some("") && characters.Some? && characters != Some([]) &&
             FromComparison(comparison, cultures).Ok?) ==>
      r == Ok(Unmatched(FromComparison(comparison, cultures).value, value.value, characters.value))
  {
    if value.None? || |value.value| == 0 {
      return Err(ArgumentException);
    }
    if characters.None? {
      return Err(ArgumentNullException("characters"));
    }
    var s, needles := value.value, characters.value;
    if |needles| == 0 {
      return Ok(s);
    }
    var comparer := FromComparison(comparison, cultures);
    if comparer.Err? {
      return Err(comparer.error);
    }
    var kept := KeepUnmatched(comparer.value, s, needles);
    return Ok(kept);
  }

  /**
   * The corrected loops: each character of the value is tested against every
   * needle and written once when none matches.
   */
  method KeepUnmatched(cmp: Comparer, s: string, needles: seq<char>) returns (r: string)
    ensures r == Unmatched(cmp, s, needles)
  {
    var targetCharacters := new char[|s|];
    var targetCharactersIndex := 0;
    for i := 0 to |s|
      invariant targetCharactersIndex <= i
      invariant targetCharacters[..targetCharactersIndex] == Unmatched(cmp, s[..i], needles)
    {
      assert s[..i + 1][..i] == s[..i];
      var matched := false;
      for j := 0 to |needles|
        invariant matched <==> exists k :: 0 <= k < j && Compare(cmp, needles[k], s[i]) == 0
      {
        if Compare(cmp, needles[j], s[i]) == 0 {
          matched := true;
        }
      }
      if !matched {
        targetCharacters[targetCharactersIndex] := s[i];
        targetCharactersIndex := targetCharactersIndex + 1;
      }
    }
    assert s[..|s|] == s;
    return targetCharacters[..targetCharactersIndex];
  }

  /** Remove(value, characters): the current-culture, case-sensitive comparer. */
  method RemoveCharactersCurrentCulture(value: Option<string>, characters: Option<seq<char>>, cultures: Cultures) returns (r: Result<string>)
    ensures value.None? || value == Some("") ==> r == Err(ArgumentException)
    ensures value.Some? && value != Some("") && characters.None? ==> r == Err(ArgumentNullException("characters"))
    ensures value.Some? && value != Some("") && characters == Some([]) ==> r == Ok(value.value)
    ensures (value.Some? && value != Some("") && characters.Some? && characters != Some([])) ==>
      var written := Writes(Comparer(cultures.current, false), value.value, characters.value);
      r == if |written| <= |value.value| then Ok(written) else Err(IndexOutOfRangeException)
  {
    r := RemoveCharacters(value, CharacterComparison.CurrentCulture, characters, cultures);
  }

  /**
   * With a single needle, the as-written loop writes exactly the characters that
   * differ from the needle, in order, so the buffer never overruns.
   */
  lemma SingleNeedleFilters(cmp: Comparer, s: string, t: char)
    ensures Writes(cmp, s, [t]) == Unmatched(cmp, s, [t])
    ensures |Writes(cmp, s, [t])| <= |s|
  {
    SingleNeedlePrefix(cmp, s, t, |s|);
    assert s[..|s|] == s;
  }

  /** The single-needle writes for the first `i` characters keep the unmatched ones among them. */
  lemma {:induction false} SingleNeedlePrefix(cmp: Comparer, s: string, t: char, i: nat)
    requires i <= |s|
    ensures WritesUpTo(cmp, s, [t], i) == Unmatched(cmp, s[..i], [t])
    decreases i
  {
    if i > 0 {
      SingleNeedlePrefix(cmp, s, t, i - 1);
      assert s[..i][..i - 1] == s[..i - 1];
      var x := s[i - 1];
      assert MatchesAny(cmp, [t], x) <==> Compare(cmp, t, x) == 0 by {
        if Compare(cmp, t, x) == 0 {
          assert Compare(cmp, [t][0], x) == 0;
        }
      }
    }
  }

  /**
   * The kept characters are exactly the unmatched ones: a matched character
   * disappears and an unmatched one keeps its multiplicity.
   */
  lemma {:induction false} UnmatchedCounts(cmp: Comparer, s: string, needles: seq<char>, x: char)
    ensures multiset(Unmatched(cmp, s, needles))[x] == if MatchesAny(cmp, needles, x) then 0 else multiset(s)[x]
    decreases |s|
  {
    if |s| > 0 {
      var p, last := s[..|s| - 1], s[|s| - 1];
      UnmatchedCounts(cmp, p, needles, x);
      SplitLast(s);
      assert multiset(s) == multiset(p) + multiset{last};
    }
  }

  /**
   * Two needles on "ab", case-sensitively: with 'a' and 'x', the loop writes
   * "abb", one character more than the buffer holds, where "b" was intended;
   * with 'a' and 'b', it writes "ab" and removes nothing, where "" was intended.
   */
  lemma TwoNeedlesMisbehave(culture: Culture)
    ensures Writes(Comparer(culture, false), "ab", ['a', 'x']) == "abb"
    ensures Unmatched(Comparer(culture, false), "ab", ['a', 'x']) == "b"
    ensures Writes(Comparer(culture, false), "ab", ['a', 'b']) == "ab"
    ensures Unmatched(Comparer(culture, false), "ab", ['a', 'b']) == ""
  {
    WritesOnAb(culture, 'x');
    WritesOnAb(culture, 'b');
    UnmatchedOnAb(culture, 'x');
    UnmatchedOnAb(culture, 'b');
  }

  /** What the as-written loop writes for "ab" and the needles 'a' and `n`. */
  lemma WritesOnAb(culture: Culture, n: char)
    requires n != 'a'
    ensures Writes(Comparer(culture, false), "ab", ['a', n]) == if n == 'b' then "ab" else "abb"
  {
    var cmp := Comparer(culture, false);
    assert WritesFor(cmp, ['a', n], 'a', 2) == "a";
    assert WritesUpTo(cmp, "ab", ['a', n], 1) == "a";
    assert WritesFor(cmp, ['a', n], 'b', 2) == if n == 'b' then "b" else "bb";
  }

  /** The characters of "ab" that neither 'a' nor `n` matches. */
  lemma UnmatchedOnAb(culture: Culture, n: char)
    requires n != 'a'
    ensures Unmatched(Comparer(culture, false), "ab", ['a', n]) == if n == 'b' then "" else "b"
  {
    var cmp := Comparer(culture, false);
    assert "ab"[..1] == "a" && "a"[..0] == "";
    assert MatchesAny(cmp, ['a', n], 'a') by {
      assert Compare(cmp, ['a', n][0], 'a') == 0;
    }
    if n == 'b' {
      assert MatchesAny(cmp, ['a', n], 'b') by {
        assert Compare(cmp, ['a', n][1], 'b') == 0;
      }
    } else {
      assert !MatchesAny(cmp, ['a', n], 'b');
    }
  }

  // ---------------------------------------------------------------------------
  // String removal: collecting the spans
  // ---------------------------------------------------------------------------

  /** The spans of the matches of `needle` in `v` that start before index `n`. */
  function MatchSlicesBelow(fold: char -> char, v: string, needle: string, n: int): set<Slice>
  {
    set j: nat | j < n && MatchAt(fold, v, needle, j) :: Slice(j, |needle|)
  }

  /** The spans of all matches of `needle` in `v`. */
  function NeedleSlices(fold: char -> char, v: string, needle: string): set<Slice>
  {
    MatchSlicesBelow(fold, v, needle, |v| + 1)
  }

  /** The HashSet of spans collected for all needles: each match once, however often it is found. */
  function Collected(fold: char -> char, v: string, needles: seq<string>): set<Slice>
    decreases |needles|
  {
    if |needles| == 0 then {}
    else Collected(fold, v, needles[..|needles| - 1]) + NeedleSlices(fold, v, needles[|needles| - 1])
  }

  /** A collected span is a match of one of the needles, so it lies inside the value. */
  lemma {:induction false} CollectedAreMatches(fold: char -> char, v: string, needles: seq<string>, x: Slice)
    requires x in Collected(fold, v, needles)
    ensures exists k :: 0 <= k < |needles| && x.length == |needles[k]| && MatchAt(fold, v, needles[k], x.start)
    ensures x.End() <= |v|
    decreases |needles|
  {
    var p := needles[..|needles| - 1];
    if x in Collected(fold, v, p) {
      CollectedAreMatches(fold, v, p, x);
      var k :| 0 <= k < |p| && x.length == |p[k]| && MatchAt(fold, v, p[k], x.start);
      assert needles[k] == p[k];
    }
  }

  /** Searching again from one past a match adds that one span to those below. */
  lemma BelowStep(fold: char -> char, v: string, needle: string, from: nat, found: nat)
    requires from <= found && MatchAt(fold, v, needle, found)
    requires forall j :: from <= j < found ==> !MatchAt(fold, v, needle, j)
    ensures MatchSlicesBelow(fold, v, needle, found + 1) == MatchSlicesBelow(fold, v, needle, from) + {Slice(found, |needle|)}
  {
  }

  /** When the search from `from` finds nothing, the spans below `from` are all of them. */
  lemma BelowDone(fold: char -> char, v: string, needle: string, from: nat)
    requires forall j :: from <= j ==> !MatchAt(fold, v, needle, j)
    ensures MatchSlicesBelow(fold, v, needle, from) == NeedleSlices(fold, v, needle)
  {
  }

  /** Every needle of the array is present. */
  predicate AllPresent(strings: seq<Option<string>>)
  {
    forall k :: 0 <= k < |strings| ==> strings[k].Some?
  }

  /** The needles of an array with no null element. */
  function Present(strings: seq<Option<string>>): (r: seq<string>)
    requires AllPresent(strings)
    ensures |r| == |strings| && forall k :: 0 <= k < |r| ==> Some(r[k]) == strings[k]
    decreases |strings|
  {
    if |strings| == 0 then [] else Present(strings[..|strings| - 1]) + [strings[|strings| - 1].value]
  }

  /** The indices covered by some span of the set. */
  function Struck(spans: set<Slice>): set<int>
  {
    set x, k | x in spans && x.start <= k < x.End() && Holds(x, k) :: k
  }

  /** A sequence with the elements of a set covers what the set covers. */
  lemma UnionIsStruck(ss: seq<Slice>, spans: set<Slice>)
    requires forall x :: x in ss <==> x in spans
    ensures Union(ss) == Struck(spans)
  {
    forall k | k in Union(ss) ensures k in Struck(spans) {
      UnionMember(ss, k);
      var j :| 0 <= j < |ss| && ss[j].start <= k < ss[j].End();
      assert Holds(ss[j], k);
    }
    forall k | k in Struck(spans) ensures k in Union(ss) {
      var x :| x in spans && x.start <= k < x.End() && Holds(x, k);
      var j :| 0 <= j < |ss| && ss[j] == x;
      UnionMember(ss, k);
    }
  }

  /**
   * What string removal evidently intends: the value without every character
   * that lies inside some match of some needle, the rest in order.
   */
  function Removed(fold: char -> char, v: string, needles: seq<string>): string
  {
    Keep(v, Struck(Collected(fold, v, needles)), 0, |v|)
  }

  /**
   * The collection loop for one needle, advancing: the search resumes one index
   * past the previous match start, so overlapping matches and matches of an
   * empty needle are all found and the loop ends.
   */
  method CollectNeedle(fold: char -> char, v: string, needle: string, unique: set<Slice>) returns (result: set<Slice>)
    ensures result == unique + NeedleSlices(fold, v, needle)
  {
    result := unique;
    var sliceIndex := 0;
    var found := IndexOf(fold, v, needle, sliceIndex);
    while found > -1
      invariant 0 <= sliceIndex <= |v| + 1
      invariant found == if sliceIndex <= |v| then IndexOf(fold, v, needle, sliceIndex) else -1
      invariant result == unique + MatchSlicesBelow(fold, v, needle, sliceIndex)
      decreases |v| + 1 - sliceIndex
    {
      IndexOfFindsFirst(fold, v, needle, sliceIndex);
      BelowStep(fold, v, needle, sliceIndex, found);
      result := result + {Slice(found, |needle|)};
      sliceIndex := found + 1;
      found := if sliceIndex <= |v| then IndexOf(fold, v, needle, sliceIndex) else -1;
    }
    if sliceIndex <= |v| {
      IndexOfFindsFirst(fold, v, needle, sliceIndex);
    }
    BelowDone(fold, v, needle, sliceIndex);
  }

  // ---------------------------------------------------------------------------
  // String removal
  // ---------------------------------------------------------------------------

  /**
   * Remove(value, comparisonType, strings), with the collection loop resuming
   * one index past each match start. The HashSet becomes a set, ToArray an arbitrary ordering of
   * it, and the StringBuilder a sequence. A null needle fails in IndexOf, and so
   * does an undefined comparison, at the first needle.
   */
  method RemoveStrings(value: Option<string>, comparison: StringComparison, strings: Option<seq<Option<string>>>, cultures: Cultures)
    returns (r: Result<string>)
    ensures value.None? || value == Some("") ==> r == Err(ArgumentException)
    ensures value.Some? && value != Some("") && strings.None? ==> r == Err(ArgumentNullException("strings"))
    ensures value.Some? && value != Some("") && strings == Some([]) ==> r == Ok(value.value)
    ensures (value.Some? && value != Some("") && strings.Some? && strings != Some([]) &&
             strings.value[0].None?) ==> r == Err(ArgumentNullException("value"))
    ensures (value.Some? && value != Some("") && strings.Some? && strings != Some([]) &&
             strings.value[0].Some? && FoldOf(comparison, cultures).Err?) ==> r == Err(ArgumentException)
    ensures (value.Some? && value != Some("") && strings.Some? &&
             FoldOf(comparison, cultures).Ok? && !AllPresent(strings.value)) ==> r == Err(ArgumentNullException("value"))
    ensures (value.Some? && value != Some("") && strings.Some? &&
             FoldOf(comparison, cultures).Ok? && AllPresent(strings.value)) ==>
      r == Ok(Removed(FoldOf(comparison, cultures).value, value.value, Present(strings.value)))
  {
    if value.None? || |value.value| == 0 {
      return Err(ArgumentException);
    }
    if strings.None? {
      return Err(ArgumentNullException("strings"));
    }
    var s, ss := value.value, strings.value;
    if |ss| == 0 {
      if FoldOf(comparison, cultures).Ok? {
        NothingToRemove(FoldOf(comparison, cultures).value, s, ss);
      }
      return Ok(s);
    }
    var collected := CollectSlices(s, ss, comparison, cultures);
    if collected.Err? {
      return Err(collected.error);
    }
    var removed := RemoveCollected(FoldOf(comparison, cultures).value, s, Present(ss), collected.value);
    return Ok(removed);
  }

  /**
   * The loop over the needles: each is checked for null, the comparison is
   * resolved by the search, and the needle's matches are added to the HashSet.
   */
  method CollectSlices(s: string, ss: seq<Option<string>>, comparison: StringComparison, cultures: Cultures)
    returns (r: Result<set<Slice>>)
    requires |ss| > 0
    ensures ss[0].None? ==> r == Err(ArgumentNullException("value"))
    ensures ss[0].Some? && FoldOf(comparison, cultures).Err? ==> r == Err(ArgumentException)
    ensures FoldOf(comparison, cultures).Ok? && !AllPresent(ss) ==> r == Err(ArgumentNullException("value"))
    ensures r.Ok? <==> FoldOf(comparison, cultures).Ok? && AllPresent(ss)
    ensures r.Ok? ==> r.value == Collected(FoldOf(comparison, cultures).value, s, Present(ss))
  {
    var uniqueSlices: set<Slice> := {};
    var fold := Exact;
    for k := 0 to |ss|
      invariant AllPresent(ss[..k])
      invariant k > 0 ==> FoldOf(comparison, cultures) == Ok(fold)
      invariant uniqueSlices == Collected(fold, s, Present(ss[..k]))
    {
      if ss[k].None? {
        assert !AllPresent(ss);
        return Err(ArgumentNullException("value"));
      }
      var resolved := FoldOf(comparison, cultures);
      if resolved.Err? {
        return Err(resolved.error);
      }
      if k == 0 {
        fold := resolved.value;
      }
      CollectedStep(fold, s, ss, k);
      uniqueSlices := CollectNeedle(fold, s, ss[k].value, uniqueSlices);
    }
    assert ss[..|ss|] == ss;
    return Ok(uniqueSlices);
  }

  /** One more present needle adds its matches to those collected. */
  lemma CollectedStep(fold: char -> char, s: string, ss: seq<Option<string>>, k: nat)
    requires k < |ss| && AllPresent(ss[..k]) && ss[k].Some?
    ensures AllPresent(ss[..k + 1])
    ensures Collected(fold, s, Present(ss[..k + 1])) == Collected(fold, s, Present(ss[..k])) + NeedleSlices(fold, s, ss[k].value)
  {
    assert ss[..k + 1][..k] == ss[..k];
    assert Present(ss[..k + 1])[..k] == Present(ss[..k]);
  }

  /** With no needles nothing is removed. */
  lemma NothingToRemove(fold: char -> char, s: string, ss: seq<Option<string>>)
    requires |ss| == 0
    ensures Removed(fold, s, Present(ss)) == s
  {
    KeepUncovered(s, {}, 0, |s|);
    assert s[0..|s|] == s;
    assert Struck(Collected(fold, s, Present(ss))) == {};
  }

  /** The spans collected for all needles, deleted from the value. */
  method RemoveCollected(fold: char -> char, s: string, needles: seq<string>, uniqueSlices: set<Slice>) returns (r: string)
    requires uniqueSlices == Collected(fold, s, needles)
    ensures r == Removed(fold, s, needles)
  {
    forall x | x in uniqueSlices ensures x.End() <= |s| {
      CollectedAreMatches(fold, s, needles, x);
    }
    r := RemoveSlices(s, uniqueSlices);
  }

  /**
   * The second half of Remove(value, comparisonType, strings): an empty set
   * returns the value; otherwise the spans are put into an array in some order,
   * sorted, coalesced, and deleted. The result is the value without the
   * covered characters.
   */
  method RemoveSlices(s: string, uniqueSlices: set<Slice>) returns (r: string)
    requires forall x :: x in uniqueSlices ==> x.End() <= |s|
    ensures r == Keep(s, Struck(uniqueSlices), 0, |s|)
  {
    if uniqueSlices == {} {
      KeepUncovered(s, {}, 0, |s|);
      assert s[0..|s|] == s;
      assert Struck(uniqueSlices) == {};
      return s;
    }
    // uniqueSlices.ToArray(): some ordering of the set
    var rest := uniqueSlices;
    var slices: seq<Slice> := [];
    while rest != {}
      invariant forall x :: x in slices || x in rest <==> x in uniqueSlices
      decreases |rest|
    {
      var x :| x in rest;
      slices := slices + [x];
      rest := rest - {x};
    }
    var sortedSlices := Sort(slices);
    assert forall x :: x in sortedSlices <==> x in uniqueSlices by {
      forall x ensures x in sortedSlices <==> x in slices {
        assert x in sortedSlices <==> x in multiset(sortedSlices);
        assert x in slices <==> x in multiset(slices);
      }
    }
    var some :| some in uniqueSlices;
    assert some in sortedSlices;
    SortedStartsOrdered(sortedSlices);
    var cleanSlices := Coalesce(sortedSlices, |s|);
    UnionIsStruck(sortedSlices, uniqueSlices);
    r := DeleteSlices(s, cleanSlices);
  }

  /** Remove(value, strings): the current culture, case-sensitive. */
  method RemoveStringsCurrentCulture(value: Option<string>, strings: Option<seq<Option<string>>>, cultures: Cultures) returns (r: Result<string>)
    ensures value.None? || value == Some("") ==> r == Err(ArgumentException)
    ensures value.Some? && value != Some("") && strings.None? ==> r == Err(ArgumentNullException("strings"))
    ensures value.Some? && value != Some("") && strings == Some([]) ==> r == Ok(value.value)
    ensures value.Some? && value != Some("") && strings.Some? && !AllPresent(strings.value) ==>
      r == Err(ArgumentNullException("value"))
    ensures (value.Some? && value != Some("") && strings.Some? && AllPresent(strings.value)) ==>
      r == Ok(Removed(Exact, value.value, Present(strings.value)))
  {
    r := RemoveStrings(value, StringComparison.CurrentCulture, strings, cultures);
  }

  // ---------------------------------------------------------------------------
  // Properties of string removal
  // ---------------------------------------------------------------------------

  /** The result is shorter than the value by exactly the number of covered indices. */
  lemma RemovedLength(fold: char -> char, v: string, needles: seq<string>)
    ensures |Removed(fold, v, needles)| == |v| - |Struck(Collected(fold, v, needles))|
  {
    var cover := Struck(Collected(fold, v, needles));
    KeepLength(v, cover, 0, |v|);
    forall k | k in cover ensures 0 <= k < |v| {
      var x :| x in Collected(fold, v, needles) && x.start <= k < x.End() && Holds(x, k);
      CollectedAreMatches(fold, v, needles, x);
    }
    assert (set k | k in cover && 0 <= k < |v|) == cover;
  }

  /** When no needle occurs, the value comes back unchanged. */
  lemma NothingFoundUnchanged(fold: char -> char, v: string, needles: seq<string>)
    requires forall k, j :: 0 <= k < |needles| ==> !MatchAt(fold, v, needles[k], j)
    ensures Removed(fold, v, needles) == v
  {
    if Collected(fold, v, needles) != {} {
      var x :| x in Collected(fold, v, needles);
      CollectedAreMatches(fold, v, needles, x);
    }
    assert Struck({}) == {};
    KeepUncovered(v, {}, 0, |v|);
    assert v[0..|v|] == v;
  }

  /** The spans of a needle are collected by any array that holds it. */
  lemma {:induction false} NeedleCollected(fold: char -> char, v: string, needles: seq<string>, k: nat)
    requires k < |needles|
    ensures NeedleSlices(fold, v, needles[k]) <= Collected(fold, v, needles)
    decreases |needles|
  {
    if k < |needles| - 1 {
      var p := needles[..|needles| - 1];
      assert p[k] == needles[k];
      NeedleCollected(fold, v, p, k);
    }
  }

  /** A repeated needle adds no span: the HashSet keeps one copy of each. */
  lemma DuplicateNeedleCollapses(fold: char -> char, v: string, needles: seq<string>, k: nat)
    requires k < |needles|
    ensures Collected(fold, v, needles + [needles[k]]) == Collected(fold, v, needles)
    ensures Removed(fold, v, needles + [needles[k]]) == Removed(fold, v, needles)
  {
    assert (needles + [needles[k]])[..|needles|] == needles;
    NeedleCollected(fold, v, needles, k);
  }

  /** "ab" is matched in "aabb" at index 1 only. */
  lemma AabbSpans()
    ensures Collected(Exact, "aabb", ["ab"]) == {Slice(1, 2)}
  {
    var v := "aabb";
    assert MatchAt(Exact, v, "ab", 1) by {
      assert Agrees(Exact, v, "ab", 1, 0) && Agrees(Exact, v, "ab", 1, 1);
    }
    forall j: nat | j != 1 ensures !MatchAt(Exact, v, "ab", j) {
      if j == 0 {
        assert !Agrees(Exact, v, "ab", 0, 1);
      } else if j == 2 {
        assert !Agrees(Exact, v, "ab", 2, 0);
      }
    }
    assert NeedleSlices(Exact, v, "ab") == {Slice(1, 2)};
    assert ["ab"][..0] == [];
  }

  /**
   * Removal is not idempotent: removing "ab" from "aabb" leaves "ab", and
   * removing it again leaves "".
   */
  lemma RemovalNotIdempotent()
    ensures Removed(Exact, "aabb", ["ab"]) == "ab"
    ensures Removed(Exact, "ab", ["ab"]) == ""
  {
    AabbSpans();
    var cover := Struck({Slice(1, 2)});
    assert cover == {1, 2} by {
      assert Holds(Slice(1, 2), 1) && Holds(Slice(1, 2), 2);
    }
    KeepSplit("aabb", cover, 0, 1, 4);
    KeepSplit("aabb", cover, 1, 3, 4);
    KeepUncovered("aabb", cover, 0, 1);
    KeepCovered("aabb", cover, 1, 3);
    KeepUncovered("aabb", cover, 3, 4);
    assert "aabb"[0..1] + "aabb"[3..4] == "ab";
    var w := "ab";
    assert MatchAt(Exact, w, "ab", 0) by {
      assert Agrees(Exact, w, "ab", 0, 0) && Agrees(Exact, w, "ab", 0, 1);
    }
    assert NeedleSlices(Exact, w, "ab") == {Slice(0, 2)};
    assert ["ab"][..0] == [];
    var whole := Struck({Slice(0, 2)});
    assert whole == {0, 1} by {
      assert Holds(Slice(0, 2), 0) && Holds(Slice(0, 2), 1);
    }
    KeepCovered(w, whole, 0, 2);
  }

  /**
   * Self-overlapping matches are all struck: "aba" matches "ababa" at 0 and at
   * 2, so with "bab" nothing is left. A search resuming at the end of each
   * match would skip the match at 2 and keep the last "a".
   */
  lemma OverlappingMatchesRemoved()
    ensures Removed(Exact, "ababa", ["aba", "bab"]) == ""
  {
    var v := "ababa";
    assert MatchAt(Exact, v, "aba", 0) by {
      assert Agrees(Exact, v, "aba", 0, 0) && Agrees(Exact, v, "aba", 0, 1) && Agrees(Exact, v, "aba", 0, 2);
    }
    assert MatchAt(Exact, v, "aba", 2) by {
      assert Agrees(Exact, v, "aba", 2, 0) && Agrees(Exact, v, "aba", 2, 1) && Agrees(Exact, v, "aba", 2, 2);
    }
    assert Slice(0, 3) in NeedleSlices(Exact, v, "aba");
    assert Slice(2, 3) in NeedleSlices(Exact, v, "aba");
    NeedleCollected(Exact, v, ["aba", "bab"], 0);
    var spans := Collected(Exact, v, ["aba", "bab"]);
    forall k | 0 <= k < 5 ensures k in Struck(spans) {
      if k < 3 {
        assert Holds(Slice(0, 3), k);
      } else {
        assert Holds(Slice(2, 3), k);
      }
    }
    KeepCovered(v, Struck(spans), 0, 5);
  }

  // ---------------------------------------------------------------------------
  // The collection loop as written
  // ---------------------------------------------------------------------------

  /**
   * The value of sliceIndex after the loop condition
   * `(sliceIndex = value.IndexOf(s, sliceIndex)) > -1` has been evaluated `n`
   * times, or -1 once a search has failed and the loop has ended.
   */
  function AsWrittenSliceIndex(fold: char -> char, v: string, needle: string, n: nat): (r: int)
    ensures -1 <= r <= |v|
  {
    if n == 0 then 0
    else
      var previous := AsWrittenSliceIndex(fold, v, needle, n - 1);
      if previous < 0 then -1 else IndexOf(fold, v, needle, previous)
  }

  /**
   * As written, the loop never advances: once a needle is found, every later
   * evaluation of the condition finds the same match again, so the loop does
   * not end.
   */
  lemma {:induction false} AsWrittenSearchStuck(fold: char -> char, v: string, needle: string, n: nat)
    requires IndexOf(fold, v, needle, 0) != -1 && n >= 1
    ensures AsWrittenSliceIndex(fold, v, needle, n) == IndexOf(fold, v, needle, 0)
  {
    if n > 1 {
      AsWrittenSearchStuck(fold, v, needle, n - 1);
      var j := IndexOf(fold, v, needle, 0);
      IndexOfFindsFirst(fold, v, needle, 0);
      IndexOfFirstMatch(fold, v, needle, j, j);
    }
  }
}
