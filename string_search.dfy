/**
 * The framework's string search primitives that the library calls
 * (string.IndexOf, string.LastIndexOf, string.Equals with a StringComparison).
 * Culture-aware matching is not reimplemented: a comparison is resolved to a
 * per-character fold (the identity, or a culture's upper-case mapping) and
 * matching is ordinal on the folded characters, so a match always has the
 * length of the needle.
 */
module StringSearch {
  import opened Wrappers
  import opened Globalization

  /** System.StringComparison; any other numeric value is `UndefinedStringComparison`. */
  datatype StringComparison =
    | CurrentCulture
    | CurrentCultureIgnoreCase
    | InvariantCulture
    | InvariantCultureIgnoreCase
    | Ordinal
    | OrdinalIgnoreCase
    | UndefinedStringComparison(code: int)

  /** The identity fold: case-sensitive matching. */
  function Exact(c: char): char { c }

  /**
   * Resolves a comparison to the fold it matches under. The framework rejects a
   * value outside the enumeration with an ArgumentException.
   */
  function FoldOf(comparison: StringComparison, cultures: Cultures): (r: Result<char -> char>)
    ensures r.Err? <==> comparison.UndefinedStringComparison?
    ensures r.Err? ==> r.error == ArgumentException
    ensures comparison in {CurrentCulture, InvariantCulture, Ordinal} ==> r == Ok(Exact)
    ensures comparison == CurrentCultureIgnoreCase ==> r == Ok(cultures.current.upper)
    ensures comparison in {InvariantCultureIgnoreCase, OrdinalIgnoreCase} ==> r == Ok(cultures.fixed.upper)
  {
    match comparison
    case CurrentCulture => Ok(Exact)
    case InvariantCulture => Ok(Exact)
    case Ordinal => Ok(Exact)
    case CurrentCultureIgnoreCase => Ok(cultures.current.upper)
    case InvariantCultureIgnoreCase => Ok(cultures.fixed.upper)
    case OrdinalIgnoreCase => Ok(cultures.fixed.upper)
    case UndefinedStringComparison(_) => Err(ArgumentException)
  }

  /** `needle` occurs in `s` at index `j` under `fold`. */
  predicate MatchAt(fold: char -> char, s: string, needle: string, j: int)
  {
    0 <= j && j + |needle| <= |s| && forall k :: 0 <= k < |needle| ==> Agrees(fold, s, needle, j, k)
  }

  /** Character `k` of `needle` matches character `j + k` of `s` under `fold`. */
  predicate Agrees(fold: char -> char, s: string, needle: string, j: int, k: int)
  {
    0 <= k < |needle| && 0 <= j + k < |s| && fold(s[j + k]) == fold(needle[k])
  }

  /** string.Equals(a, b, comparison) under the fold of the comparison. */
  predicate StringEquals(fold: char -> char, a: string, b: string)
  {
    |a| == |b| && forall k :: 0 <= k < |a| ==> fold(a[k]) == fold(b[k])
  }

  /**
   * value.IndexOf(needle, from, comparison): the first match at or after `from`,
   * or -1. An empty needle matches at `from` itself.
   */
  function IndexOf(fold: char -> char, s: string, needle: string, from: nat): (r: int)
    requires from <= |s|
    ensures r == -1 || (from <= r && r + |needle| <= |s|)
    decreases |s| - from
  {
    if from + |needle| > |s| then -1
    else if MatchAt(fold, s, needle, from) then from
    else IndexOf(fold, s, needle, from + 1)
  }

  /**
   * IndexOf finds the first match at or after `from`: what it returns is a
   * match with none before it, and -1 means there is no match at all.
   */
  lemma {:induction false} IndexOfFindsFirst(fold: char -> char, s: string, needle: string, from: nat)
    requires from <= |s|
    ensures IndexOf(fold, s, needle, from) == -1 || MatchAt(fold, s, needle, IndexOf(fold, s, needle, from))
    ensures IndexOf(fold, s, needle, from) == -1 ==> forall j :: from <= j ==> !MatchAt(fold, s, needle, j)
    ensures forall j :: from <= j < IndexOf(fold, s, needle, from) ==> !MatchAt(fold, s, needle, j)
    decreases |s| - from
  {
    if from + |needle| <= |s| && !MatchAt(fold, s, needle, from) {
      IndexOfFindsFirst(fold, s, needle, from + 1);
    }
  }

  /** value.LastIndexOf(needle, comparison): the last match, or -1. */
  function LastIndexOf(fold: char -> char, s: string, needle: string): (r: int)
    ensures r == -1 || MatchAt(fold, s, needle, r)
    ensures r == -1 ==> forall j :: !MatchAt(fold, s, needle, j)
    ensures r != -1 ==> forall j :: r < j ==> !MatchAt(fold, s, needle, j)
  {
    if |needle| > |s| then -1 else LastMatchAtOrBefore(fold, s, needle, |s| - |needle|)
  }

  /** The last match at an index no greater than `j`, or -1. */
  function LastMatchAtOrBefore(fold: char -> char, s: string, needle: string, j: int): (r: int)
    requires j + |needle| <= |s|
    ensures r == -1 || (r <= j && MatchAt(fold, s, needle, r))
    ensures r == -1 ==> forall i :: i <= j ==> !MatchAt(fold, s, needle, i)
    ensures r != -1 ==> forall i :: r < i <= j ==> !MatchAt(fold, s, needle, i)
    decreases j + 1
  {
    if j < 0 then -1
    else if MatchAt(fold, s, needle, j) then j
    else LastMatchAtOrBefore(fold, s, needle, j - 1)
  }

  /**
   * The start indices found by searching `needle` repeatedly from `from`,
   * resuming each search just past the previous match (non-overlapping,
   * left to right).
   */
  function MatchPositions(fold: char -> char, s: string, needle: string, from: nat): (r: seq<nat>)
    requires |needle| > 0 && from <= |s|
    decreases |s| - from
  {
    var i := IndexOf(fold, s, needle, from);
    if i == -1 then [] else [i as nat] + MatchPositions(fold, s, needle, i + |needle|)
  }

  /** The number of matches the repeated search from `from` finds. */
  function SearchCount(fold: char -> char, s: string, needle: string, from: nat): nat
    requires |needle| > 0 && from <= |s|
    decreases |s| - from
  {
    var i := IndexOf(fold, s, needle, from);
    if i == -1 then 0 else 1 + SearchCount(fold, s, needle, i + |needle|)
  }

  /**
   * One search from `from`: whether it finds a match, and where the next
   * search resumes. A match adds one to the count and one position.
   */
  lemma SearchStep(fold: char -> char, s: string, needle: string, from: nat) returns (found: bool, next: nat)
    requires |needle| > 0 && from <= |s|
    ensures found <==> IndexOf(fold, s, needle, from) != -1
    ensures !found ==> SearchCount(fold, s, needle, from) == 0 && MatchPositions(fold, s, needle, from) == []
    ensures found ==> from < next <= |s|
    ensures found ==> SearchCount(fold, s, needle, from) == 1 + SearchCount(fold, s, needle, next)
    ensures found ==> |MatchPositions(fold, s, needle, from)| == 1 + |MatchPositions(fold, s, needle, next)|
  {
    var i := IndexOf(fold, s, needle, from);
    found := i != -1;
    next := if found then i + |needle| else from;
  }

  /** Counting the repeated search's matches counts the positions it finds. */
  lemma {:induction false} SearchCountIsPositions(fold: char -> char, s: string, needle: string, from: nat)
    requires |needle| > 0 && from <= |s|
    ensures SearchCount(fold, s, needle, from) == |MatchPositions(fold, s, needle, from)|
    decreases |s| - from
  {
    var found, next := SearchStep(fold, s, needle, from);
    if found {
      SearchCountIsPositions(fold, s, needle, next);
    }
  }

  /** (c + 1) * n == c * n + n, kept out of the proofs about the search. */
  lemma MultiplySuccessor(c: nat, n: nat)
    ensures (1 + c) * n == c * n + n
  {
  }

  /** Every index of `ps` is a match of `needle` at or after `from`. */
  predicate AllMatchesFrom(fold: char -> char, s: string, needle: string, from: nat, ps: seq<nat>)
  {
    forall k :: 0 <= k < |ps| ==> from <= ps[k] && MatchAt(fold, s, needle, ps[k])
  }

  /** Consecutive indices of `ps` are at least `n` apart. */
  predicate Spaced(ps: seq<nat>, n: nat)
  {
    forall k :: 0 <= k < |ps| - 1 ==> ps[k] + n <= ps[k + 1]
  }

  /** Every position found is a match at or after `from`. */
  lemma {:induction false} MatchPositionsAreMatches(fold: char -> char, s: string, needle: string, from: nat)
    requires |needle| > 0 && from <= |s|
    ensures AllMatchesFrom(fold, s, needle, from, MatchPositions(fold, s, needle, from))
    decreases |s| - from
  {
    var i := IndexOf(fold, s, needle, from);
    IndexOfFindsFirst(fold, s, needle, from);
    if i != -1 {
      MatchPositionsAreMatches(fold, s, needle, i + |needle|);
      var rest := MatchPositions(fold, s, needle, i + |needle|);
      var ps := MatchPositions(fold, s, needle, from);
      assert ps == [i as nat] + rest;
      forall k | 1 <= k < |ps| ensures from <= ps[k] && MatchAt(fold, s, needle, ps[k]) {
        assert ps[k] == rest[k - 1];
      }
    }
  }

  /**
   * Consecutive positions are at least |needle| apart: the counted matches do not
   * overlap.
   */
  lemma {:induction false} MatchPositionsDisjoint(fold: char -> char, s: string, needle: string, from: nat)
    requires |needle| > 0 && from <= |s|
    ensures Spaced(MatchPositions(fold, s, needle, from), |needle|)
    decreases |s| - from
  {
    var i := IndexOf(fold, s, needle, from);
    if i != -1 {
      MatchPositionsDisjoint(fold, s, needle, i + |needle|);
      MatchPositionsAreMatches(fold, s, needle, i + |needle|);
      var rest := MatchPositions(fold, s, needle, i + |needle|);
      var ps := MatchPositions(fold, s, needle, from);
      assert ps == [i as nat] + rest;
      forall k | 0 <= k < |ps| - 1 ensures ps[k] + |needle| <= ps[k + 1] {
        assert ps[k + 1] == rest[k];
        if k > 0 { assert ps[k] == rest[k - 1]; }
      }
    }
  }

  /** A match with none before it, from `from` on, is what IndexOf finds. */
  lemma {:induction false} IndexOfFirstMatch(fold: char -> char, s: string, needle: string, from: nat, j: nat)
    requires from <= j && MatchAt(fold, s, needle, j)
    requires forall i :: from <= i < j ==> !MatchAt(fold, s, needle, i)
    ensures IndexOf(fold, s, needle, from) == j
    decreases j - from
  {
    if from < j {
      IndexOfFirstMatch(fold, s, needle, from + 1, j);
    }
  }

  /**
   * The repeated search from the start finds something exactly when the needle
   * occurs: a positive count, or zero when the needle cannot be found.
   */
  lemma PositiveIffFound(fold: char -> char, s: string, needle: string)
    requires |needle| > 0
    ensures |MatchPositions(fold, s, needle, 0)| > 0 <==> exists j :: MatchAt(fold, s, needle, j)
  {
    IndexOfFindsFirst(fold, s, needle, 0);
    var i := IndexOf(fold, s, needle, 0);
    if i != -1 {
      assert MatchAt(fold, s, needle, i);
    }
  }

  /** No match at or after `from` means no position is found. */
  lemma {:induction false} MatchPositionsNone(fold: char -> char, s: string, needle: string, from: nat)
    requires |needle| > 0 && from <= |s|
    requires forall j :: from <= j ==> !MatchAt(fold, s, needle, j)
    ensures MatchPositions(fold, s, needle, from) == []
  {
    IndexOfFindsFirst(fold, s, needle, from);
  }
}
