/**
 * Word counting: a word is a maximal run of characters that are not white space.
 * char.IsWhiteSpace is passed in as `isWhiteSpace`.
 */
module TextWork {
  import opened Wrappers
  import opened StringEmpty

  /** Position `k` of `s` starts a word: it is not white space and follows white space or the start. */
  predicate WordStart(s: string, k: int, isWhiteSpace: char -> bool)
    requires 0 <= k < |s|
  {
    !isWhiteSpace(s[k]) && (k == 0 || isWhiteSpace(s[k - 1]))
  }

  /** The number of words of `s`, counted as word starts from the left end to the right end. */
  function Words(s: string, isWhiteSpace: char -> bool): (r: nat)
    ensures r <= |s|
    decreases |s|
  {
    if |s| == 0 then 0
    else Words(s[..|s| - 1], isWhiteSpace) + (if WordStart(s, |s| - 1, isWhiteSpace) then 1 else 0)
  }

  /** 1 when `s` ends with a word of exactly one character, else 0. */
  function LoneLastLetter(s: string, isWhiteSpace: char -> bool): nat
  {
    if |s| > 0 && WordStart(s, |s| - 1, isWhiteSpace) then 1 else 0
  }

  /**
   * GetWordCount as written: `wasInside` is set one character after a
   * non-white-space character, so the closing check after the loop misses a last
   * word of length one ("a" gives 0, "ab c" gives 1).
   */
  method GetWordCount(text: Option<string>, isWhiteSpace: char -> bool) returns (r: int)
    ensures IsNullOrWhiteSpace(text, isWhiteSpace) ==> r == 0
    ensures text.Some? ==> r == Words(text.value, isWhiteSpace) - LoneLastLetter(text.value, isWhiteSpace)
    ensures r >= 0 && (text.Some? ==> r <= |text.value|)
  {
    var wordCount := 0;
    if IsNullOrWhiteSpace(text, isWhiteSpace) {
      if text.Some? {
        NoWordsInWhiteSpace(text.value, isWhiteSpace);
      }
      return wordCount;
    }
    var s := text.value;
    var isInside := false;
    var wasInside := false;
    for i := 0 to |s|
      invariant isInside == (i > 0 && !isWhiteSpace(s[i - 1]))
      invariant wasInside == (i >= 2 && !isWhiteSpace(s[i - 1]) && !isWhiteSpace(s[i - 2]))
      invariant wasInside ==> isInside
      invariant wordCount == Words(s[..i], isWhiteSpace) - (if isInside then 1 else 0)
    {
      assert s[..i + 1][..i] == s[..i];
      if isInside {
        wasInside := true;
      }
      if isWhiteSpace(s[i]) {
        if wasInside {
          wordCount := wordCount + 1;
          wasInside := false;
        }
        isInside := false;
      } else {
        isInside := true;
      }
    }
    assert s[..|s|] == s;
    if wasInside {
      wordCount := wordCount + 1;
    }
    return wordCount;
  }

  /**
   * The evidently intended count: the closing check asks whether the text ends
   * inside a word, which `isInside` records.
   */
  method GetWordCountCorrected(text: Option<string>, isWhiteSpace: char -> bool) returns (r: nat)
    ensures r == if text.None? then 0 else Words(text.value, isWhiteSpace)
    ensures IsNullOrWhiteSpace(text, isWhiteSpace) ==> r == 0
    ensures text.Some? ==> r <= |text.value|
  {
    var wordCount := 0;
    if IsNullOrWhiteSpace(text, isWhiteSpace) {
      if text.Some? {
        NoWordsInWhiteSpace(text.value, isWhiteSpace);
      }
      return wordCount;
    }
    var s := text.value;
    var isInside := false;
    for i := 0 to |s|
      invariant isInside == (i > 0 && !isWhiteSpace(s[i - 1]))
      invariant wordCount == Words(s[..i], isWhiteSpace) - (if isInside then 1 else 0)
    {
      assert s[..i + 1][..i] == s[..i];
      if isWhiteSpace(s[i]) {
        if isInside {
          wordCount := wordCount + 1;
        }
        isInside := false;
      } else {
        isInside := true;
      }
    }
    assert s[..|s|] == s;
    if isInside {
      wordCount := wordCount + 1;
    }
    return wordCount;
  }

  /** White space holds no words. */
  lemma {:induction false} NoWordsInWhiteSpace(s: string, isWhiteSpace: char -> bool)
    requires AllWhiteSpace(s, isWhiteSpace)
    ensures Words(s, isWhiteSpace) == 0
    decreases |s|
  {
    if |s| > 0 {
      NoWordsInWhiteSpace(s[..|s| - 1], isWhiteSpace);
    }
  }

  /** Words separated by a white-space character add up. */
  lemma {:induction false} WordsAcrossSeparator(a: string, c: char, b: string, isWhiteSpace: char -> bool)
    requires isWhiteSpace(c)
    ensures Words(a + [c] + b, isWhiteSpace) == Words(a, isWhiteSpace) + Words(b, isWhiteSpace)
    decreases |b|
  {
    var t := a + [c] + b;
    if |b| == 0 {
      assert t[..|t| - 1] == a;
    } else {
      var b' := b[..|b| - 1];
      WordsAcrossSeparator(a, c, b', isWhiteSpace);
      assert t[..|t| - 1] == a + [c] + b';
      assert t[|t| - 1] == b[|b| - 1];
      assert |t| - 2 >= |a| ==> t[|t| - 2] == if |b| >= 2 then b[|b| - 2] else c;
    }
  }

  /**
   * Leading, trailing and repeated white space leave the count alone: a
   * white-space character next to another one, or at either end, adds nothing.
   */
  lemma WhiteSpaceRunsIgnored(a: string, c: char, b: string, isWhiteSpace: char -> bool)
    requires isWhiteSpace(c)
    ensures Words(a + [c, c] + b, isWhiteSpace) == Words(a + [c] + b, isWhiteSpace)
    ensures Words([c] + b, isWhiteSpace) == Words(b, isWhiteSpace)
    ensures Words(a + [c], isWhiteSpace) == Words(a, isWhiteSpace)
  {
    DoubledWhiteSpace(a, c, b, isWhiteSpace);
    LeadingWhiteSpace(c, b, isWhiteSpace);
    TrailingWhiteSpace(a, c, isWhiteSpace);
  }

  /** A doubled white-space character counts as a single one. */
  lemma DoubledWhiteSpace(a: string, c: char, b: string, isWhiteSpace: char -> bool)
    requires isWhiteSpace(c)
    ensures Words(a + [c, c] + b, isWhiteSpace) == Words(a + [c] + b, isWhiteSpace)
  {
    LeadingWhiteSpace(c, b, isWhiteSpace);
    WordsAcrossSeparator(a, c, [c] + b, isWhiteSpace);
    assert a + [c] + ([c] + b) == a + [c, c] + b;
    WordsAcrossSeparator(a, c, b, isWhiteSpace);
  }

  /** Leading white space adds no word. */
  lemma LeadingWhiteSpace(c: char, b: string, isWhiteSpace: char -> bool)
    requires isWhiteSpace(c)
    ensures Words([c] + b, isWhiteSpace) == Words(b, isWhiteSpace)
  {
    WordsAcrossSeparator([], c, b, isWhiteSpace);
    assert [] + [c] + b == [c] + b;
  }

  /** Trailing white space adds no word. */
  lemma TrailingWhiteSpace(a: string, c: char, isWhiteSpace: char -> bool)
    requires isWhiteSpace(c)
    ensures Words(a + [c], isWhiteSpace) == Words(a, isWhiteSpace)
  {
    WordsAcrossSeparator(a, c, [], isWhiteSpace);
    assert a + [c] + [] == a + [c];
  }

  /** Every word but the last is followed by white space, so at most every second character starts one. */
  lemma {:induction false} WordsBound(s: string, isWhiteSpace: char -> bool)
    ensures 2 * Words(s, isWhiteSpace) <= |s| + 1
    decreases |s|
  {
    if |s| >= 2 {
      WordsBound(s[..|s| - 1], isWhiteSpace);
      WordsBound(s[..|s| - 2], isWhiteSpace);
      assert s[..|s| - 1][..|s| - 2] == s[..|s| - 2];
      if WordStart(s, |s| - 1, isWhiteSpace) {
        assert !WordStart(s[..|s| - 1], |s| - 2, isWhiteSpace);
      }
    }
  }

  /** "ab c" has two words, yet the loop as written reports one. */
  lemma LoneLastLetterLost(isWhiteSpace: char -> bool)
    requires isWhiteSpace(' ') && !isWhiteSpace('a') && !isWhiteSpace('b') && !isWhiteSpace('c')
    ensures Words("ab c", isWhiteSpace) == 2
    ensures Words("ab c", isWhiteSpace) - LoneLastLetter("ab c", isWhiteSpace) == 1
  {
    assert "ab c"[..3] == "ab ";
    assert "ab "[..2] == "ab";
    assert "ab"[..1] == "a";
    assert "a"[..0] == "";
  }

  /** "Hello world" has two words and both versions count them. */
  lemma HelloWorld(isWhiteSpace: char -> bool)
    requires isWhiteSpace(' ')
    requires forall c :: c in "Helowrd" ==> !isWhiteSpace(c)
    ensures Words("Hello world", isWhiteSpace) == 2
    ensures LoneLastLetter("Hello world", isWhiteSpace) == 0
  {
    WordsAcrossSeparator("Hello", ' ', "world", isWhiteSpace);
    assert "Hello" + [' '] + "world" == "Hello world";
    assert forall k :: 0 <= k < 5 ==> "Hello"[k] in "Helowrd";
    OneWord("Hello", isWhiteSpace);
    assert forall k :: 0 <= k < 5 ==> "world"[k] in "Helowrd";
    OneWord("world", isWhiteSpace);
  }

  /** A non-empty run without white space is one word. */
  lemma {:induction false} OneWord(s: string, isWhiteSpace: char -> bool)
    requires |s| > 0 && forall k :: 0 <= k < |s| ==> !isWhiteSpace(s[k])
    ensures Words(s, isWhiteSpace) == 1
    decreases |s|
  {
    if |s| > 1 {
      OneWord(s[..|s| - 1], isWhiteSpace);
    } else {
      assert s[..0] == [];
    }
  }

  /** `n` copies of one white-space character. */
  function Blanks(c: char, n: nat): (r: string)
    ensures |r| == n && forall k :: 0 <= k < n ==> r[k] == c
  {
    if n == 0 then [] else Blanks(c, n - 1) + [c]
  }

  /** A run of white space between, before or after words counts as one separator or none. */
  lemma {:induction false} BlankRunsIgnored(a: string, c: char, n: nat, b: string, isWhiteSpace: char -> bool)
    requires isWhiteSpace(c) && n >= 1
    ensures Words(a + Blanks(c, n) + b, isWhiteSpace) == Words(a + [c] + b, isWhiteSpace)
    decreases n
  {
    if n > 1 {
      BlankRunsIgnored(a, c, n - 1, [c] + b, isWhiteSpace);
      assert a + Blanks(c, n - 1) + ([c] + b) == a + Blanks(c, n) + b;
      WhiteSpaceRunsIgnored(a, c, b, isWhiteSpace);
      assert a + [c] + ([c] + b) == a + [c, c] + b;
    } else {
      assert Blanks(c, 1) == [c];
    }
  }

  /** Runs of white space before and after `m` leave its count alone. */
  lemma PaddingIgnored(m: string, c: char, before: nat, after: nat, isWhiteSpace: char -> bool)
    requires isWhiteSpace(c) && before >= 1 && after >= 1
    ensures Words(Blanks(c, before) + m + Blanks(c, after), isWhiteSpace) == Words(m, isWhiteSpace)
  {
    var tail := m + Blanks(c, after);
    BlankRunsIgnored([], c, before, tail, isWhiteSpace);
    assert [] + Blanks(c, before) + tail == Blanks(c, before) + m + Blanks(c, after);
    WhiteSpaceRunsIgnored([], c, tail, isWhiteSpace);
    assert [] + [c] + tail == [c] + tail;
    BlankRunsIgnored(m, c, after, [], isWhiteSpace);
    assert m + Blanks(c, after) + [] == tail;
    WhiteSpaceRunsIgnored(m, c, [], isWhiteSpace);
    assert m + [c] + [] == m + [c];
  }

  /** The padded test sentence is the two words with runs of blanks around them. */
  lemma PaddedHelloWorldPieces()
    ensures "       Hello      world       " == Blanks(' ', 7) + ("Hello" + Blanks(' ', 6) + "world") + Blanks(' ', 7)
  {
  }

  /** "       Hello      world       " still has two words. */
  lemma PaddedHelloWorld(isWhiteSpace: char -> bool)
    requires isWhiteSpace(' ')
    requires forall c :: c in "Helowrd" ==> !isWhiteSpace(c)
    ensures Words("       Hello      world       ", isWhiteSpace) == 2
  {
    PaddedHelloWorldPieces();
    var middle := "Hello" + Blanks(' ', 6) + "world";
    PaddingIgnored(middle, ' ', 7, 7, isWhiteSpace);
    BlankRunsIgnored("Hello", ' ', 6, "world", isWhiteSpace);
    HelloWorld(isWhiteSpace);
    assert "Hello" + [' '] + "world" == "Hello world";
  }
}
