/**
 * The counting examples of the unit tests, on the path
 * "/folder/subfolder/subfolder/subfolder/file.txt".
 */
module CountOccurrencesExamples {
  import opened Globalization
  import opened StringSearch
  import opened CultureAwareCharacterComparer
  import opened CountOccurrences

  // The path is handled through its pieces, so that indices and counts are
  // computed on short strings.
  const Dir: string := "/folder/"
  const Sub: string := "subfolder"
  const File: string := "file.txt"

  /** The sample path, assembled from its pieces. */
  function SamplePathOfPieces(): string
  {
    Dir + Sub + "/" + Sub + "/" + Sub + "/" + File
  }

  /** The sample path literal is the assembled path. */
  lemma SamplePathPieces()
    ensures "/folder/subfolder/subfolder/subfolder/file.txt" == SamplePathOfPieces()
  {
    SamplePathHalves();
    SampleHalvesPieces();
  }

  /** The literal, split after its first "subfolder/". */
  lemma SamplePathHalves()
    ensures "/folder/subfolder/subfolder/subfolder/file.txt" == "/folder/subfolder/" + "subfolder/subfolder/file.txt"
  {
  }

  /** The two halves assemble to the pieces. */
  lemma SampleHalvesPieces()
    ensures "/folder/subfolder/" + "subfolder/subfolder/file.txt" == SamplePathOfPieces()
  {
  }

  /** Only the three copies of "subfolder" start with 's'. */
  lemma SampleMatchesAtMost()
    ensures forall j :: MatchAt(Exact, SamplePathOfPieces(), Sub, j) ==> j == 8 || j == 18 || j == 28
  {
    var p := SamplePathOfPieces();
    assert 's' !in Dir && 's' !in Sub[1..] && 's' !in File && 's' != '/';
    forall j | MatchAt(Exact, p, Sub, j) ensures j == 8 || j == 18 || j == 28 {
      assert Agrees(Exact, p, Sub, j, 0);
    }
  }

  /** The three copies of "subfolder" are matches. */
  lemma SampleMatches()
    ensures MatchAt(Exact, SamplePathOfPieces(), Sub, 8)
    ensures MatchAt(Exact, SamplePathOfPieces(), Sub, 18)
    ensures MatchAt(Exact, SamplePathOfPieces(), Sub, 28)
  {
  }

  /** The repeated search over the assembled path finds three positions. */
  lemma CountStringExamplePieces()
    ensures |MatchPositions(Exact, SamplePathOfPieces(), Sub, 0)| == 3
  {
    var p := SamplePathOfPieces();
    SampleFirstFinds();
    SampleLastFinds();
    assert MatchPositions(Exact, p, Sub, 0) == [8] + MatchPositions(Exact, p, Sub, 17);
    assert MatchPositions(Exact, p, Sub, 17) == [18] + MatchPositions(Exact, p, Sub, 27);
    assert MatchPositions(Exact, p, Sub, 27) == [28] + MatchPositions(Exact, p, Sub, 37);
  }

  /** The first two searches of the counting loop. */
  lemma SampleFirstFinds()
    ensures IndexOf(Exact, SamplePathOfPieces(), Sub, 0) == 8
    ensures IndexOf(Exact, SamplePathOfPieces(), Sub, 17) == 18
  {
    var p := SamplePathOfPieces();
    SampleMatchesAtMost();
    SampleMatches();
    IndexOfFirstMatch(Exact, p, Sub, 0, 8);
    IndexOfFirstMatch(Exact, p, Sub, 17, 18);
  }

  /** The last two searches of the counting loop: the third match, then none. */
  lemma SampleLastFinds()
    ensures IndexOf(Exact, SamplePathOfPieces(), Sub, 27) == 28
    ensures MatchPositions(Exact, SamplePathOfPieces(), Sub, 37) == []
  {
    var p := SamplePathOfPieces();
    SampleMatchesAtMost();
    SampleMatches();
    IndexOfFirstMatch(Exact, p, Sub, 27, 28);
    MatchPositionsNone(Exact, p, Sub, 37);
  }

  /** "subfolder" occurs three times (case-sensitive, the default comparison). */
  lemma CountStringExample()
    ensures |MatchPositions(Exact, "/folder/subfolder/subfolder/subfolder/file.txt", "subfolder", 0)| == 3
  {
    SamplePathPieces();
    CountStringExamplePieces();
  }

  /** The count over the path is the sum of the counts over its pieces. */
  lemma CountSamplePieces(cmp: Comparer, t: char)
    ensures MatchCount(cmp, SamplePathOfPieces(), t) ==
      MatchCount(cmp, Dir, t) + 3 * MatchCount(cmp, Sub, t) + 3 * MatchCount(cmp, "/", t) + MatchCount(cmp, File, t)
  {
    var x1 := Dir + Sub;
    var x2 := x1 + "/";
    var x3 := x2 + Sub;
    var x4 := x3 + "/";
    var x5 := x4 + Sub;
    var x6 := x5 + "/";
    MatchCountAppend(cmp, Dir, Sub, t);
    MatchCountAppend(cmp, x1, "/", t);
    MatchCountAppend(cmp, x2, Sub, t);
    MatchCountAppend(cmp, x3, "/", t);
    MatchCountAppend(cmp, x4, Sub, t);
    MatchCountAppend(cmp, x5, "/", t);
    MatchCountAppend(cmp, x6, File, t);
  }

  /** No character of `s` compares equal to `t`: the count is zero. */
  lemma {:induction false} MatchCountZero(cmp: Comparer, s: string, t: char)
    requires forall k :: 0 <= k < |s| ==> Compare(cmp, s[k], t) != 0
    ensures MatchCount(cmp, s, t) == 0
    decreases |s|
  {
    if |s| > 0 {
      MatchCountZero(cmp, s[..|s| - 1], t);
    }
  }

  /** Only the character at `i` compares equal to `t`: the count is one. */
  lemma MatchCountSingle(cmp: Comparer, s: string, t: char, i: nat)
    requires i < |s| && Compare(cmp, s[i], t) == 0
    requires forall k :: 0 <= k < |s| && k != i ==> Compare(cmp, s[k], t) != 0
    ensures MatchCount(cmp, s, t) == 1
  {
    var a, b := s[..i + 1], s[i + 1..];
    assert s == a + b;
    MatchCountAppend(cmp, a, b, t);
    MatchCountZero(cmp, a[..i], t);
    MatchCountZero(cmp, b, t);
  }

  /** Each piece holds one 'f', the separator none. */
  lemma PieceCountsF(c: Culture)
    ensures MatchCount(Comparer(c, false), Dir, 'f') == 1
    ensures MatchCount(Comparer(c, false), Sub, 'f') == 1
    ensures MatchCount(Comparer(c, false), "/", 'f') == 0
    ensures MatchCount(Comparer(c, false), File, 'f') == 1
  {
    var cmp := Comparer(c, false);
    MatchCountSingle(cmp, Dir, 'f', 1);
    MatchCountSingle(cmp, Sub, 'f', 3);
    MatchCountZero(cmp, "/", 'f');
    MatchCountSingle(cmp, File, 'f', 0);
  }

  /** Five characters of the assembled path are 'f'. */
  lemma CountCharacterExamplePieces(c: Culture)
    ensures MatchCount(Comparer(c, false), SamplePathOfPieces(), 'f') == 5
  {
    CountSamplePieces(Comparer(c, false), 'f');
    PieceCountsF(c);
  }

  /** 'f' occurs five times under a case-sensitive comparer. */
  lemma CountCharacterExample(c: Culture)
    ensures MatchCount(Comparer(c, false), "/folder/subfolder/subfolder/subfolder/file.txt", 'f') == 5
  {
    SamplePathPieces();
    CountCharacterExamplePieces(c);
  }

  /** Under the case-insensitive comparer only "file.txt" holds characters matching 'T'. */
  lemma PieceCountsT(c: Culture)
    requires c.upper('t') == 'T' && c.upper('T') == 'T'
    requires forall x :: x in "/folderubis.x" ==> c.upper(x) != 'T'
    ensures MatchCount(Comparer(c, true), Dir, 'T') == 0
    ensures MatchCount(Comparer(c, true), Sub, 'T') == 0
    ensures MatchCount(Comparer(c, true), "/", 'T') == 0
    ensures MatchCount(Comparer(c, true), File, 'T') == 2
  {
    var cmp := Comparer(c, true);
    var D := "/folderubis.x";
    assert forall k :: 0 <= k < |Dir| ==> Dir[k] in D;
    MatchCountZero(cmp, Dir, 'T');
    assert forall k :: 0 <= k < |Sub| ==> Sub[k] in D;
    MatchCountZero(cmp, Sub, 'T');
    assert "/"[0] in D;
    MatchCountZero(cmp, "/", 'T');
    FileCountT(c);
  }

  /** "file.txt" holds two characters whose upper case is 'T'. */
  lemma FileCountT(c: Culture)
    requires c.upper('t') == 'T' && c.upper('T') == 'T'
    requires forall x :: x in "/folderubis.x" ==> c.upper(x) != 'T'
    ensures MatchCount(Comparer(c, true), File, 'T') == 2
  {
    var cmp := Comparer(c, true);
    var D := "/folderubis.x";
    var f1, f2 := "file.t", "xt";
    assert File == f1 + f2;
    assert forall k :: 0 <= k < |f1| - 1 ==> f1[k] in D;
    MatchCountSingle(cmp, f1, 'T', 5);
    assert f2[0] in D;
    MatchCountSingle(cmp, f2, 'T', 1);
    MatchCountAppend(cmp, f1, f2, 'T');
  }

  /** Two characters of the assembled path match 'T' when case is ignored. */
  lemma CountIgnoreCaseExamplePieces(c: Culture)
    requires c.upper('t') == 'T' && c.upper('T') == 'T'
    requires forall x :: x in "/folderubis.x" ==> c.upper(x) != 'T'
    ensures MatchCount(Comparer(c, true), SamplePathOfPieces(), 'T') == 2
  {
    CountSamplePieces(Comparer(c, true), 'T');
    PieceCountsT(c);
  }

  /**
   * 'T' occurs twice when case is ignored, for a culture that maps 't' and 'T'
   * to 'T' and no other character of the path to 'T'.
   */
  lemma CountIgnoreCaseExample(c: Culture)
    requires c.upper('t') == 'T' && c.upper('T') == 'T'
    requires forall x :: x in "/folderubis.x" ==> c.upper(x) != 'T'
    ensures MatchCount(Comparer(c, true), "/folder/subfolder/subfolder/subfolder/file.txt", 'T') == 2
  {
    SamplePathPieces();
    CountIgnoreCaseExamplePieces(c);
  }
}
