/**
 * The shape check for base64 text: the 64-character alphabet of section 4 of
 * RFC 4648 followed by at most two '=' padding characters, in a length that is
 * a multiple of four.
 */
module Base64String {
  import opened Wrappers
  import opened StringEmpty

  /** `n` consecutive ASCII characters starting at `first`. */
  function CharRun(first: char, n: nat): (r: string)
    requires first as int + n <= 128
    ensures |r| == n
    ensures forall k :: 0 <= k < n ==> r[k] as int == first as int + k
  {
    seq(n, k requires 0 <= k < n => (first as int + k) as char)
  }

  /** The source's lookup table: 'A'..'Z', 'a'..'z', '0'..'9', '+', '/', in that order. */
  const Base64Chars: string := CharRun('A', 26) + CharRun('a', 26) + CharRun('0', 10) + ['+', '/']

  /** Membership in the table, by character ranges. */
  predicate IsBase64Char(c: char)
  {
    ('A' <= c <= 'Z') || ('a' <= c <= 'z') || ('0' <= c <= '9') || c == '+' || c == '/'
  }

  /** The table holds exactly the characters of the ranges. */
  lemma InTable(c: char)
    ensures c in Base64Chars <==> IsBase64Char(c)
  {
    if 'A' <= c <= 'Z' {
      assert Base64Chars[c as int - 'A' as int] == c;
    } else if 'a' <= c <= 'z' {
      assert Base64Chars[c as int - 'a' as int + 26] == c;
    } else if '0' <= c <= '9' {
      assert Base64Chars[c as int - '0' as int + 52] == c;
    } else if c == '+' {
      assert Base64Chars[62] == c;
    } else if c == '/' {
      assert Base64Chars[63] == c;
    }
  }

  /** The padding character. */
  const PaddingChar: char := '='

  /** Every character of `s` belongs to the alphabet. */
  predicate AllBase64Chars(s: string)
  {
    forall k :: 0 <= k < |s| ==> IsBase64Char(s[k])
  }

  /** Every character of `s` is the padding character. */
  predicate AllPadding(s: string)
  {
    forall k :: 0 <= k < |s| ==> s[k] == PaddingChar
  }

  /** `s` is alphabet characters followed by zero, one or two padding characters. */
  predicate PaddedBase64(s: string)
  {
    exists n :: |s| - 2 <= n <= |s| && 0 <= n && AllBase64Chars(s[..n]) && AllPadding(s[n..])
  }

  /** What IsBase64String accepts. */
  predicate Base64Shaped(value: Option<string>, isWhiteSpace: char -> bool)
  {
    !IsNullOrWhiteSpace(value, isWhiteSpace) && |value.value| % 4 == 0 && PaddedBase64(value.value)
  }

  /**
   * IsBase64String: rejects null, white space and lengths that are not a multiple
   * of four, steps back over at most two trailing '=' and then checks every
   * remaining character against the alphabet.
   */
  method IsBase64String(value: Option<string>, isWhiteSpace: char -> bool) returns (r: bool)
    ensures r == Base64Shaped(value, isWhiteSpace)
  {
    if IsNullOrWhiteSpace(value, isWhiteSpace) || |value.value| % 4 != 0 {
      return false;
    }
    var s := value.value;
    var index := |s| - 1;
    if s[index] == PaddingChar {
      index := index - 1;
    }
    if s[index] == PaddingChar {
      index := index - 1;
    }
    assert AllPadding(s[index + 1..]);
    assert s[index] != PaddingChar || index + 1 == |s| - 2;
    for i := 0 to index + 1
      invariant forall k :: 0 <= k < i ==> IsBase64Char(s[k])
    {
      InTable(s[i]);
      if !(s[i] in Base64Chars) {
        forall n | |s| - 2 <= n <= |s| && AllPadding(s[n..])
          ensures !AllBase64Chars(s[..n])
        {
          if n > i {
            assert s[..n][i] == s[i];
          }
        }
        return false;
      }
    }
    assert AllBase64Chars(s[..index + 1]);
    return true;
  }

  /** IsNotBase64String: the negation. */
  method IsNotBase64String(value: Option<string>, isWhiteSpace: char -> bool) returns (r: bool)
    ensures r == !Base64Shaped(value, isWhiteSpace)
  {
    var b := IsBase64String(value, isWhiteSpace);
    r := !b;
  }

  /**
   * Without the white-space clause: a non-empty string of length divisible by
   * four is accepted iff it is alphabet characters followed by at most two '=';
   * the white-space test only rules out strings the alphabet would reject anyway,
   * given that no alphabet character is white space.
   */
  lemma Base64ShapedIff(s: string, isWhiteSpace: char -> bool)
    requires forall c :: IsBase64Char(c) ==> !isWhiteSpace(c)
    ensures Base64Shaped(Some(s), isWhiteSpace) <==> |s| > 0 && |s| % 4 == 0 && PaddedBase64(s)
  {
    if |s| > 0 && |s| % 4 == 0 && PaddedBase64(s) {
      var n :| |s| - 2 <= n <= |s| && 0 <= n && AllBase64Chars(s[..n]) && AllPadding(s[n..]);
      assert s[..n][0] == s[0];
    }
  }

  /** The unit-test strings. */
  lemma Base64Examples(isWhiteSpace: char -> bool)
    requires isWhiteSpace(' ') && isWhiteSpace('\t') && !isWhiteSpace('c')
    ensures Base64Shaped(Some("c29tZXRoaW5n"), isWhiteSpace)
    ensures Base64Shaped(Some("c29tZXRoaW5nMDA="), isWhiteSpace)
    ensures Base64Shaped(Some("c29tZXRoaW5nMA=="), isWhiteSpace)
    ensures !Base64Shaped(Some("   \t"), isWhiteSpace)
    ensures !Base64Shaped(Some("INVALID"), isWhiteSpace)
    ensures !Base64Shaped(Some("c29tZXRo    aW5nMDA="), isWhiteSpace)
    ensures !Base64Shaped(Some("c29tZXRoaÄ5nMDA="), isWhiteSpace)
  {
    UnpaddedAccepted(isWhiteSpace);
    PaddedAccepted(isWhiteSpace);
    ShortRejected(isWhiteSpace);
    ForeignCharacterRejected(isWhiteSpace);
  }

  /** A string of alphabet characters whose length is a multiple of four. */
  lemma UnpaddedAccepted(isWhiteSpace: char -> bool)
    requires !isWhiteSpace('c')
    ensures Base64Shaped(Some("c29tZXRoaW5n"), isWhiteSpace)
  {
    var a := "c29tZXRoaW5n";
    assert a[0] == 'c';
    assert AllBase64Chars(a[..12]) && AllPadding(a[12..]);
  }

  /** One and two trailing '=' are stepped over. */
  lemma PaddedAccepted(isWhiteSpace: char -> bool)
    requires !isWhiteSpace('c')
    ensures Base64Shaped(Some("c29tZXRoaW5nMDA="), isWhiteSpace)
    ensures Base64Shaped(Some("c29tZXRoaW5nMA=="), isWhiteSpace)
  {
    var b := "c29tZXRoaW5nMDA=";
    assert b[0] == 'c';
    assert AllBase64Chars(b[..15]) && AllPadding(b[15..]);
    var c := "c29tZXRoaW5nMA==";
    assert c[0] == 'c';
    assert AllBase64Chars(c[..14]) && AllPadding(c[14..]);
  }

  /** White space only, and a length that is not a multiple of four. */
  lemma ShortRejected(isWhiteSpace: char -> bool)
    requires isWhiteSpace(' ') && isWhiteSpace('\t')
    ensures !Base64Shaped(Some("   \t"), isWhiteSpace)
    ensures !Base64Shaped(Some("INVALID"), isWhiteSpace)
  {
    assert "   \t"[0] == ' ';
  }

  /** Inner blanks and a character outside the alphabet. */
  lemma ForeignCharacterRejected(isWhiteSpace: char -> bool)
    ensures !Base64Shaped(Some("c29tZXRo    aW5nMDA="), isWhiteSpace)
    ensures !Base64Shaped(Some("c29tZXRoaÄ5nMDA="), isWhiteSpace)
  {
    var d := "c29tZXRo    aW5nMDA=";
    forall n | |d| - 2 <= n <= |d| ensures !AllBase64Chars(d[..n]) {
      assert d[..n][8] == ' ';
    }
    var e := "c29tZXRoaÄ5nMDA=";
    forall n | |e| - 2 <= n <= |e| ensures !AllBase64Chars(e[..n]) {
      assert e[..n][9] == 'Ä';
    }
  }
}
