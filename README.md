# Verticular.Extensions.Strings in Dafny

This project models the core of Verticular.Extensions.Strings, a C# library of
`string` extension methods, and proves properties of the model. The core
covered here is:

- the character comparer: `CharacterComparer` and its only implementation
  `CultureAwareCharacterComparer`;
- null, empty and white-space predicates;
- digit and letter checks;
- the base64 shape check;
- character containment: `ContainsAny`, `ContainsAll`, `ContainsNone`;
- counting occurrences of a character or a string;
- `EqualsAny` and `EqualsNone`;
- prefix extraction: `Until` and `UntilLast`, for a character or a string;
- `Capitalize`;
- word counting;
- removal of characters and of strings.

How the C# world is represented:

- A C# `null` is `Option.None`.
- A thrown exception is `Result.Err` with the exception's type. An
  `ArgumentNullException` also carries its parameter name.
- A method that loops over its input is a Dafny `method` with the same loop.
  It is proved against a specification function, and the library's promises
  are proved about that function as lemmas.
- A culture is seen only through `TextInfo.ToUpper`. This is an uninterpreted
  `char -> char` (`Globalization.Culture.upper`).
- The process-wide `CultureInfo.CurrentCulture` and `CultureInfo.InvariantCulture`
  are a `Cultures` parameter.
- `char.IsWhiteSpace`, `char.IsDigit` and `char.IsLetter` are function
  parameters.
- String comparison through a `StringComparison` (in `IndexOf`,
  `LastIndexOf` and `string.Equals`) is resolved to a per-character fold:
  the identity, or a culture's upper-case mapping. Matching is then ordinal
  on the folded characters (`StringSearch`).
- Removal of strings keeps the source's pipeline, one stage each:
  - the spans of all matches are collected in a set;
  - they are sorted with `SliceComparer`;
  - they are coalesced on a stack;
  - they are deleted from the highest start down (`Slices`, `StringRemoveExtensions`).

Source paths below are relative to the repository root.

## Model

| member | source | states |
|---|---|---|
| CultureAwareCharacterComparer.CharCompareTo | src/Verticular.Extensions.Strings/CultureAwareCharacterComparer.cs:16 | `char.CompareTo` is zero, negative or positive exactly when the first character is equal to, below or above the second |
| CultureAwareCharacterComparer.Compare | src/Verticular.Extensions.Strings/CultureAwareCharacterComparer.cs:16 | case-sensitive comparison orders characters by code point; case-insensitive comparison is zero exactly when the two upper-case images agree |
| CultureAwareCharacterComparer.Equals | src/Verticular.Extensions.Strings/CultureAwareCharacterComparer.cs:18 | Equals holds exactly when Compare is zero, in both modes |
| CultureAwareCharacterComparer.GetHashCode | src/Verticular.Extensions.Strings/CultureAwareCharacterComparer.cs:20-23 | every character Equal to the argument has a key with the same hash, so equal characters hash alike |
| CultureAwareCharacterComparer.HashConsistent | src/Verticular.Extensions.Strings/CultureAwareCharacterComparer.cs:18-23 | characters that are Equal hash alike, so the comparer can key a hash table |
| CultureAwareCharacterComparer.CompareAntisymmetric | src/Verticular.Extensions.Strings/CultureAwareCharacterComparer.cs:16 | swapping the operands flips the sign of Compare and keeps zero at zero |
| CultureAwareCharacterComparer.EqualsIsEquivalence | src/Verticular.Extensions.Strings/CultureAwareCharacterComparer.cs:18 | Equals is reflexive, symmetric and transitive |
| CultureAwareCharacterComparer.CaseExample | test/Verticular.Extensions.Strings.UnitTests/CharacterComparerTests.cs:159-187 | 'h' and 'H' differ case-sensitively and are equal ignoring case |
| CharacterComparer.StandardComparers | src/Verticular.Extensions.Strings/CharacterComparer.cs:18-36 | the invariant comparers do not depend on the current culture; the current-culture comparers carry whatever culture is current at the access; the IgnoreCase variants, and only they, ignore case |
| CharacterComparer.Create | src/Verticular.Extensions.Strings/CharacterComparer.cs:50-58 | a null culture fails with ArgumentNullException("culture"); otherwise the comparer has the given culture and case flag |
| CharacterComparer.FromComparison | src/Verticular.Extensions.Strings/CharacterComparer.cs:130-137 | each of the four named selectors gives the comparer with the matching culture and case rule; any other value is an ArgumentException |
| CharacterComparer.CompareNullable | test/Verticular.Extensions.Strings.UnitTests/CharacterComparerTests.cs:64-86 | null compares equal to null and below every character; two characters compare as the character comparer does |
| CharacterComparer.EqualsNullable | src/Verticular.Extensions.Strings/CharacterComparer.cs:61-67 | two nulls are equal, a null never equals a character, and two characters are equal as the character comparer says |
| CharacterComparer.GetHashCodeNullable | test/Verticular.Extensions.Strings.UnitTests/CharacterComparerTests.cs:230-242 | hashing a null character fails with ArgumentNullException; a character hashes as the character overload does |
| CharacterComparer.NullableCompareAgreesWithEquals | src/Verticular.Extensions.Strings/CharacterComparer.cs:61-67 | on nullable characters, Equals holds exactly when Compare is zero, and Compare is antisymmetric |
| CharacterComparer.GetHashCodeObject | src/Verticular.Extensions.Strings/CharacterComparer.cs:86-94 | null fails with ArgumentNullException("obj"); a boxed char hashes as the char overload; any other object by its own hash code |
| CharacterComparer.CompareObjects | src/Verticular.Extensions.Strings/CharacterComparer.cs:97-123 | null sorts first; two chars compare by the comparer; two ints by their sign; a char against a non-char, or a non-comparable object, is an ArgumentException |
| CharacterComparer.EqualsObjects | src/Verticular.Extensions.Strings/CharacterComparer.cs:70-83 | with a null operand, equal exactly when both are null; two boxed chars are equal as the comparer says; two boxed ints when their values agree; a plain object only itself; a char never equals a non-char |
| CharacterComparer.ObjectEntryPointsConsistent | src/Verticular.Extensions.Strings/CharacterComparer.cs:70-123 | object Compare is zero exactly when object Equals holds, and equal non-null operands hash alike |
| CharacterComparer.ObjectExamples | test/Verticular.Extensions.Strings.UnitTests/CharacterComparerTests.cs:90-126 | the null, boxed-int, mixed and plain-object cases of the unit tests, for every comparer |
| StringEmpty.EmptinessPredicates | src/Verticular.Extensions.Strings/StringEmptyExtensions.cs:18-109 | IsNullOrEmpty means null or ""; IsEmpty means exactly ""; IsNotEmpty holds for null; each Not predicate negates its partner; null-or-empty implies null-or-white-space |
| StringEmpty.IsOnlyWhiteSpace | src/Verticular.Extensions.Strings/StringEmptyExtensions.cs:117-133 | true exactly for a present, non-empty string all of whose characters are white space |
| StringEmpty.IsNotOnlyWhiteSpace | src/Verticular.Extensions.Strings/StringEmptyExtensions.cs:142 | the negation of IsOnlyWhiteSpace, so it holds for null and "" |
| StringEmpty.OnlyWhiteSpaceIff | src/Verticular.Extensions.Strings/StringEmptyExtensions.cs:45-133 | IsOnlyWhiteSpace is IsNullOrWhiteSpace with the null and empty cases taken out |
| StringMatch.IsNumeric | src/Verticular.Extensions.Strings/StringMatchExtensions.cs:19-36 | true exactly for a present, non-empty string of digits |
| StringMatch.IsAlphaNumeric | src/Verticular.Extensions.Strings/StringMatchExtensions.cs:43-60 | true exactly for a present, non-empty string of digits and letters |
| StringMatch.NumericIsAlphaNumeric | src/Verticular.Extensions.Strings/StringMatchExtensions.cs:19-60 | every numeric string is alphanumeric |
| StringMatch.MatchExamples | test/Verticular.Extensions.Strings.UnitTests/StringMatchTests.cs:40-156 | the test strings: a '-' makes a string neither; all digits is both; letters make it alphanumeric only; white space is neither |
| Base64String.CharRun | src/Verticular.Extensions.Strings/Base64StringExtensions.cs:11-16 | a run of n consecutive ASCII characters from a start character, as the table's ranges are written |
| Base64String.InTable | src/Verticular.Extensions.Strings/Base64StringExtensions.cs:11-16 | a character is in the lookup table exactly when it is A-Z, a-z, 0-9, '+' or '/' |
| Base64String.IsBase64String | src/Verticular.Extensions.Strings/Base64StringExtensions.cs:26-67 | true exactly for a string that is not null or white space, has a length divisible by four, and is alphabet characters followed by at most two '=' |
| Base64String.IsNotBase64String | src/Verticular.Extensions.Strings/Base64StringExtensions.cs:76 | the negation of IsBase64String |
| Base64String.Base64ShapedIff | src/Verticular.Extensions.Strings/Base64StringExtensions.cs:26-67 | when no alphabet character is white space, the white-space test only excludes "": acceptance is non-empty, length divisible by four, alphabet then at most two '=' |
| Base64String.Base64Examples | test/Verticular.Extensions.Strings.UnitTests/Base64StringTests.cs:35-123 | the unit-test strings: three valid encodings (none, one, two padding characters) accepted; white space, "INVALID", inner blanks and 'Ä' rejected |
| Base64String.UnpaddedAccepted | test/Verticular.Extensions.Strings.UnitTests/Base64StringTests.cs:87-97 | an unpadded valid encoding is accepted |
| Base64String.PaddedAccepted | test/Verticular.Extensions.Strings.UnitTests/Base64StringTests.cs:100-123 | encodings with one and with two '=' are accepted |
| Base64String.ShortRejected | test/Verticular.Extensions.Strings.UnitTests/Base64StringTests.cs:35-71 | white space only, and a length not divisible by four, are rejected |
| Base64String.ForeignCharacterRejected | test/Verticular.Extensions.Strings.UnitTests/Base64StringTests.cs:48-84 | inner blanks and a character outside the alphabet are rejected |
| StringContains.ContainsAny | src/Verticular.Extensions.Strings/StringContainsExtensions.cs:32-66 | null or "" gives false; then a null needle array or null comparer fails with ArgumentNullException naming it; otherwise true exactly when some needle compares equal to some character |
| StringContains.ContainsAll | src/Verticular.Extensions.Strings/StringContainsExtensions.cs:90-134 | same guards; otherwise true exactly when there is at least one needle and every needle compares equal to some character |
| StringContains.ContainsNone | src/Verticular.Extensions.Strings/StringContainsExtensions.cs:158-159 | null or "" gives true; same errors as ContainsAny; otherwise true exactly when no needle compares equal to any character |
| StringContains.ContainsAnyCurrentCulture | src/Verticular.Extensions.Strings/StringContainsExtensions.cs:19-20 | null or "" gives false; null needles are ArgumentNullException("characters"); otherwise true exactly when some needle is a character of the value, under the current-culture, case-sensitive comparer |
| StringContains.ContainsAllCurrentCulture | src/Verticular.Extensions.Strings/StringContainsExtensions.cs:77-78 | null or "" gives false; null needles are ArgumentNullException("characters"); otherwise true exactly when there is a needle and every needle is a character of the value |
| StringContains.ContainsNoneCurrentCulture | src/Verticular.Extensions.Strings/StringContainsExtensions.cs:145-146 | null or "" gives true; null needles are ArgumentNullException("characters"); otherwise true exactly when no needle is a character of the value |
| StringContains.AllImpliesAny | src/Verticular.Extensions.Strings/StringContainsExtensions.cs:32-134 | with needles present, containing all of them implies containing one |
| StringContains.OneNeedleSuffices | src/Verticular.Extensions.Strings/StringContainsExtensions.cs:54-65 | one needle that occurs makes ContainsAny true, whatever other needles there are |
| StringContains.ContainsExamples | test/Verticular.Extensions.Strings.UnitTests/StringContainsTests.cs:92-123 | "My cat eats fish." contains 'e' case-sensitively and 'E' ignoring case |
| StringContains.NotContainsExamples | test/Verticular.Extensions.Strings.UnitTests/StringContainsTests.cs:126-157 | "My cat eats fish." contains neither 'b' nor 'E' case-sensitively, and no 'x' ignoring case |
| StringSearch.FoldOf | src/Verticular.Extensions.Strings/SubstringExtensions.cs:43-69 | each named StringComparison selects the identity or the current or invariant culture's upper case; any other value is an ArgumentException |
| StringSearch.IndexOf | src/Verticular.Extensions.Strings/CountOccurrencesExtensions.cs:92 | the index found is -1 or a position from which the needle fits in the value |
| StringSearch.IndexOfFindsFirst | src/Verticular.Extensions.Strings/CountOccurrencesExtensions.cs:92 | IndexOf returns the first match at or after the start index, or -1 exactly when there is none |
| StringSearch.LastIndexOf | src/Verticular.Extensions.Strings/SubstringExtensions.cs:104-129 | LastIndexOf returns a match with no match after it, or -1 exactly when there is none |
| StringSearch.LastMatchAtOrBefore | src/Verticular.Extensions.Strings/SubstringExtensions.cs:104-129 | the last match at or before an index, or -1 when none is there |
| StringSearch.SearchStep | src/Verticular.Extensions.Strings/CountOccurrencesExtensions.cs:90-98 | one search either finds nothing (no more matches, none counted) or moves strictly forward and counts one |
| StringSearch.SearchCountIsPositions | src/Verticular.Extensions.Strings/CountOccurrencesExtensions.cs:90-98 | the count of the repeated search equals the number of match positions it visits |
| StringSearch.MatchPositionsAreMatches | src/Verticular.Extensions.Strings/CountOccurrencesExtensions.cs:90-98 | every position the repeated search visits is a real match |
| StringSearch.MatchPositionsDisjoint | src/Verticular.Extensions.Strings/CountOccurrencesExtensions.cs:90-98 | consecutive positions are at least the needle's length apart: counted matches do not overlap |
| StringSearch.IndexOfFirstMatch | src/Verticular.Extensions.Strings/StringRemoveExtensions.cs:82 | a match with no match before it from the start index is what IndexOf returns |
| StringSearch.MatchPositionsNone | src/Verticular.Extensions.Strings/CountOccurrencesExtensions.cs:90-98 | with no match the repeated search visits nothing |
| StringSearch.PositiveIffFound | src/Verticular.Extensions.Strings/CountOccurrencesExtensions.cs:72-99 | the repeated search from the start finds at least one position exactly when the needle occurs somewhere |
| CountOccurrences.MatchCount | src/Verticular.Extensions.Strings/CountOccurrencesExtensions.cs:36-45 | the number of characters equal to the needle never exceeds the length |
| CountOccurrences.CountCharacter | src/Verticular.Extensions.Strings/CountOccurrencesExtensions.cs:29-46 | null or "" counts 0; then an undefined selector is an ArgumentException; otherwise the result is the number of characters that compare equal to the needle |
| CountOccurrences.CountCharacterCurrentCulture | src/Verticular.Extensions.Strings/CountOccurrencesExtensions.cs:16-17 | never fails: 0 for null, else the count under the current-culture, case-sensitive comparer |
| CountOccurrences.MatchCountAppend | src/Verticular.Extensions.Strings/CountOccurrencesExtensions.cs:36-45 | counts add up over a concatenation |
| CountOccurrences.MatchCountPositive | src/Verticular.Extensions.Strings/CountOccurrencesExtensions.cs:36-45 | the count is positive exactly when the needle occurs (the ContainsAny relation for one needle) |
| CountOccurrences.MatchCountAll | src/Verticular.Extensions.Strings/CountOccurrencesExtensions.cs:36-45 | when every character matches, all are counted |
| CountOccurrences.MatchCountByKey | src/Verticular.Extensions.Strings/CountOccurrencesExtensions.cs:36-45 | when exactly the copies of one character match, the count is that character's multiplicity |
| CountOccurrences.MatchCountOrdinal | src/Verticular.Extensions.Strings/CountOccurrencesExtensions.cs:36-45 | case-sensitively the count is the needle's multiplicity in the value |
| CountOccurrences.CountString | src/Verticular.Extensions.Strings/CountOccurrencesExtensions.cs:72-99 | null or "" counts 0; a null needle is ArgumentNullException("searchValue"); "" counts 0; an undefined comparison is an ArgumentException; otherwise the number of non-overlapping left-to-right matches, whose total length fits in the value; the count is positive exactly when the needle occurs |
| CountOccurrences.FindNext | src/Verticular.Extensions.Strings/CountOccurrencesExtensions.cs:92 | -1 means no match remains; otherwise the match found accounts for one of the remaining matches and lies inside the value |
| CountOccurrences.CountMatches | src/Verticular.Extensions.Strings/CountOccurrencesExtensions.cs:90-98 | the loop counts every match of the repeated search, and count times needle length never exceeds the value's length |
| CountOccurrences.CountStringCurrentCulture | src/Verticular.Extensions.Strings/CountOccurrencesExtensions.cs:57-58 | null or "" counts 0; a null needle is ArgumentNullException("searchValue"); an empty needle counts 0; otherwise the number of exact non-overlapping matches |
| CountOccurrences.CountedMatchesAreDisjointMatches | src/Verticular.Extensions.Strings/CountOccurrencesExtensions.cs:90-98 | the counted positions are matches and do not overlap |
| CountOccurrencesExamples.SampleMatchesAtMost | test/Verticular.Extensions.Strings.UnitTests/CountOccurrencesTests.cs:71-82 | "subfolder" can only match the sample path at 8, 18 or 28 |
| CountOccurrencesExamples.SampleMatches | test/Verticular.Extensions.Strings.UnitTests/CountOccurrencesTests.cs:71-82 | "subfolder" matches at 8, 18 and 28 |
| CountOccurrencesExamples.CountStringExamplePieces | test/Verticular.Extensions.Strings.UnitTests/CountOccurrencesTests.cs:71-82 | the repeated search finds three matches in the pieced path |
| CountOccurrencesExamples.SampleFirstFinds | test/Verticular.Extensions.Strings.UnitTests/CountOccurrencesTests.cs:71-82 | the first two searches find 8 and 18 |
| CountOccurrencesExamples.SampleLastFinds | test/Verticular.Extensions.Strings.UnitTests/CountOccurrencesTests.cs:71-82 | the third search finds 28 and then nothing is left |
| CountOccurrencesExamples.CountStringExample | test/Verticular.Extensions.Strings.UnitTests/CountOccurrencesTests.cs:71-82 | "subfolder" occurs three times in "/folder/subfolder/subfolder/subfolder/file.txt" |
| CountOccurrencesExamples.CountSamplePieces | test/Verticular.Extensions.Strings.UnitTests/CountOccurrencesTests.cs:155-166 | a character count of the path is the sum of the counts of its pieces |
| CountOccurrencesExamples.MatchCountZero | test/Verticular.Extensions.Strings.UnitTests/CountOccurrencesTests.cs:155-194 | no matching character counts 0 |
| CountOccurrencesExamples.MatchCountSingle | test/Verticular.Extensions.Strings.UnitTests/CountOccurrencesTests.cs:155-194 | exactly one matching index counts 1 |
| CountOccurrencesExamples.CountCharacterExamplePieces | test/Verticular.Extensions.Strings.UnitTests/CountOccurrencesTests.cs:155-166 | 'f' occurs five times in the pieced path |
| CountOccurrencesExamples.CountCharacterExample | test/Verticular.Extensions.Strings.UnitTests/CountOccurrencesTests.cs:155-166 | 'f' occurs five times in the sample path, case-sensitively |
| CountOccurrencesExamples.CountIgnoreCaseExamplePieces | test/Verticular.Extensions.Strings.UnitTests/CountOccurrencesTests.cs:183-194 | 'T' ignoring case occurs twice in the pieced path |
| CountOccurrencesExamples.CountIgnoreCaseExample | test/Verticular.Extensions.Strings.UnitTests/CountOccurrencesTests.cs:183-194 | 'T' ignoring case occurs twice in the sample path |
| StringEqualsExtensions.AnyEquals | src/Verticular.Extensions.Strings/StringEqualsExtensions.cs:93 | the left-to-right walk: true exactly when it meets an equal candidate before any null; false exactly when all candidates are present and unequal; a null reached first is a NullReferenceException; an undefined comparison fails at the first present candidate |
| StringEqualsExtensions.AnyEqualsMeaning | src/Verticular.Extensions.Strings/StringEqualsExtensions.cs:93 | true implies some candidate is equal; with no null candidate the verdict is exactly whether some candidate is equal |
| StringEqualsExtensions.AnyEqualsTrue | src/Verticular.Extensions.Strings/StringEqualsExtensions.cs:93 | a true verdict names a present, equal candidate |
| StringEqualsExtensions.AnyEqualsFalse | src/Verticular.Extensions.Strings/StringEqualsExtensions.cs:93 | a false verdict means no candidate is present and equal |
| StringEqualsExtensions.EqualsAny | src/Verticular.Extensions.Strings/StringEqualsExtensions.cs:74-94 | null or "" gives false; a null set is ArgumentNullException("matchSet"); otherwise the verdict of the left-to-right walk, with its NullReferenceException for a null candidate reached first and its ArgumentException for an undefined comparison; true only when some candidate is equal, and with no null candidate exactly that |
| StringEqualsExtensions.EqualsAnyOrdinal | src/Verticular.Extensions.Strings/StringEqualsExtensions.cs:24-43 | null or "" gives false; a null set is ArgumentNullException("matchSet"); true exactly when a candidate is the value and every candidate before it is present; false exactly when all are present and differ; otherwise a NullReferenceException |
| StringEqualsExtensions.OrdinalIsEquality | src/Verticular.Extensions.Strings/StringEqualsExtensions.cs:24-43 | ordinal string equality is equality of strings |
| StringEqualsExtensions.OrdinalNoMatchBefore | src/Verticular.Extensions.Strings/StringEqualsExtensions.cs:24-43 | under Ordinal, the walk passes a candidate exactly when it is present and differs from the value |
| StringEqualsExtensions.EqualsNone | src/Verticular.Extensions.Strings/StringEqualsExtensions.cs:155-163 | null or "" gives false; otherwise the negation of EqualsAny, with its exceptions passed on |
| StringEqualsExtensions.EqualsNoneOrdinal | src/Verticular.Extensions.Strings/StringEqualsExtensions.cs:105-121 | null or "" gives false; a null set is ArgumentNullException("matchSet"); true exactly when all candidates are present and differ from the value; false exactly when a candidate is the value with only present candidates before it; otherwise a NullReferenceException |
| StringEqualsExtensions.AnyNoneComplement | src/Verticular.Extensions.Strings/StringEqualsExtensions.cs:80-163 | for a non-empty value, exactly one of EqualsAny and EqualsNone holds when neither throws; for null or "" both are false |
| StringEqualsExtensions.EqualsExamples | test/Verticular.Extensions.Strings.UnitTests/StringEqualsTests.cs:16-337 | the unit-test verdicts under Ordinal and OrdinalIgnoreCase, a null value and set, and the undefined comparison -12 |
| SubstringExtensions.Until | src/Verticular.Extensions.Strings/SubstringExtensions.cs:43-69 | null value or match fails with ArgumentNullException; otherwise the result is a prefix of the value that is either the whole value with no match anywhere, or ends where the first match starts |
| SubstringExtensions.UntilLast | src/Verticular.Extensions.Strings/SubstringExtensions.cs:104-129 | same guards; the result is a prefix that is the whole value with no match, or ends where the last match starts |
| SubstringExtensions.UntilCurrentCulture | src/Verticular.Extensions.Strings/SubstringExtensions.cs:23-24 | null value or match is ArgumentNullException("value") or ("match"); otherwise a prefix that is the whole value exactly when no exact match starts inside it, and else ends where the first match starts; an empty match gives "" |
| SubstringExtensions.UntilLastCurrentCulture | src/Verticular.Extensions.Strings/SubstringExtensions.cs:84-85 | null value or match is ArgumentNullException("value") or ("match"); otherwise a prefix that is the whole value, or ends where the last exact match starts; an empty match gives the whole value; for a non-empty match the prefix is the whole value exactly when no match starts inside it |
| SubstringExtensions.UntilLastNotShorter | src/Verticular.Extensions.Strings/SubstringExtensions.cs:43-129 | the prefix before the last match is no shorter than the one before the first, and each cuts the value short exactly when a match starts inside it |
| SubstringExtensions.StringCutExamples | test/Verticular.Extensions.Strings.UnitTests/SubstringTests.cs:71-194 | "HelloWorld" until "World" is "Hello"; until the last "l" is "HelloWor" |
| SubstringExtensions.FirstCharMatch | src/Verticular.Extensions.Strings/SubstringExtensions.cs:169-179 | the first index whose character compares equal to the needle, or -1 when none does |
| SubstringExtensions.LastCharMatch | src/Verticular.Extensions.Strings/SubstringExtensions.cs:230-239 | the last index below a bound whose character compares equal to the needle, or -1 when none does |
| SubstringExtensions.CutAt | src/Verticular.Extensions.Strings/SubstringExtensions.cs:181-189 | the prefix of the given length, or the whole value for -1 |
| SubstringExtensions.UntilChar | src/Verticular.Extensions.Strings/SubstringExtensions.cs:158-190 | null fails with ArgumentNullException("value"); an undefined selector is an ArgumentException; otherwise the value cut at the first matching character |
| SubstringExtensions.UntilLastChar | src/Verticular.Extensions.Strings/SubstringExtensions.cs:219-250 | same guards; the value cut at the last matching character |
| SubstringExtensions.UntilCharCurrentCulture | src/Verticular.Extensions.Strings/SubstringExtensions.cs:141-142 | null is ArgumentNullException("value"); otherwise the value cut at the first match under the current-culture, case-sensitive comparer |
| SubstringExtensions.UntilLastCharCurrentCulture | src/Verticular.Extensions.Strings/SubstringExtensions.cs:202-203 | null is ArgumentNullException("value"); otherwise the value cut at the last match under the current-culture, case-sensitive comparer |
| SubstringExtensions.CharCutsOrdered | src/Verticular.Extensions.Strings/SubstringExtensions.cs:158-250 | first and last match exist together, the last is never before the first, and each cuts the value short exactly when a character matches |
| SubstringExtensions.CharCutExamples | test/Verticular.Extensions.Strings.UnitTests/SubstringTests.cs:15-138 | "HelloWorld" until 'l' is "He", until the last 'o' is "HelloW", and 'L' is not found case-sensitively |
| SubstringExtensions.Capitalized | src/Verticular.Extensions.Strings/SubstringExtensions.cs:259-288 | same length; the first character becomes its upper-case image and the rest is unchanged |
| SubstringExtensions.Capitalize | src/Verticular.Extensions.Strings/SubstringExtensions.cs:259-288 | null fails with ArgumentNullException("value"); "" stays ""; otherwise the first character is upper-cased in the current culture |
| SubstringExtensions.CapitalizeIdempotent | test/Verticular.Extensions.Strings.UnitTests/SubstringTests.cs:383-432 | capitalizing twice is capitalizing once when upper case is idempotent |
| TextWork.Words | src/Verticular.Extensions.Strings/TextWorkExtensions.cs:16-56 | the number of word starts is at most the length |
| TextWork.GetWordCount | src/Verticular.Extensions.Strings/TextWorkExtensions.cs:16-56 | null or white space counts 0; otherwise the number of words less one when the last word is a single character |
| TextWork.GetWordCountCorrected | src/Verticular.Extensions.Strings/TextWorkExtensions.cs:16-56 | the number of words; 0 for null or white space |
| TextWork.NoWordsInWhiteSpace | src/Verticular.Extensions.Strings/TextWorkExtensions.cs:18-21 | white space holds no words |
| TextWork.WordsAcrossSeparator | src/Verticular.Extensions.Strings/TextWorkExtensions.cs:27-48 | words on either side of a white-space character add up |
| TextWork.WhiteSpaceRunsIgnored | test/Verticular.Extensions.Strings.UnitTests/TextWorkTests.cs:66-84 | doubled, leading and trailing white space leave the count alone |
| TextWork.DoubledWhiteSpace | test/Verticular.Extensions.Strings.UnitTests/TextWorkTests.cs:66-84 | a doubled white-space character counts as one |
| TextWork.LeadingWhiteSpace | test/Verticular.Extensions.Strings.UnitTests/TextWorkTests.cs:66-84 | leading white space adds no word |
| TextWork.TrailingWhiteSpace | test/Verticular.Extensions.Strings.UnitTests/TextWorkTests.cs:66-84 | trailing white space adds no word |
| TextWork.WordsBound | src/Verticular.Extensions.Strings/TextWorkExtensions.cs:27-48 | at most every second character starts a word |
| TextWork.LoneLastLetterLost | src/Verticular.Extensions.Strings/TextWorkExtensions.cs:50-53 | "ab c" has two words, but the loop as written reports one |
| TextWork.HelloWorld | test/Verticular.Extensions.Strings.UnitTests/TextWorkTests.cs:66-84 | "Hello world" has two words and no lone last letter |
| TextWork.OneWord | src/Verticular.Extensions.Strings/TextWorkExtensions.cs:27-48 | a non-empty run without white space is one word |
| TextWork.Blanks | test/Verticular.Extensions.Strings.UnitTests/TextWorkTests.cs:66-84 | n copies of a blank |
| TextWork.BlankRunsIgnored | test/Verticular.Extensions.Strings.UnitTests/TextWorkTests.cs:66-84 | a run of white space counts as a single separator |
| TextWork.PaddingIgnored | test/Verticular.Extensions.Strings.UnitTests/TextWorkTests.cs:66-84 | runs of white space before and after a text leave its count alone |
| TextWork.PaddedHelloWorldPieces | test/Verticular.Extensions.Strings.UnitTests/TextWorkTests.cs:66-84 | the padded test sentence is two words between runs of blanks |
| TextWork.PaddedHelloWorld | test/Verticular.Extensions.Strings.UnitTests/TextWorkTests.cs:66-84 | "       Hello      world       " has two words |
| Slices.SliceCompare | src/Verticular.Extensions.Strings/StringRemoveExtensions.cs:144-163 | SliceComparer is zero only for the same span, and its sign is the order by start, then end |
| Slices.SliceCompareIsTotalOrder | src/Verticular.Extensions.Strings/StringRemoveExtensions.cs:144-163 | SliceComparer is antisymmetric, transitive and total, as Array.Sort requires |
| Slices.Insert | src/Verticular.Extensions.Strings/StringRemoveExtensions.cs:99 | inserting a span adds exactly that span |
| Slices.InsertMembers | src/Verticular.Extensions.Strings/StringRemoveExtensions.cs:99 | the insertion result holds only the inserted span and the old ones |
| Slices.SortedCons | src/Verticular.Extensions.Strings/StringRemoveExtensions.cs:99 | a span no greater than every element can lead a sorted sequence |
| Slices.InsertSorted | src/Verticular.Extensions.Strings/StringRemoveExtensions.cs:99 | inserting into a sorted sequence keeps it sorted |
| Slices.Sort | src/Verticular.Extensions.Strings/StringRemoveExtensions.cs:98-99 | the sort result is a permutation of its input, ordered by SliceComparer |
| Slices.SortedStartsOrdered | src/Verticular.Extensions.Strings/StringRemoveExtensions.cs:99-125 | sorted spans have non-decreasing starts, which is what the merge relies on |
| Slices.UnionMember | src/Verticular.Extensions.Strings/StringRemoveExtensions.cs:104-125 | an index is covered exactly when some span holds it |
| Slices.SameElementsSameUnion | src/Verticular.Extensions.Strings/StringRemoveExtensions.cs:98-99 | only the set of spans, not their order, decides what is covered |
| Slices.InsideUnique | src/Verticular.Extensions.Strings/StringRemoveExtensions.cs:104-125 | in a gapped stack a span lies inside at most one entry |
| Slices.ExtendPositions | src/Verticular.Extensions.Strings/StringRemoveExtensions.cs:119-124 | extending the top to an overlapping or touching span's end covers exactly both |
| Slices.UnionPush | src/Verticular.Extensions.Strings/StringRemoveExtensions.cs:117 | a push covers the pushed span's indices as well |
| Slices.UnionPrefix | src/Verticular.Extensions.Strings/StringRemoveExtensions.cs:106 | each merge iteration takes in the next span's indices |
| Slices.PushStep | src/Verticular.Extensions.Strings/StringRemoveExtensions.cs:115-118 | pushing a span that starts after the top's end keeps the stack gapped and covers the span |
| Slices.ReplaceTop | src/Verticular.Extensions.Strings/StringRemoveExtensions.cs:122-123 | replacing the top by a span with the same start keeps the stack gapped and the rest unchanged |
| Slices.ExtendStep | src/Verticular.Extensions.Strings/StringRemoveExtensions.cs:119-124 | Pop then Push of the extended top keeps the stack gapped and covers the span |
| Slices.ContainedStep | src/Verticular.Extensions.Strings/StringRemoveExtensions.cs:115-125 | a span inside the top is dropped without changing what is covered |
| Slices.OwnedStep | src/Verticular.Extensions.Strings/StringRemoveExtensions.cs:104-125 | after each iteration every span seen so far lies inside some stack entry |
| Slices.MergeStep | src/Verticular.Extensions.Strings/StringRemoveExtensions.cs:108-124 | one merge iteration: the stack stays gapped and within the value, grows by at most one, covers the current span, and holds the old top and the current span inside its entries |
| Slices.Coalesce | src/Verticular.Extensions.Strings/StringRemoveExtensions.cs:104-125 | the merged stack is gapped, covers exactly what the sorted spans cover, and holds every input span inside one entry |
| Slices.Keep | src/Verticular.Extensions.Strings/StringRemoveExtensions.cs:130-139 | keeping the uncovered characters of a range yields at most that many characters |
| Slices.KeepSplit | src/Verticular.Extensions.Strings/StringRemoveExtensions.cs:130-139 | keeping distributes over adjacent ranges |
| Slices.KeepUncovered | src/Verticular.Extensions.Strings/StringRemoveExtensions.cs:130-139 | an uncovered range is kept whole |
| Slices.KeepCovered | src/Verticular.Extensions.Strings/StringRemoveExtensions.cs:130-139 | a covered range is dropped entirely |
| Slices.KeepLength | src/Verticular.Extensions.Strings/StringRemoveExtensions.cs:130-139 | the kept length is the range length less the number of covered indices |
| Slices.KeepAroundSpan | src/Verticular.Extensions.Strings/StringRemoveExtensions.cs:135 | deleting a covered span before an uncovered gap keeps the gap and what follows |
| Slices.SpanCovered | src/Verticular.Extensions.Strings/StringRemoveExtensions.cs:133-135 | the indices of a stack entry are covered |
| Slices.GapUncovered | src/Verticular.Extensions.Strings/StringRemoveExtensions.cs:131-136 | between an entry and the next one above, nothing is covered |
| Slices.DeleteStep | src/Verticular.Extensions.Strings/StringRemoveExtensions.cs:131-136 | each builder Remove is in bounds and keeps the builder equal to the untouched prefix followed by what is kept above it |
| Slices.DeleteDone | src/Verticular.Extensions.Strings/StringRemoveExtensions.cs:130-139 | below the lowest entry nothing is covered, so that prefix is kept whole |
| Slices.DeleteSlices | src/Verticular.Extensions.Strings/StringRemoveExtensions.cs:130-139 | deleting the stack's spans from the highest start down leaves exactly the characters no span covers, in order |
| StringRemoveExtensions.WritesFor | src/Verticular.Extensions.Strings/StringRemoveExtensions.cs:44-51 | the inner loop writes the character at most once per needle |
| StringRemoveExtensions.Unmatched | src/Verticular.Extensions.Strings/StringRemoveExtensions.cs:42-52 | the kept characters are no more than the value's and none of them matches a needle |
| StringRemoveExtensions.WritesForMonotonic | src/Verticular.Extensions.Strings/StringRemoveExtensions.cs:44-51 | fewer needles write no more |
| StringRemoveExtensions.WritesUpToMonotonic | src/Verticular.Extensions.Strings/StringRemoveExtensions.cs:42-52 | fewer value characters write no more |
| StringRemoveExtensions.WritesOverrun | src/Verticular.Extensions.Strings/StringRemoveExtensions.cs:37-48 | once the writes so far exceed the buffer, the whole run does too |
| StringRemoveExtensions.RemoveCharacters | src/Verticular.Extensions.Strings/StringRemoveExtensions.cs:17-55 | null or "" is an ArgumentException; null needles are ArgumentNullException("characters"); no needles returns the value; an undefined selector is an ArgumentException; otherwise what the loops write as written, or IndexOutOfRangeException when that exceeds the buffer |
| StringRemoveExtensions.WriteKept | src/Verticular.Extensions.Strings/StringRemoveExtensions.cs:37-54 | the buffer ends holding everything the loops write, or the run fails exactly when that exceeds the value's length |
| StringRemoveExtensions.WriteCopies | src/Verticular.Extensions.Strings/StringRemoveExtensions.cs:44-51 | the inner loop appends the character once per non-matching needle after what was written, or reports the overrun |
| StringRemoveExtensions.Put | src/Verticular.Extensions.Strings/StringRemoveExtensions.cs:48 | a write extends the buffer's filled part by one character |
| StringRemoveExtensions.RemoveCharactersCorrected | src/Verticular.Extensions.Strings/StringRemoveExtensions.cs:17-55 | same guards; otherwise the value without every character some needle matches |
| StringRemoveExtensions.KeepUnmatched | src/Verticular.Extensions.Strings/StringRemoveExtensions.cs:37-54 | the corrected loops keep exactly the unmatched characters, in order |
| StringRemoveExtensions.RemoveCharactersCurrentCulture | src/Verticular.Extensions.Strings/StringRemoveExtensions.cs:14-15 | null or "" is an ArgumentException; null needles are ArgumentNullException("characters"); no needles returns the value; otherwise what the as-written loops write under the current-culture, case-sensitive comparer, or IndexOutOfRangeException on overrun |
| StringRemoveExtensions.SingleNeedleFilters | test/Verticular.Extensions.Strings.UnitTests/StringRemovalTests.cs:15-47 | with one needle, the as-written loops remove exactly the matching characters and never overrun |
| StringRemoveExtensions.SingleNeedlePrefix | src/Verticular.Extensions.Strings/StringRemoveExtensions.cs:42-52 | with one needle, the writes for every prefix are its unmatched characters |
| StringRemoveExtensions.UnmatchedCounts | src/Verticular.Extensions.Strings/StringRemoveExtensions.cs:42-52 | a matched character disappears entirely; an unmatched one keeps its multiplicity |
| StringRemoveExtensions.TwoNeedlesMisbehave | src/Verticular.Extensions.Strings/StringRemoveExtensions.cs:44-50 | on "ab", needles 'a','x' write "abb" (overrun) where "b" is intended, and 'a','b' write "ab" where "" is intended |
| StringRemoveExtensions.WritesOnAb | src/Verticular.Extensions.Strings/StringRemoveExtensions.cs:42-52 | what the as-written loops write for "ab" with 'a' and one other needle |
| StringRemoveExtensions.UnmatchedOnAb | src/Verticular.Extensions.Strings/StringRemoveExtensions.cs:42-52 | what the corrected loops keep for "ab" with 'a' and one other needle |
| StringRemoveExtensions.CollectedAreMatches | src/Verticular.Extensions.Strings/StringRemoveExtensions.cs:79-88 | every collected span is a match of some needle, so it lies inside the value |
| StringRemoveExtensions.BelowStep | src/Verticular.Extensions.Strings/StringRemoveExtensions.cs:82-86 | one search adds the span of the first match found |
| StringRemoveExtensions.BelowDone | src/Verticular.Extensions.Strings/StringRemoveExtensions.cs:82 | a failed search means every match of the needle is collected |
| StringRemoveExtensions.Present | src/Verticular.Extensions.Strings/StringRemoveExtensions.cs:79 | the needles of an array with no null element, in order |
| StringRemoveExtensions.UnionIsStruck | src/Verticular.Extensions.Strings/StringRemoveExtensions.cs:98 | the array made from the HashSet covers what the set covers |
| StringRemoveExtensions.CollectNeedle | src/Verticular.Extensions.Strings/StringRemoveExtensions.cs:81-87 | the collection loop for one needle adds the spans of all its matches to the set |
| StringRemoveExtensions.RemoveStrings | src/Verticular.Extensions.Strings/StringRemoveExtensions.cs:60-140 | null or "" is an ArgumentException; a null array is ArgumentNullException("strings"); an empty one returns the value; a null needle is ArgumentNullException("value"); an undefined comparison is an ArgumentException; otherwise the value without every character inside a match of some needle |
| StringRemoveExtensions.CollectSlices | src/Verticular.Extensions.Strings/StringRemoveExtensions.cs:78-88 | succeeds exactly when the comparison is defined and no needle is null, and then holds every match span of every needle |
| StringRemoveExtensions.CollectedStep | src/Verticular.Extensions.Strings/StringRemoveExtensions.cs:79-88 | one more needle adds its match spans to those collected |
| StringRemoveExtensions.NothingToRemove | src/Verticular.Extensions.Strings/StringRemoveExtensions.cs:72-75 | with no needles nothing is removed |
| StringRemoveExtensions.RemoveCollected | src/Verticular.Extensions.Strings/StringRemoveExtensions.cs:91-139 | deleting the collected spans gives the value without the matched characters |
| StringRemoveExtensions.RemoveSlices | src/Verticular.Extensions.Strings/StringRemoveExtensions.cs:91-139 | an empty set returns the value; otherwise sort, merge and delete leave exactly the characters no span covers |
| StringRemoveExtensions.RemoveStringsCurrentCulture | src/Verticular.Extensions.Strings/StringRemoveExtensions.cs:57-58 | null or "" is an ArgumentException; a null array is ArgumentNullException("strings"); an empty one returns the value; a null needle is ArgumentNullException("value"); otherwise the value without every exact match |
| StringRemoveExtensions.RemovedLength | src/Verticular.Extensions.Strings/StringRemoveExtensions.cs:127-139 | the result is shorter than the value by exactly the number of covered indices |
| StringRemoveExtensions.NothingFoundUnchanged | src/Verticular.Extensions.Strings/StringRemoveExtensions.cs:90-94 | when no needle occurs the value comes back unchanged |
| StringRemoveExtensions.NeedleCollected | src/Verticular.Extensions.Strings/StringRemoveExtensions.cs:79-88 | every needle's spans are collected |
| StringRemoveExtensions.DuplicateNeedleCollapses | src/Verticular.Extensions.Strings/StringRemoveExtensions.cs:77-78 | a repeated needle adds no span and changes no result |
| StringRemoveExtensions.AabbSpans | src/Verticular.Extensions.Strings/StringRemoveExtensions.cs:79-88 | "ab" matches "aabb" at index 1 only |
| StringRemoveExtensions.RemovalNotIdempotent | src/Verticular.Extensions.Strings/StringRemoveExtensions.cs:60-140 | removing "ab" from "aabb" leaves "ab", and removing it again leaves "" |
| StringRemoveExtensions.OverlappingMatchesRemoved | src/Verticular.Extensions.Strings/StringRemoveExtensions.cs:79-87 | every match of a self-overlapping needle is struck: "ababa" with "aba" and "bab" leaves "" |
| StringRemoveExtensions.AsWrittenSliceIndex | src/Verticular.Extensions.Strings/StringRemoveExtensions.cs:81-82 | the search index after n loop tests stays within the value, or is -1 after a failed search |
| StringRemoveExtensions.AsWrittenSearchStuck | src/Verticular.Extensions.Strings/StringRemoveExtensions.cs:82 | once a needle is found, every later loop test finds the same match, so the loop does not end |

## Left out

- `RegularExpressionExtensions`, `IsEmailAddress` and `IsUri` are not modelled. They delegate to the framework's regular-expression, mail-address and URI parsers.
- Culture data is not modelled. `TextInfo.ToUpper` is uninterpreted, and `char.IsWhiteSpace`, `char.IsDigit` and `char.IsLetter` are function parameters.
- CharacterComparer.CompareObjects: the object operands are null, a boxed char, a boxed int or a plain object that is not comparable. Other `IComparable` types, such as strings, which take the `case IComparable` branch (CharacterComparer.cs:118-119), are not modelled.
- The concrete .NET hash integers are not modelled. A character hashes to its code point, and an object to itself or its identity number.
- Culture-aware string comparison is not reimplemented. `IndexOf`, `LastIndexOf` and `string.Equals` under a `StringComparison` match ordinally after a per-character fold. So expansions, ignorable characters and matches of a length different from the needle's are not captured.
- Under that fold, an empty needle matches at every index. `LastIndexOf` with an empty needle finds the value's length, as on .NET 5 and later; on .NET Framework and .NET Core 3.x it returns the length less one, so there SubstringExtensions.UntilLast and SubstringExtensions.UntilLastCurrentCulture would drop the last character. The model follows .NET 5 and later.
- StringRemoveExtensions.CollectNeedle: for an empty needle the corrected loop ends once the next start index passes the end of the value. Calling `IndexOf` there, as the source would, throws ArgumentOutOfRangeException in .NET; the model stops instead.
- The `ulong` packing of a span (start in the high 32 bits, length in the low 32 bits) is modelled as a pair of naturals. Values longer than 2^32 characters are out of scope.
- `Array.Sort` is modelled by its contract: a permutation ordered by `SliceComparer`. An insertion sort with that contract stands in for it.
- Two framework calls are stood in for by models that cannot tell orders apart:
  - `HashSet<ulong>` is a Dafny `set`, and `ToArray` is an arbitrary ordering of it;
  - `Stack<ulong>` and `StringBuilder` are sequences.
  The sort makes the order irrelevant.
- The `NETSTANDARD_2_1` branch of `Capitalize` (`string.Create`) is not modelled. The model follows the buffer branch (SubstringExtensions.cs:283-286), and both compute the same string.
- Capitalizing a single character is modelled on its own, as the source does. Whether the result is a fresh string or an interned one is not modelled.
- Every `CurrentCulture` comparer built on access is modelled with the culture current at that access. That the invariant comparers are singletons and the others fresh objects shows only as this culture dependence.
- `ContainsAny`, `ContainsAll` and `ContainsNone` taking a `CharacterComparison` are not part of this model. The unit tests call them (StringContainsTests.cs:102, :247, :393), but no such overloads exist in the source.
- The source's unit tests disagree with the code in six places; the model follows the code:
  - `Remove("", characters)` throws an ArgumentException, where StringRemovalTests.cs:96-110 expects "";
  - `Remove("", strings)` throws an ArgumentException, where StringRemovalTests.cs:194-208 expects "";
  - `Remove(null, characters)` throws an ArgumentException, where StringRemovalTests.cs:79-93 expects an ArgumentNullException;
  - `Remove(null, strings)` throws an ArgumentException, where StringRemovalTests.cs:177-191 expects an ArgumentNullException;
  - `EqualsAny(null, …)` returns false, where StringExtensionsTests.cs:242-258 expects an ArgumentNullException;
  - `EqualsNone(null, …)` returns false, where StringExtensionsTests.cs:404-420 expects an ArgumentNullException.
- StringRemoveExtensions.RemoveStrings, StringRemoveExtensions.CollectSlices and StringRemoveExtensions.RemoveStringsCurrentCulture: model the collection loop advancing one index past each match start. As written, the loop at StringRemoveExtensions.cs:82 never advances and does not end (see Findings). Advancing by the needle's length instead, as the counting loop at CountOccurrencesExtensions.cs:94 does, gives a different result on self-overlapping needles: "ababa" with "aba" and "bab" gives "a" that way, because the match of "aba" at 2 is skipped, and "" in this model (OverlappingMatchesRemoved).
- A null needle reaches the framework's `IndexOf`, which throws `ArgumentNullException("value")`. The model raises that error at the same point: after the comparison check for every needle but the first.
- Idempotence of string removal is not claimed. StringRemoveExtensions.RemovalNotIdempotent shows that it does not hold.

## Findings

| source | as written | input that shows it | evidently intended | confidence | as-written member | corrected member |
|---|---|---|---|---|---|---|
| src/Verticular.Extensions.Strings/StringRemoveExtensions.cs:82 | `sliceIndex = value.IndexOf(s, sliceIndex, …)` restarts each search at the previous match, so the loop finds the same match forever | "ab" with the needle "a": every search returns 0 | a search that moves forward; the model resumes one index past each match start. Advancing by the length, as CountOccurrencesExtensions.cs:94 does, differs on overlaps: "ababa" less "aba", "bab" gives "a" that way, "" here | high (not executed) | StringRemoveExtensions.AsWrittenSearchStuck | StringRemoveExtensions.CollectNeedle |
| src/Verticular.Extensions.Strings/StringRemoveExtensions.cs:44-50 | a character is written once for EVERY needle that does not match it, so with two or more needles characters are duplicated, kept although matched, or overrun the buffer | "ab" with 'a','x' writes "abb" into a 2-character buffer (IndexOutOfRangeException); "ab" with 'a','b' gives "ab" | write a character once, and only when no needle matches it | high (not executed) | StringRemoveExtensions.TwoNeedlesMisbehave | StringRemoveExtensions.RemoveCharactersCorrected |
| src/Verticular.Extensions.Strings/TextWorkExtensions.cs:50-53 | the closing check tests `wasInside`, which is set one character after a non-white-space character, so a last word of exactly one character is not counted | "ab c" gives 1; "a" gives 0 | count the last word whenever the text ends inside a word | high (not executed) | TextWork.LoneLastLetterLost | TextWork.GetWordCountCorrected |
