/**
 * Containment of characters in a string under a character comparer. The needle
 * array (`params char[]`) and the comparer may both be null.
 */
module StringContains {
  import opened Wrappers
  import opened Globalization
  import opened CultureAwareCharacterComparer
  import opened CharacterComparer

  /** Some character of `value` compares equal to `t`. */
  predicate Occurs(cmp: Comparer, value: string, t: char)
  {
    exists k :: 0 <= k < |value| && Compare(cmp, value[k], t) == 0
  }

  /** Some needle occurs in `value`. */
  predicate AnyOccurs(cmp: Comparer, value: string, characters: seq<char>)
  {
    exists i :: 0 <= i < |characters| && Occurs(cmp, value, characters[i])
  }

  /** Every needle occurs in `value`, and there is at least one needle. */
  predicate AllOccur(cmp: Comparer, value: string, characters: seq<char>)
  {
    |characters| > 0 && forall i :: 0 <= i < |characters| ==> Occurs(cmp, value, characters[i])
  }

  /**
   * ContainsAny(value, characterComparer, characters): a null or empty value is
   * false before the arguments are checked; then the needles are tried in order
   * against every character of the value.
   */
  method ContainsAny(value: Option<string>, characterComparer: Option<Comparer>, characters: Option<seq<char>>) returns (r: Result<bool>)
    ensures value.None? || value == Some("") ==> r == Ok(false)
    ensures value.Some? && value != Some("") && characters.None? ==> r == Err(ArgumentNullException("characters"))
    ensures value.Some? && value != Some("") && characters.Some? && characterComparer.None? ==>
      r == Err(ArgumentNullException("characterComparer"))
    ensures value.Some? && value != Some("") && characters.Some? && characterComparer.Some? ==>
      r == Ok(AnyOccurs(characterComparer.value, value.value, characters.value))
  {
    if value.None? || |value.value| == 0 {
      return Ok(false);
    }
    if characters.None? {
      return Err(ArgumentNullException("characters"));
    }
    if characterComparer.None? {
      return Err(ArgumentNullException("characterComparer"));
    }
    var s, ts, cmp := value.value, characters.value, characterComparer.value;
    if |ts| == 0 {
      return Ok(false);
    }
    for i := 0 to |ts|
      invariant forall j :: 0 <= j < i ==> !Occurs(cmp, s, ts[j])
    {
      for k := 0 to |s|
        invariant forall m :: 0 <= m < k ==> Compare(cmp, s[m], ts[i]) != 0
      {
        if Compare(cmp, s[k], ts[i]) == 0 {
          return Ok(true);
        }
      }
    }
    return Ok(false);
  }

  /**
   * ContainsAll(value, characterComparer, characters): marks in a lookup table
   * which needles occur, then demands every mark.
   */
  method ContainsAll(value: Option<string>, characterComparer: Option<Comparer>, characters: Option<seq<char>>) returns (r: Result<bool>)
    ensures value.None? || value == Some("") ==> r == Ok(false)
    ensures value.Some? && value != Some("") && characters.None? ==> r == Err(ArgumentNullException("characters"))
    ensures value.Some? && value != Some("") && characters.Some? && characterComparer.None? ==>
      r == Err(ArgumentNullException("characterComparer"))
    ensures value.Some? && value != Some("") && characters.Some? && characterComparer.Some? ==>
      r == Ok(AllOccur(characterComparer.value, value.value, characters.value))
  {
    if value.None? || |value.value| == 0 {
      return Ok(false);
    }
    if characters.None? {
      return Err(ArgumentNullException("characters"));
    }
    if characterComparer.None? {
      return Err(ArgumentNullException("characterComparer"));
    }
    var s, ts, cmp := value.value, characters.value, characterComparer.value;
    if |ts| == 0 {
      return Ok(false);
    }
    var lookup := new bool[|ts|](_ => false);
    for i := 0 to |ts|
      invariant forall j :: 0 <= j < i ==> lookup[j] == Occurs(cmp, s, ts[j])
      invariant forall j :: i <= j < |ts| ==> !lookup[j]
    {
      for k := 0 to |s|
        invariant lookup[i] <==> exists m :: 0 <= m < k && Compare(cmp, s[m], ts[i]) == 0
        invariant forall j :: 0 <= j < i ==> lookup[j] == Occurs(cmp, s, ts[j])
        invariant forall j :: i < j < |ts| ==> !lookup[j]
      {
        if Compare(cmp, s[k], ts[i]) == 0 {
          lookup[i] := true;
        }
      }
    }
    for i := 0 to |ts|
      invariant forall j :: 0 <= j < i ==> lookup[j]
    {
      if lookup[i] == false {
        return Ok(false);
      }
    }
    return Ok(true);
  }

  /** ContainsNone(value, characterComparer, characters): the negation of ContainsAny. */
  method ContainsNone(value: Option<string>, characterComparer: Option<Comparer>, characters: Option<seq<char>>) returns (r: Result<bool>)
    ensures value.None? || value == Some("") ==> r == Ok(true)
    ensures value.Some? && value != Some("") && characters.None? ==> r == Err(ArgumentNullException("characters"))
    ensures value.Some? && value != Some("") && characters.Some? && characterComparer.None? ==>
      r == Err(ArgumentNullException("characterComparer"))
    ensures value.Some? && value != Some("") && characters.Some? && characterComparer.Some? ==>
      r == Ok(forall i, k :: 0 <= i < |characters.value| && 0 <= k < |value.value| ==>
                Compare(characterComparer.value, value.value[k], characters.value[i]) != 0)
  {
    var any := ContainsAny(value, characterComparer, characters);
    r := if any.Ok? then Ok(!any.value) else any;
  }

  /** ContainsAny(value, characters): the current-culture, case-sensitive comparer. */
  method ContainsAnyCurrentCulture(value: Option<string>, characters: Option<seq<char>>, cultures: Cultures) returns (r: Result<bool>)
    ensures value.None? || value == Some("") ==> r == Ok(false)
    ensures value.Some? && value != Some("") && characters.None? ==> r == Err(ArgumentNullException("characters"))
    ensures value.Some? && value != Some("") && characters.Some? ==>
      r == Ok(exists i, k :: 0 <= i < |characters.value| && 0 <= k < |value.value| && value.value[k] == characters.value[i])
  {
    r := ContainsAny(value, Some(CurrentCultureComparer(cultures)), characters);
  }

  /** ContainsAll(value, characters): the current-culture, case-sensitive comparer. */
  method ContainsAllCurrentCulture(value: Option<string>, characters: Option<seq<char>>, cultures: Cultures) returns (r: Result<bool>)
    ensures value.None? || value == Some("") ==> r == Ok(false)
    ensures value.Some? && value != Some("") && characters.None? ==> r == Err(ArgumentNullException("characters"))
    ensures value.Some? && value != Some("") && characters.Some? ==>
      r == Ok(|characters.value| > 0 && forall i :: 0 <= i < |characters.value| ==> characters.value[i] in value.value)
  {
    r := ContainsAll(value, Some(CurrentCultureComparer(cultures)), characters);
  }

  /** ContainsNone(value, characters): the current-culture, case-sensitive comparer. */
  method ContainsNoneCurrentCulture(value: Option<string>, characters: Option<seq<char>>, cultures: Cultures) returns (r: Result<bool>)
    ensures value.None? || value == Some("") ==> r == Ok(true)
    ensures value.Some? && value != Some("") && characters.None? ==> r == Err(ArgumentNullException("characters"))
    ensures value.Some? && value != Some("") && characters.Some? ==>
      r == Ok(forall i :: 0 <= i < |characters.value| ==> characters.value[i] !in value.value)
  {
    r := ContainsNone(value, Some(CurrentCultureComparer(cultures)), characters);
  }

  /** With at least one needle, containing all of them means containing one. */
  lemma AllImpliesAny(cmp: Comparer, value: string, characters: seq<char>)
    requires AllOccur(cmp, value, characters)
    ensures AnyOccurs(cmp, value, characters)
  {
    assert Occurs(cmp, value, characters[0]);
  }

  /** A needle that occurs makes ContainsAny true and ContainsNone false, whatever the other needles. */
  lemma OneNeedleSuffices(cmp: Comparer, value: string, characters: seq<char>, i: nat, k: nat)
    requires i < |characters| && k < |value| && Compare(cmp, value[k], characters[i]) == 0
    ensures AnyOccurs(cmp, value, characters)
    ensures AnyOccurs(cmp, value, characters + [characters[i]]) && AnyOccurs(cmp, [value[k]], characters)
  {
    assert Occurs(cmp, value, characters[i]);
    assert (characters + [characters[i]])[i] == characters[i];
    assert [value[k]][0] == value[k];
    assert Occurs(cmp, [value[k]], characters[i]);
  }

  /** The unit-test cases on "My cat eats fish." that find a needle. */
  lemma ContainsExamples(cultures: Cultures)
    requires cultures.current.upper('e') == 'E' && cultures.current.upper('E') == 'E'
    ensures AnyOccurs(CurrentCultureComparer(cultures), "My cat eats fish.", ['B', 'e'])
    ensures AnyOccurs(CurrentCultureIgnoreCaseComparer(cultures), "My cat eats fish.", ['b', 'E'])
  {
    var s := "My cat eats fish.";
    assert s[7] == 'e';
    assert Occurs(CurrentCultureComparer(cultures), s, ['B', 'e'][1]);
    assert Occurs(CurrentCultureIgnoreCaseComparer(cultures), s, ['b', 'E'][1]);
  }

  /** The unit-test cases on "My cat eats fish." that find none. */
  lemma NotContainsExamples(cultures: Cultures)
    requires forall c :: c in "My cateisfh." ==> cultures.current.upper(c) != 'X'
    requires cultures.current.upper('x') == 'X' && cultures.current.upper('X') == 'X'
    ensures !AnyOccurs(CurrentCultureComparer(cultures), "My cat eats fish.", ['b', 'E'])
    ensures !AnyOccurs(CurrentCultureIgnoreCaseComparer(cultures), "My cat eats fish.", ['x', 'X'])
  {
    var s := "My cat eats fish.";
    var t := "My cateisfh.";
    forall k | 0 <= k < |s| ensures s[k] in t {
      assert s[k] == t[0] || s[k] == t[1] || s[k] == t[2] || s[k] == t[3] || s[k] == t[4] || s[k] == t[5] ||
             s[k] == t[6] || s[k] == t[7] || s[k] == t[8] || s[k] == t[9] || s[k] == t[10] || s[k] == t[11];
    }
  }
}
