/**
 * The one concrete comparer of the library: characters are compared by their
 * code points, either as they are or after the culture's upper-case mapping.
 */
module CultureAwareCharacterComparer {
  import opened Globalization

  /** A CultureAwareCharacterComparer: its TextInfo (through the culture) and its ignoreCase flag. */
  datatype Comparer = Comparer(culture: Culture, ignoreCase: bool)

  /** char.CompareTo(char): the difference of the two code points. */
  function CharCompareTo(x: char, y: char): (r: int)
    ensures (r == 0 <==> x == y) && (r < 0 <==> x < y) && (r > 0 <==> x > y)
  {
    x as int - y as int
  }

  /** char.GetHashCode(), represented by the code point (the concrete .NET integer is not modelled). */
  function CharHash(c: char): int { c as int }

  /** The character a comparer actually looks at: its upper-case image when case is ignored. */
  function Key(cmp: Comparer, c: char): char
  {
    if cmp.ignoreCase then cmp.culture.upper(c) else c
  }

  /**
   * Compare(x, y): ordinal on the characters themselves when case matters, ordinal
   * on their upper-case images when it does not.
   */
  function Compare(cmp: Comparer, x: char, y: char): (r: int)
    ensures (r == 0 <==> Key(cmp, x) == Key(cmp, y)) && (r < 0 <==> Key(cmp, x) < Key(cmp, y))
    ensures !cmp.ignoreCase ==> (r == 0 <==> x == y) && (r < 0 <==> x < y) && (r > 0 <==> x > y)
    ensures cmp.ignoreCase ==> (r == 0 <==> cmp.culture.upper(x) == cmp.culture.upper(y))
  {
    if cmp.ignoreCase then CharCompareTo(cmp.culture.upper(x), cmp.culture.upper(y)) else CharCompareTo(x, y)
  }

  /** Equals(x, y): agrees with Compare in both modes. */
  predicate Equals(cmp: Comparer, x: char, y: char)
    ensures Equals(cmp, x, y) <==> Compare(cmp, x, y) == 0
  {
    if cmp.ignoreCase then cmp.culture.upper(x) == cmp.culture.upper(y) else x == y
  }

  /**
   * GetHashCode(c): the hash of the character the comparer looks at, so every
   * character Equal to `c` has a key with that same hash.
   */
  function GetHashCode(cmp: Comparer, c: char): (r: int)
    ensures forall d :: Equals(cmp, c, d) ==> r == CharHash(Key(cmp, d))
  {
    if cmp.ignoreCase then CharHash(cmp.culture.upper(c)) else CharHash(c)
  }

  /** Equal characters hash alike, so the comparer can key a hash table. */
  lemma HashConsistent(cmp: Comparer, x: char, y: char)
    requires Equals(cmp, x, y)
    ensures GetHashCode(cmp, x) == GetHashCode(cmp, y)
  {
  }

  /** Compare is antisymmetric in sign. */
  lemma CompareAntisymmetric(cmp: Comparer, x: char, y: char)
    ensures Compare(cmp, x, y) < 0 <==> Compare(cmp, y, x) > 0
    ensures Compare(cmp, x, y) == 0 <==> Compare(cmp, y, x) == 0
  {
  }

  /** Equals is reflexive, symmetric and transitive in both modes. */
  lemma EqualsIsEquivalence(cmp: Comparer, x: char, y: char, z: char)
    ensures Equals(cmp, x, x)
    ensures Equals(cmp, x, y) ==> Equals(cmp, y, x)
    ensures Equals(cmp, x, y) && Equals(cmp, y, z) ==> Equals(cmp, x, z)
  {
  }

  /**
   * 'h' and 'H' differ when case matters and are equal when it is ignored
   * under a culture whose upper case of 'h' is 'H'.
   */
  lemma CaseExample(culture: Culture)
    requires culture.upper('h') == 'H' && culture.upper('H') == 'H'
    ensures !Equals(Comparer(culture, false), 'h', 'H')
    ensures Equals(Comparer(culture, true), 'h', 'H')
  {
  }
}
