/**
 * The public face of character comparison: the comparison selector, the factory
 * and the four standard comparers, and the entry points that accept nullable
 * characters and arbitrary objects.
 */
module CharacterComparer {
  import opened Wrappers
  import opened Globalization
  import opened CultureAwareCharacterComparer

  /**
   * CharacterComparison. The four named values are 0..3; any other value cast to
   * the enumeration is `UndefinedCharacterComparison`.
   */
  datatype CharacterComparison =
    | CurrentCulture
    | CurrentCultureIgnoreCase
    | InvariantCulture
    | InvariantCultureIgnoreCase
    | UndefinedCharacterComparison(code: int)

  /** CharacterComparer.InvariantCulture: built once from the invariant culture. */
  function InvariantCultureComparer(cultures: Cultures): Comparer
  {
    Comparer(cultures.fixed, false)
  }

  /** CharacterComparer.InvariantCultureIgnoreCase: built once from the invariant culture. */
  function InvariantCultureIgnoreCaseComparer(cultures: Cultures): Comparer
  {
    Comparer(cultures.fixed, true)
  }

  /** CharacterComparer.CurrentCulture: built anew from the current culture on every access. */
  function CurrentCultureComparer(cultures: Cultures): Comparer
  {
    Comparer(cultures.current, false)
  }

  /** CharacterComparer.CurrentCultureIgnoreCase: built anew from the current culture on every access. */
  function CurrentCultureIgnoreCaseComparer(cultures: Cultures): Comparer
  {
    Comparer(cultures.current, true)
  }

  /**
   * The two invariant comparers do not depend on the current culture; the two
   * current-culture comparers carry whatever culture is current at the access.
   */
  lemma StandardComparers(cultures: Cultures, other: Culture)
    ensures InvariantCultureComparer(cultures) == InvariantCultureComparer(cultures.(current := other))
    ensures InvariantCultureIgnoreCaseComparer(cultures) == InvariantCultureIgnoreCaseComparer(cultures.(current := other))
    ensures CurrentCultureComparer(cultures.(current := other)).culture == other
    ensures CurrentCultureIgnoreCaseComparer(cultures.(current := other)).culture == other
    ensures !CurrentCultureComparer(cultures).ignoreCase && !InvariantCultureComparer(cultures).ignoreCase
    ensures CurrentCultureIgnoreCaseComparer(cultures).ignoreCase && InvariantCultureIgnoreCaseComparer(cultures).ignoreCase
  {
  }

  /** Create(culture, ignoreCase): a null culture is rejected. */
  function Create(culture: Option<Culture>, ignoreCase: bool): (r: Result<Comparer>)
    ensures culture.None? <==> r.Err?
    ensures culture.None? ==> r == Err(ArgumentNullException("culture"))
    ensures culture.Some? ==> r.Ok? && r.value.culture == culture.value && r.value.ignoreCase == ignoreCase
  {
    match culture
    case None => Err(ArgumentNullException("culture"))
    case Some(c) => Ok(Comparer(c, ignoreCase))
  }

  /** Whether a named selector ignores case. */
  predicate IgnoresCase(comparison: CharacterComparison)
  {
    comparison == CurrentCultureIgnoreCase || comparison == InvariantCultureIgnoreCase
  }

  /** Whether a named selector uses the current culture. */
  predicate UsesCurrentCulture(comparison: CharacterComparison)
  {
    comparison == CurrentCulture || comparison == CurrentCultureIgnoreCase
  }

  /**
   * FromComparison: each named selector gives the comparer with the matching
   * culture and case rule; any other value is an ArgumentException.
   */
  function FromComparison(comparison: CharacterComparison, cultures: Cultures): (r: Result<Comparer>)
    ensures r.Err? <==> comparison.UndefinedCharacterComparison?
    ensures r.Err? ==> r.error == ArgumentException
    ensures r.Ok? ==> r.value.ignoreCase == IgnoresCase(comparison)
    ensures r.Ok? ==> r.value.culture == if UsesCurrentCulture(comparison) then cultures.current else cultures.fixed
  {
    match comparison
    case CurrentCulture => Ok(CurrentCultureComparer(cultures))
    case CurrentCultureIgnoreCase => Ok(CurrentCultureIgnoreCaseComparer(cultures))
    case InvariantCulture => Ok(InvariantCultureComparer(cultures))
    case InvariantCultureIgnoreCase => Ok(InvariantCultureIgnoreCaseComparer(cultures))
    case UndefinedCharacterComparison(_) => Err(ArgumentException)
  }

  // ---------------------------------------------------------------------------
  // Nullable characters (the char? entry points)
  // ---------------------------------------------------------------------------

  /** Compare(char?, char?): null sorts before every character and equals only null. */
  function CompareNullable(cmp: Comparer, x: Option<char>, y: Option<char>): (r: int)
    ensures x.None? && y.None? ==> r == 0
    ensures x.None? && y.Some? ==> r == -1
    ensures x.Some? && y.None? ==> r == 1
    ensures x.Some? && y.Some? ==> r == Compare(cmp, x.value, y.value)
  {
    match (x, y)
    case (None, None) => 0
    case (None, Some(_)) => -1
    case (Some(_), None) => 1
    case (Some(a), Some(b)) => Compare(cmp, a, b)
  }

  /** Equals(char?, char?): two nulls are equal, a null never equals a character. */
  predicate EqualsNullable(cmp: Comparer, x: Option<char>, y: Option<char>)
    ensures x.None? || y.None? ==> (EqualsNullable(cmp, x, y) <==> x == y)
    ensures x.Some? && y.Some? ==> (EqualsNullable(cmp, x, y) <==> Equals(cmp, x.value, y.value))
  {
    match (x, y)
    case (None, None) => true
    case (Some(a), Some(b)) => Equals(cmp, a, b)
    case _ => false
  }

  /** GetHashCode(char?): hashing null is an ArgumentNullException. */
  function GetHashCodeNullable(cmp: Comparer, x: Option<char>): (r: Result<int>)
    ensures x.None? <==> r.Err?
    ensures x.None? ==> r.error == ArgumentNullException("obj")
    ensures x.Some? ==> r.Ok? && r.value == GetHashCode(cmp, x.value)
  {
    match x
    case None => Err(ArgumentNullException("obj"))
    case Some(c) => Ok(GetHashCode(cmp, c))
  }

  /** On nullable characters, Equals holds exactly when Compare is zero, and Compare is antisymmetric. */
  lemma NullableCompareAgreesWithEquals(cmp: Comparer, x: Option<char>, y: Option<char>)
    ensures EqualsNullable(cmp, x, y) <==> CompareNullable(cmp, x, y) == 0
    ensures CompareNullable(cmp, x, y) < 0 <==> CompareNullable(cmp, y, x) > 0
  {
  }

  // ---------------------------------------------------------------------------
  // Object entry points (IComparer, IEqualityComparer)
  // ---------------------------------------------------------------------------

  /**
   * The operands the object entry points can receive: null, a boxed char, a boxed
   * int (an IComparable that is not a char) and a plain object that implements
   * neither (identified by its reference).
   */
  datatype Obj = Null | Ch(c: char) | Int(i: int) | Plain(id: nat)

  /** object.Equals of a non-null operand: value equality for boxed values, reference equality for plain objects. */
  predicate OwnEquals(x: Obj, y: Obj)
    requires x != Null
  {
    x == y
  }

  /** object.GetHashCode of a non-null operand (an int hashes to itself). */
  function OwnHash(x: Obj): int
    requires x != Null
  {
    match x
    case Ch(c) => CharHash(c)
    case Int(i) => i
    case Plain(id) => id
  }

  /** The sign of an integer, as Int32.CompareTo(Int32) reports an order. */
  function Sign(d: int): int
  {
    if d < 0 then -1 else if d > 0 then 1 else 0
  }

  /**
   * IComparable.CompareTo(object) of a char or int: comparing with a value of
   * another type is an ArgumentException.
   */
  function OwnCompareTo(x: Obj, y: Obj): Result<int>
    requires x.Ch? || x.Int?
  {
    match (x, y)
    case (_, Null) => Ok(1)
    case (Ch(a), Ch(b)) => Ok(CharCompareTo(a, b))
    case (Int(i), Int(j)) => Ok(Sign(i - j))
    case _ => Err(ArgumentException)
  }

  /**
   * Equals(object, object). Reference equality of the operands (`x == y` in the
   * source) is datatype equality here, which gives the same answers because equal
   * boxed values are equal under every later branch too.
   */
  predicate EqualsObjects(cmp: Comparer, x: Obj, y: Obj)
    ensures x == Null || y == Null ==> (EqualsObjects(cmp, x, y) <==> x == y)
    ensures x.Ch? && y.Ch? ==> (EqualsObjects(cmp, x, y) <==> Equals(cmp, x.c, y.c))
    ensures x.Int? && y.Int? ==> (EqualsObjects(cmp, x, y) <==> x.i == y.i)
    ensures x.Ch? != y.Ch? ==> !EqualsObjects(cmp, x, y)
    ensures x.Plain? || y.Plain? ==> (EqualsObjects(cmp, x, y) <==> x == y)
  {
    if x == y then true
    else if x == Null || y == Null then false
    else if x.Ch? && y.Ch? then Equals(cmp, x.c, y.c)
    else OwnEquals(x, y)
  }

  /** GetHashCode(object): null is rejected; a char hashes as the char overload does. */
  function GetHashCodeObject(cmp: Comparer, x: Obj): (r: Result<int>)
    ensures x == Null <==> r.Err?
    ensures x == Null ==> r.error == ArgumentNullException("obj")
    ensures x.Ch? ==> r == Ok(GetHashCode(cmp, x.c))
    ensures x.Int? || x.Plain? ==> r == Ok(OwnHash(x))
  {
    if x == Null then Err(ArgumentNullException("obj"))
    else if x.Ch? then Ok(GetHashCode(cmp, x.c))
    else Ok(OwnHash(x))
  }

  /** Compare(object, object). */
  function CompareObjects(cmp: Comparer, x: Obj, y: Obj): (r: Result<int>)
    ensures x == Null && y == Null ==> r == Ok(0)
    ensures x == Null && y != Null ==> r == Ok(-1)
    ensures x != Null && y == Null ==> r == Ok(1)
    ensures x.Ch? && y.Ch? ==> r == Ok(Compare(cmp, x.c, y.c))
    ensures x.Int? && y.Int? ==> r.Ok? && Sign(r.value) == Sign(x.i - y.i)
    ensures x.Ch? && (y.Int? || y.Plain?) ==> r == Err(ArgumentException)
    ensures x.Int? && (y.Ch? || y.Plain?) ==> r == Err(ArgumentException)
    ensures x.Plain? && y != Null && y != x ==> r == Err(ArgumentException)
  {
    if x == y then Ok(0)
    else if x == Null then Ok(-1)
    else if y == Null then Ok(1)
    else if x.Ch? && y.Ch? then Ok(Compare(cmp, x.c, y.c))
    else if x.Ch? || x.Int? then OwnCompareTo(x, y)
    else Err(ArgumentException)
  }

  /**
   * The object entry points are consistent: Compare is zero exactly when Equals
   * holds, and equal non-null operands hash alike.
   */
  lemma ObjectEntryPointsConsistent(cmp: Comparer, x: Obj, y: Obj)
    ensures CompareObjects(cmp, x, y) == Ok(0) <==> EqualsObjects(cmp, x, y)
    ensures EqualsObjects(cmp, x, y) && x != Null && y != Null ==>
      GetHashCodeObject(cmp, x) == GetHashCodeObject(cmp, y)
  {
  }

  /** The object-level cases the unit tests exercise, for any comparer. */
  lemma ObjectExamples(cmp: Comparer, plain: nat)
    ensures EqualsObjects(cmp, Null, Null) && !EqualsObjects(cmp, Null, Ch('h')) && !EqualsObjects(cmp, Ch('h'), Null)
    ensures EqualsObjects(cmp, Int(42), Int(42)) && !EqualsObjects(cmp, Int(42), Int(84))
    ensures !EqualsObjects(cmp, Ch('h'), Int(84)) && !EqualsObjects(cmp, Int(42), Ch('h'))
    ensures CompareObjects(cmp, Null, Ch('h')) == Ok(-1) && CompareObjects(cmp, Ch('h'), Null) == Ok(1)
    ensures CompareObjects(cmp, Int(42), Int(84)) == Ok(-1)
    ensures CompareObjects(cmp, Int(42), Ch('A')).Err? && CompareObjects(cmp, Ch('A'), Int(42)).Err?
    ensures CompareObjects(cmp, Plain(plain), Int(42)) == Err(ArgumentException)
    ensures GetHashCodeObject(cmp, Plain(plain)) == Ok(plain)
    ensures GetHashCodeObject(cmp, Null).Err? && GetHashCodeNullable(cmp, None).Err?
  {
  }
}
