/** A closed interval over any type with a three-way comparison. The
    comparison `compare(a, b)` stands for `a.CompareTo(b)`: negative, zero or
    positive as `a` is below, equal to or above `b`. */
module Ranges {

  datatype Result<T, E> = Ok(value: T) | Err(error: E)

  /** The error the constructor signals. */
  datatype RangeError = ArgumentOutOfRange

  datatype Range<T> = Range(minimum: T, maximum: T)

  /** What a comparison must satisfy for ranges to behave as intervals:
      every value compares equal to itself, and "at most" is transitive. */
  ghost predicate IsComparison<T(!new)>(compare: (T, T) -> int) {
    && (forall x :: compare(x, x) == 0)
    && (forall x, y, z :: compare(x, y) <= 0 && compare(y, z) <= 0 ==> compare(x, z) <= 0)
  }

  /** The constructor's validity check: the minimum must not compare above
      the maximum. */
  predicate IsValidRange<T>(compare: (T, T) -> int, r: Range<T>) {
    compare(r.minimum, r.maximum) <= 0
  }

  /** The public constructor: keeps both bounds, and signals an error when
      the minimum compares above the maximum. */
  function NewRange<T>(compare: (T, T) -> int, minimum: T, maximum: T): (r: Result<Range<T>, RangeError>)
    ensures r.Err? <==> compare(minimum, maximum) > 0
    ensures r.Ok? ==> r.value.minimum == minimum && r.value.maximum == maximum
    ensures r.Ok? ==> IsValidRange(compare, r.value)
  {
    if compare(minimum, maximum) > 0 then Err(ArgumentOutOfRange) else Ok(Range(minimum, maximum))
  }

  /** Whether a value lies in the range, both ends included. */
  predicate ContainsValue<T>(compare: (T, T) -> int, r: Range<T>, value: T) {
    compare(r.minimum, value) <= 0 && compare(value, r.maximum) <= 0
  }

  /** Whether another range lies within this one: both its ends do. */
  predicate ContainsRange<T>(compare: (T, T) -> int, r: Range<T>, other: Range<T>) {
    ContainsValue(compare, r, other.minimum) && ContainsValue(compare, r, other.maximum)
  }

  /** A range the constructor accepts contains both of its bounds. */
  lemma ConstructedRangeContainsBounds<T(!new)>(compare: (T, T) -> int, minimum: T, maximum: T)
    requires IsComparison(compare)
    ensures NewRange(compare, minimum, maximum).Ok? ==>
              var r := NewRange(compare, minimum, maximum).value;
              ContainsValue(compare, r, minimum) && ContainsValue(compare, r, maximum)
  {
  }

  /** Range containment is interval inclusion: a valid range lies within
      `r` exactly when every value it contains lies in `r`. */
  lemma ContainsRangeIsInclusion<T(!new)>(compare: (T, T) -> int, r: Range<T>, other: Range<T>)
    requires IsComparison(compare) && IsValidRange(compare, other)
    ensures ContainsRange(compare, r, other) <==>
              forall v :: ContainsValue(compare, other, v) ==> ContainsValue(compare, r, v)
  {
    if forall v :: ContainsValue(compare, other, v) ==> ContainsValue(compare, r, v) {
      assert ContainsValue(compare, other, other.minimum);
      assert ContainsValue(compare, other, other.maximum);
    }
  }

  /** A valid range contains itself. */
  lemma ContainsRangeReflexive<T(!new)>(compare: (T, T) -> int, r: Range<T>)
    requires IsComparison(compare) && IsValidRange(compare, r)
    ensures ContainsRange(compare, r, r)
  {
  }

  /** A value of an inner range lies in the outer range. */
  lemma ContainsValueThroughRange<T(!new)>(compare: (T, T) -> int, outer: Range<T>, inner: Range<T>, v: T)
    requires IsComparison(compare)
    requires ContainsRange(compare, outer, inner) && ContainsValue(compare, inner, v)
    ensures ContainsValue(compare, outer, v)
  {
  }

  /** Range containment is transitive. */
  lemma ContainsRangeTransitive<T(!new)>(compare: (T, T) -> int, a: Range<T>, b: Range<T>, c: Range<T>)
    requires IsComparison(compare)
    requires ContainsRange(compare, a, b) && ContainsRange(compare, b, c)
    ensures ContainsRange(compare, a, c)
  {
    ContainsValueThroughRange(compare, a, b, c.minimum);
    ContainsValueThroughRange(compare, a, b, c.maximum);
  }

  /** `CompareTo` on integers. */
  function CompareInts(a: int, b: int): int {
    if a < b then -1 else if a > b then 1 else 0
  }

  /** On integers the comparison is lawful and containment is the inclusive
      interval test. */
  lemma IntRangeContainment(r: Range<int>, v: int)
    ensures IsComparison(CompareInts)
    ensures ContainsValue(CompareInts, r, v) <==> r.minimum <= v <= r.maximum
    ensures NewRange(CompareInts, r.minimum, r.maximum).Ok? <==> r.minimum <= r.maximum
  {
  }
}
