/**
 * Version ranges.  The version library parses a range specification such as
 * "[1.0,2.0)" into restrictions; parsing is not modelled, only what a parsed
 * range accepts.  A restriction has an optional lower and upper bound, each
 * inclusive or exclusive; a range accepts a version when one of its
 * restrictions does.
 */
module Ranges {
  import opened Wrappers
  import opened Versions

  /**
   * The bound test shared by bounded version queries and by range
   * restrictions: an absent bound accepts everything, an exclusive bound
   * rejects a version that compares equal to it.
   */
  predicate WithinBounds(cmp: Comparator, v: Version, lower: Option<Version>, upper: Option<Version>,
                         includeLower: bool, includeUpper: bool)
  {
    && (lower.None? || (if includeLower then cmp(lower.value, v) <= 0 else cmp(lower.value, v) < 0))
    && (upper.None? || (if includeUpper then cmp(upper.value, v) >= 0 else cmp(upper.value, v) > 0))
  }

  datatype Restriction = Restriction(lower: Option<Version>, lowerInclusive: bool,
                                     upper: Option<Version>, upperInclusive: bool)

  datatype VersionRange = VersionRange(restrictions: seq<Restriction>)

  predicate RestrictionContains(cmp: Comparator, r: Restriction, v: Version) {
    WithinBounds(cmp, v, r.lower, r.upper, r.lowerInclusive, r.upperInclusive)
  }

  /** `VersionRange.containsVersion`: some restriction, tried in order, contains the version. */
  predicate RangeContains(cmp: Comparator, range: VersionRange, v: Version) {
    AnyRestrictionContains(cmp, range.restrictions, v)
  }

  predicate AnyRestrictionContains(cmp: Comparator, restrictions: seq<Restriction>, v: Version)
    decreases |restrictions|
  {
    |restrictions| > 0
    && (RestrictionContains(cmp, restrictions[0], v) || AnyRestrictionContains(cmp, restrictions[1..], v))
  }

  /** A range made of one interval. */
  function Interval(lower: Option<Version>, lowerInclusive: bool, upper: Option<Version>, upperInclusive: bool)
    : (range: VersionRange)
  {
    VersionRange([Restriction(lower, lowerInclusive, upper, upperInclusive)])
  }

  lemma {:induction false} IntervalContains(cmp: Comparator, lower: Option<Version>, lowerInclusive: bool,
                                            upper: Option<Version>, upperInclusive: bool, v: Version)
    ensures RangeContains(cmp, Interval(lower, lowerInclusive, upper, upperInclusive), v)
        <==> WithinBounds(cmp, v, lower, upper, lowerInclusive, upperInclusive)
  {
    var rest := Interval(lower, lowerInclusive, upper, upperInclusive).restrictions[1..];
    assert !AnyRestrictionContains(cmp, rest, v);
  }
}
