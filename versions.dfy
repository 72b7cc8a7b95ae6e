/**
 * Artifact versions as the plugin sees them: an opaque, already parsed value with
 * a string form, numeric segments, a qualifier and a snapshot marker, ordered by
 * a pluggable comparator.  Parsing belongs to the version library and is not
 * modelled; a `Version` simply carries what the library would report.
 */
module Versions {
  import opened Wrappers

  /**
   * A parsed version.  `text` is `toString()`, `major`/`minor`/`incremental`
   * are the numeric segments (0 when absent), `qualifier` is `getQualifier()`
   * (`None` for null) and `snapshot` is the library's snapshot test.
   */
  datatype Version = Version(
    text: string,
    major: nat,
    minor: nat,
    incremental: nat,
    qualifier: Option<string>,
    snapshot: bool)

  /** A comparator in the sense of java.util.Comparator: negative, zero or positive. */
  type Comparator = (Version, Version) -> int

  /**
   * The comparator is a total preorder: reflexive, sign-antisymmetric and
   * transitive.  Transitivity is only instantiated through `Transitive`
   * below (its trigger is the marker `Chain`), which keeps proofs that
   * mention many comparisons small.
   */
  ghost predicate IsTotalPreorder(cmp: Comparator) {
    && (forall a :: cmp(a, a) == 0)
    && (forall a, b :: cmp(a, b) < 0 <==> cmp(b, a) > 0)
    && (forall a, b, c {:trigger Chain(a, b, c)} :: Chain(a, b, c) && cmp(a, b) <= 0 && cmp(b, c) <= 0 ==> cmp(a, c) <= 0)
  }

  /** Marks the triple a transitivity step is applied to. */
  ghost predicate Chain(a: Version, b: Version, c: Version) {
    true
  }

  lemma Transitive(cmp: Comparator, a: Version, b: Version, c: Version)
    requires IsTotalPreorder(cmp)
    requires cmp(a, b) <= 0 && cmp(b, c) <= 0
    ensures cmp(a, c) <= 0
  {
    assert Chain(a, b, c);
  }

  lemma LessThenAtMost(cmp: Comparator, a: Version, b: Version, c: Version)
    requires IsTotalPreorder(cmp)
    requires cmp(a, b) < 0 && cmp(b, c) <= 0
    ensures cmp(a, c) < 0
  {
    Transitive(cmp, a, b, c);
    if cmp(a, c) == 0 {
      Transitive(cmp, b, c, a);
    }
  }

  lemma AtMostThenLess(cmp: Comparator, a: Version, b: Version, c: Version)
    requires IsTotalPreorder(cmp)
    requires cmp(a, b) <= 0 && cmp(b, c) < 0
    ensures cmp(a, c) < 0
  {
    Transitive(cmp, a, b, c);
    if cmp(a, c) == 0 {
      Transitive(cmp, c, a, b);
    }
  }

  /** Strictly increasing under `cmp`: the order in which version lists are handed out. */
  ghost predicate Ascending(cmp: Comparator, s: seq<Version>) {
    forall i, j :: 0 <= i < j < |s| ==> cmp(s[i], s[j]) < 0
  }

  /** Decimal digits of `n`, as Java's string concatenation of an int writes them. */
  function DecimalString(n: nat): string
    decreases n
  {
    if n < 10 then [Digit(n)] else DecimalString(n / 10) + [Digit(n % 10)]
  }

  function Digit(d: nat): char
    requires d < 10
  {
    "0123456789"[d]
  }

  /** The version the library parses from "major.minor.incremental": no qualifier, not a snapshot. */
  function Release(major: nat, minor: nat, incremental: nat): Version {
    Version(DecimalString(major) + "." + DecimalString(minor) + "." + DecimalString(incremental),
            major, minor, incremental, None, false)
  }

  ghost predicate IsRelease(v: Version) {
    v.qualifier.None? && !v.snapshot
  }

  /** (major, minor, incremental) of `a` is lexicographically below that of `b`. */
  predicate NumericallyBelow(a: Version, b: Version) {
    || a.major < b.major
    || (a.major == b.major && a.minor < b.minor)
    || (a.major == b.major && a.minor == b.minor && a.incremental < b.incremental)
  }

  /**
   * What the plugin relies on from the version library: plain releases are
   * ordered by their numeric triple.
   */
  ghost predicate OrdersReleasesNumerically(cmp: Comparator) {
    forall a, b :: IsRelease(a) && IsRelease(b) && NumericallyBelow(a, b) ==> cmp(a, b) < 0
  }
}
