/**
 * The `VersionDetails` query contract: the available versions of one artifact
 * (or property) in increasing order under the artifact's comparator, filtered
 * by snapshot policy, by a version range, or by optional lower and upper bounds
 * that are each inclusive or exclusive; and the newest and oldest version
 * among such a selection (`None` when the selection is empty).
 */
module VersionDetails {
  import opened Wrappers
  import opened Versions
  import opened Ranges

  /**
   * The details of one artifact: its available versions, the comparator
   * that orders them and the snapshot policy used by the overloads that do
   * not take one.
   */
  datatype Details = Details(versions: seq<Version>, comparator: Comparator, includeSnapshots: bool)

  ghost predicate Valid(d: Details) {
    IsTotalPreorder(d.comparator) && Ascending(d.comparator, d.versions)
  }

  // ---------------------------------------------------------------------
  // Building the ascending list from the retrieved metadata
  // ---------------------------------------------------------------------

  /**
   * Adds `v` to an ascending list the way a comparator-ordered set does: a
   * version that compares equal to one already present is dropped.
   */
  function Insert(cmp: Comparator, s: seq<Version>, v: Version): (r: seq<Version>)
    ensures forall x :: x in r ==> x in s || x == v
    ensures forall x :: x in s ==> x in r
    ensures v in r || exists y :: y in s && cmp(v, y) == 0
    decreases |s|
  {
    if |s| == 0 then [v]
    else if cmp(v, s[0]) < 0 then [v] + s
    else if cmp(v, s[0]) == 0 then s
    else
      var rest := Insert(cmp, s[1..], v);
      assert forall x :: x in s[1..] ==> x in s;
      [s[0]] + rest
  }

  /** Insertion keeps a list ascending when the comparator is a total preorder. */
  lemma {:induction false} InsertAscending(cmp: Comparator, s: seq<Version>, v: Version)
    ensures IsTotalPreorder(cmp) && Ascending(cmp, s) ==> Ascending(cmp, Insert(cmp, s, v))
    decreases |s|
  {
    if IsTotalPreorder(cmp) && Ascending(cmp, s) && |s| > 0 {
      if cmp(v, s[0]) < 0 {
        BelowHeadBelowAll(cmp, v, s);
        ConsAscending(cmp, v, s);
      } else if cmp(v, s[0]) > 0 {
        InsertAscending(cmp, s[1..], v);
        var rest := Insert(cmp, s[1..], v);
        HeadBelowInserted(cmp, s, v, rest);
        ConsAscending(cmp, s[0], rest);
      }
    }
  }

  lemma ConsAscending(cmp: Comparator, x: Version, s: seq<Version>)
    requires Ascending(cmp, s)
    requires forall y :: y in s ==> cmp(x, y) < 0
    ensures Ascending(cmp, [x] + s)
  {
    var r := [x] + s;
    forall i, j | 0 <= i < j < |r| ensures cmp(r[i], r[j]) < 0 {
      if i > 0 {
        assert r[i] == s[i - 1] && r[j] == s[j - 1];
      } else {
        assert r[j] in s;
      }
    }
  }

  lemma BelowHeadBelowAll(cmp: Comparator, v: Version, s: seq<Version>)
    requires IsTotalPreorder(cmp)
    requires Ascending(cmp, s) && |s| > 0 && cmp(v, s[0]) < 0
    ensures forall y :: y in s ==> cmp(v, y) < 0
  {
    forall y | y in s ensures cmp(v, y) < 0 {
      var k :| 0 <= k < |s| && s[k] == y;
      if k > 0 { LessThenAtMost(cmp, v, s[0], s[k]); }
    }
  }

  lemma HeadBelowInserted(cmp: Comparator, s: seq<Version>, v: Version, rest: seq<Version>)
    requires IsTotalPreorder(cmp)
    requires Ascending(cmp, s) && |s| > 0 && cmp(v, s[0]) > 0
    requires forall x :: x in rest ==> x in s[1..] || x == v
    ensures forall x :: x in rest ==> cmp(s[0], x) < 0
  {
    forall x | x in rest ensures cmp(s[0], x) < 0 {
      if x in s[1..] {
        var k :| 0 <= k < |s[1..]| && s[1..][k] == x;
        assert s[k + 1] == x;
      }
    }
  }

  /**
   * All available versions in increasing order: every retrieved version is
   * kept, or dropped for an earlier one it compares equal to; nothing else
   * appears; and, for a total preorder, the list is strictly increasing.
   */
  function SortDistinct(cmp: Comparator, available: seq<Version>): (r: seq<Version>)
    ensures IsTotalPreorder(cmp) ==> Ascending(cmp, r)
    ensures forall x :: x in r ==> x in available
    ensures forall v :: v in available ==> v in r || exists w :: w in r && cmp(v, w) == 0
    decreases |available|
  {
    if |available| == 0 then []
    else
      var init := available[..|available| - 1];
      var last := available[|available| - 1];
      var prefix := SortDistinct(cmp, init);
      var r := Insert(cmp, prefix, last);
      InsertAscending(cmp, prefix, last);
      InsertKeepsCoverage(cmp, available, init, last, prefix, r);
      r
  }

  lemma InsertKeepsCoverage(cmp: Comparator, available: seq<Version>, init: seq<Version>, last: Version,
                            prefix: seq<Version>, r: seq<Version>)
    requires |available| > 0 && init == available[..|available| - 1] && last == available[|available| - 1]
    requires forall x :: x in prefix ==> x in init
    requires forall v :: v in init ==> v in prefix || exists w :: w in prefix && cmp(v, w) == 0
    requires forall x :: x in r ==> x in prefix || x == last
    requires forall x :: x in prefix ==> x in r
    requires last in r || exists y :: y in prefix && cmp(last, y) == 0
    ensures forall x :: x in r ==> x in available
    ensures forall v :: v in available ==> v in r || exists w :: w in r && cmp(v, w) == 0
  {
    assert available == init + [last];
    forall v | v in available ensures v in r || exists w :: w in r && cmp(v, w) == 0 {
      if v in init && v !in prefix {
        var w :| w in prefix && cmp(v, w) == 0;
        assert w in r;
      } else if v in init {
        assert v in r;
      } else if last !in r {
        var y :| y in prefix && cmp(last, y) == 0;
        assert y in r;
      } else {
        assert last in r;
      }
    }
  }

  /** The details of an artifact whose retrieved versions are `available`. */
  function FromMetadata(available: seq<Version>, cmp: Comparator, includeSnapshots: bool): (d: Details)
    ensures d.comparator == cmp && d.includeSnapshots == includeSnapshots
    ensures IsTotalPreorder(cmp) ==> Valid(d)
  {
    Details(SortDistinct(cmp, available), cmp, includeSnapshots)
  }

  // ---------------------------------------------------------------------
  // Selection, first and last
  // ---------------------------------------------------------------------

  /** The elements of `s` that satisfy `p`, in their order in `s`. */
  function Select(s: seq<Version>, p: Version -> bool): (r: seq<Version>)
    ensures forall v :: v in r <==> v in s && p(v)
    ensures |r| <= |s|
    decreases |s|
  {
    if |s| == 0 then []
    else Select(s[..|s| - 1], p) + (if p(s[|s| - 1]) then [s[|s| - 1]] else [])
  }

  /** Selecting by `p` and then by `q` is selecting by both at once. */
  lemma {:induction false} SelectSelect(s: seq<Version>, p: Version -> bool, q: Version -> bool, pq: Version -> bool)
    requires forall v :: pq(v) == (p(v) && q(v))
    ensures Select(Select(s, p), q) == Select(s, pq)
    decreases |s|
  {
    if |s| > 0 {
      var init, x := s[..|s| - 1], s[|s| - 1];
      SelectSelect(init, p, q, pq);
      var a := Select(init, p);
      assert s[..|s| - 1] == init;
      assert Select(s, pq) == Select(init, pq) + (if pq(x) then [x] else []);
      if p(x) {
        assert Select(s, p) == a + [x];
        assert (a + [x])[..|a|] == a;
        assert Select(a + [x], q) == Select(a, q) + (if q(x) then [x] else []);
      } else {
        assert Select(s, p) == a + [];
        assert a + [] == a;
        assert Select(s, pq) == Select(init, pq) + [];
      }
    }
  }

  /** Selecting by a predicate that holds everywhere keeps the whole list. */
  lemma {:induction false} SelectAll(s: seq<Version>, p: Version -> bool)
    requires forall v :: p(v)
    ensures Select(s, p) == s
    decreases |s|
  {
    if |s| > 0 {
      var init := s[..|s| - 1];
      SelectAll(init, p);
      assert Select(s, p) == init + [s[|s| - 1]];
      assert init + [s[|s| - 1]] == s;
    }
  }

  /** The last selected element is the one that no later element of `s` satisfies `p` after. */
  lemma {:induction false} LastSelected(s: seq<Version>, p: Version -> bool)
    ensures var last := Last(Select(s, p));
      last.Some? ==>
        exists i :: 0 <= i < |s| && s[i] == last.value && forall j :: i < j < |s| ==> !p(s[j])
    decreases |s|
  {
    if |s| > 0 && !p(s[|s| - 1]) {
      var init := s[..|s| - 1];
      LastSelected(init, p);
      assert Select(s, p) == Select(init, p) + [];
      assert Select(init, p) + [] == Select(init, p);
      if Select(init, p) != [] {
        var i :| 0 <= i < |init| && init[i] == Last(Select(init, p)).value &&
          forall j :: i < j < |init| ==> !p(init[j]);
        assert forall j :: i < j < |s| ==> !p(s[j]) by {
          forall j | i < j < |s| ensures !p(s[j]) {
            if j < |init| {
              assert s[j] == init[j];
            }
          }
        }
      }
    }
  }

  lemma {:induction false} SelectAscending(cmp: Comparator, s: seq<Version>, p: Version -> bool)
    ensures Ascending(cmp, s) ==> Ascending(cmp, Select(s, p))
    decreases |s|
  {
    if |s| > 0 && Ascending(cmp, s) {
      var init := s[..|s| - 1];
      assert Ascending(cmp, init);
      SelectAscending(cmp, init, p);
      var prefix := Select(init, p);
      forall x | x in prefix ensures cmp(x, s[|s| - 1]) < 0 {
        var k :| 0 <= k < |init| && init[k] == x;
      }
      if p(s[|s| - 1]) {
        SnocAscending(cmp, prefix, s[|s| - 1]);
      }
    }
  }

  lemma SnocAscending(cmp: Comparator, s: seq<Version>, x: Version)
    requires Ascending(cmp, s)
    requires forall y :: y in s ==> cmp(y, x) < 0
    ensures Ascending(cmp, s + [x])
  {
    var r := s + [x];
    forall i, j | 0 <= i < j < |r| ensures cmp(r[i], r[j]) < 0 {
      if j < |s| {
        assert r[i] == s[i] && r[j] == s[j];
      } else {
        assert r[i] in s;
      }
    }
  }

  /** The last element, or `None` (Java's `null`) for an empty selection. */
  function Last(s: seq<Version>): Option<Version> {
    if |s| == 0 then None else Some(s[|s| - 1])
  }

  /** The first element, or `None` for an empty selection. */
  function First(s: seq<Version>): Option<Version> {
    if |s| == 0 then None else Some(s[0])
  }

  lemma LastIsGreatest(cmp: Comparator, s: seq<Version>)
    ensures IsTotalPreorder(cmp) && Ascending(cmp, s) && |s| > 0 ==> forall v :: v in s ==> cmp(v, s[|s| - 1]) <= 0
  {
    if IsTotalPreorder(cmp) && Ascending(cmp, s) && |s| > 0 {
      forall v | v in s ensures cmp(v, s[|s| - 1]) <= 0 {
        var k :| 0 <= k < |s| && s[k] == v;
      }
    }
  }

  lemma FirstIsLeast(cmp: Comparator, s: seq<Version>)
    ensures IsTotalPreorder(cmp) && Ascending(cmp, s) && |s| > 0 ==> forall v :: v in s ==> cmp(s[0], v) <= 0
  {
    if IsTotalPreorder(cmp) && Ascending(cmp, s) && |s| > 0 {
      forall v | v in s ensures cmp(s[0], v) <= 0 {
        var k :| 0 <= k < |s| && s[k] == v;
      }
    }
  }

  // ---------------------------------------------------------------------
  // The queries of VersionDetails
  // ---------------------------------------------------------------------

  /** `containsVersion(version)`: some available version has this string form. */
  function ContainsVersion(d: Details, version: string): (r: bool)
    ensures r <==> exists v :: v in d.versions && v.text == version
  {
    HasText(d.versions, version)
  }

  function HasText(s: seq<Version>, text: string): (r: bool)
    ensures r <==> exists v :: v in s && v.text == text
    decreases |s|
  {
    if |s| == 0 then false
    else if s[0].text == text then true
    else
      var r := HasText(s[1..], text);
      assert forall v :: v in s[1..] ==> v in s;
      assert forall v :: v in s ==> v == s[0] || v in s[1..];
      r
  }

  function SnapshotPolicy(includeSnapshots: bool): Version -> bool {
    (v: Version) => includeSnapshots || !v.snapshot
  }

  /** `getVersions(includeSnapshots)`. */
  function GetVersions(d: Details, includeSnapshots: bool): (r: seq<Version>)
    ensures forall v :: v in r <==> v in d.versions && (includeSnapshots || !v.snapshot)
    ensures Valid(d) ==> Ascending(d.comparator, r)
  {
    SelectAscending(d.comparator, d.versions, SnapshotPolicy(includeSnapshots));
    Select(d.versions, SnapshotPolicy(includeSnapshots))
  }

  /** `getVersions()`: every available version, snapshots included. */
  function GetAllVersions(d: Details): (r: seq<Version>)
    ensures forall v :: v in r <==> v in d.versions
    ensures Valid(d) ==> Ascending(d.comparator, r)
  {
    GetVersions(d, true)
  }

  /**
   * Read from the retrieved metadata, `getVersions()` lists every retrieved
   * version (or one comparing equal to it), nothing else, strictly
   * increasing.
   */
  lemma AllVersionsFromMetadata(available: seq<Version>, cmp: Comparator, includeSnapshots: bool)
    requires IsTotalPreorder(cmp)
    ensures var all := GetAllVersions(FromMetadata(available, cmp, includeSnapshots));
      && Ascending(cmp, all)
      && (forall v :: v in all ==> v in available)
      && (forall v :: v in available ==> v in all || exists w :: w in all && cmp(v, w) == 0)
  {
  }

  function InRange(cmp: Comparator, range: VersionRange, includeSnapshots: bool): Version -> bool {
    (v: Version) => (includeSnapshots || !v.snapshot) && RangeContains(cmp, range, v)
  }

  /** `getVersions(versionRange, includeSnapshots)`. */
  function GetVersionsInRange(d: Details, range: VersionRange, includeSnapshots: bool): (r: seq<Version>)
    ensures forall v :: v in r <==> v in d.versions && (includeSnapshots || !v.snapshot)
                                    && RangeContains(d.comparator, range, v)
    ensures Valid(d) ==> Ascending(d.comparator, r)
  {
    var p := InRange(d.comparator, range, includeSnapshots);
    SelectAscending(d.comparator, d.versions, p);
    Select(d.versions, p)
  }

  function InBounds(cmp: Comparator, lower: Option<Version>, upper: Option<Version>, includeSnapshots: bool,
                    includeLower: bool, includeUpper: bool): Version -> bool
  {
    (v: Version) => (includeSnapshots || !v.snapshot) && WithinBounds(cmp, v, lower, upper, includeLower, includeUpper)
  }

  /** `getVersions(lowerBound, upperBound, includeSnapshots, includeLower, includeUpper)`. */
  function GetVersionsInBounds(d: Details, lower: Option<Version>, upper: Option<Version>, includeSnapshots: bool,
                               includeLower: bool, includeUpper: bool): (r: seq<Version>)
    ensures forall v :: v in r <==>
      && v in d.versions
      && (includeSnapshots || !v.snapshot)
      && (lower.Some? ==> if includeLower then d.comparator(lower.value, v) <= 0 else d.comparator(lower.value, v) < 0)
      && (upper.Some? ==> if includeUpper then d.comparator(upper.value, v) >= 0 else d.comparator(upper.value, v) > 0)
    ensures Valid(d) ==> Ascending(d.comparator, r)
  {
    var p := InBounds(d.comparator, lower, upper, includeSnapshots, includeLower, includeUpper);
    SelectAscending(d.comparator, d.versions, p);
    Select(d.versions, p)
  }

  /** `getVersions(lowerBound, upperBound, includeSnapshots)`: both bounds exclusive. */
  function GetVersionsBetweenWithSnapshots(d: Details, lower: Option<Version>, upper: Option<Version>,
                                           includeSnapshots: bool): (r: seq<Version>)
    ensures forall v :: v in r <==>
      && v in d.versions
      && (includeSnapshots || !v.snapshot)
      && (lower.Some? ==> d.comparator(lower.value, v) < 0)
      && (upper.Some? ==> d.comparator(upper.value, v) > 0)
    ensures Valid(d) ==> Ascending(d.comparator, r)
  {
    GetVersionsInBounds(d, lower, upper, includeSnapshots, false, false)
  }

  /** `getVersions(lowerBound, upperBound)`: both bounds exclusive, the details' own snapshot policy. */
  function GetVersionsBetween(d: Details, lower: Option<Version>, upper: Option<Version>): (r: seq<Version>)
    ensures forall v :: v in r <==>
      && v in d.versions
      && (d.includeSnapshots || !v.snapshot)
      && (lower.Some? ==> d.comparator(lower.value, v) < 0)
      && (upper.Some? ==> d.comparator(upper.value, v) > 0)
    ensures Valid(d) ==> Ascending(d.comparator, r)
  {
    GetVersionsBetweenWithSnapshots(d, lower, upper, d.includeSnapshots)
  }

  /** `getNewestVersion(lowerBound, upperBound, includeSnapshots, includeLower, includeUpper)`. */
  function GetNewestVersionInBounds(d: Details, lower: Option<Version>, upper: Option<Version>,
                                    includeSnapshots: bool, includeLower: bool, includeUpper: bool)
    : (r: Option<Version>)
    ensures var selected := GetVersionsInBounds(d, lower, upper, includeSnapshots, includeLower, includeUpper);
      && (r.None? <==> selected == [])
      && (r.Some? ==> r.value in selected)
      && (r.Some? && Valid(d) ==> forall v :: v in selected ==> d.comparator(v, r.value) <= 0)
  {
    var selected := GetVersionsInBounds(d, lower, upper, includeSnapshots, includeLower, includeUpper);
    LastIsGreatest(d.comparator, selected);
    Last(selected)
  }

  /** `getNewestVersion(versionRange, includeSnapshots)`. */
  function GetNewestVersionInRange(d: Details, range: VersionRange, includeSnapshots: bool): (r: Option<Version>)
    ensures var selected := GetVersionsInRange(d, range, includeSnapshots);
      && (r.None? <==> selected == [])
      && (r.Some? ==> r.value in selected)
      && (r.Some? && Valid(d) ==> forall v :: v in selected ==> d.comparator(v, r.value) <= 0)
  {
    var selected := GetVersionsInRange(d, range, includeSnapshots);
    LastIsGreatest(d.comparator, selected);
    Last(selected)
  }

  /** Strictly above `lower` and strictly below `upper`, an absent bound being no limit. */
  predicate StrictlyBetween(cmp: Comparator, v: Version, lower: Option<Version>, upper: Option<Version>) {
    (lower.Some? ==> cmp(lower.value, v) < 0) && (upper.Some? ==> cmp(upper.value, v) > 0)
  }

  /**
   * `getNewestVersion(lowerBound, upperBound, includeSnapshots)`: the newest
   * version newer than the lower bound and less than the upper bound.
   */
  function GetNewestVersionBetweenWithSnapshots(d: Details, lower: Option<Version>, upper: Option<Version>,
                                                includeSnapshots: bool): (r: Option<Version>)
    ensures r.Some? ==> r.value in d.versions && (includeSnapshots || !r.value.snapshot)
                        && StrictlyBetween(d.comparator, r.value, lower, upper)
    ensures r.None? <==> forall v :: v in d.versions && (includeSnapshots || !v.snapshot)
                                     ==> !StrictlyBetween(d.comparator, v, lower, upper)
    ensures r.Some? && Valid(d) ==>
      forall v :: v in d.versions && (includeSnapshots || !v.snapshot) && StrictlyBetween(d.comparator, v, lower, upper)
                  ==> d.comparator(v, r.value) <= 0
  {
    GetNewestVersionInBounds(d, lower, upper, includeSnapshots, false, false)
  }

  /** `getNewestVersion(lowerBound, upperBound)`, with the details' own snapshot policy. */
  function GetNewestVersionBetween(d: Details, lower: Option<Version>, upper: Option<Version>): (r: Option<Version>)
    ensures r.Some? ==> r.value in d.versions && (d.includeSnapshots || !r.value.snapshot)
                        && StrictlyBetween(d.comparator, r.value, lower, upper)
    ensures r.None? <==> forall v :: v in d.versions && (d.includeSnapshots || !v.snapshot)
                                     ==> !StrictlyBetween(d.comparator, v, lower, upper)
    ensures r.Some? && Valid(d) ==>
      forall v :: v in d.versions && (d.includeSnapshots || !v.snapshot) && StrictlyBetween(d.comparator, v, lower, upper)
                  ==> d.comparator(v, r.value) <= 0
  {
    GetNewestVersionBetweenWithSnapshots(d, lower, upper, d.includeSnapshots)
  }

  /** `getOldestVersion(lowerBound, upperBound, includeSnapshots, includeLower, includeUpper)`. */
  function GetOldestVersionInBounds(d: Details, lower: Option<Version>, upper: Option<Version>,
                                    includeSnapshots: bool, includeLower: bool, includeUpper: bool)
    : (r: Option<Version>)
    ensures var selected := GetVersionsInBounds(d, lower, upper, includeSnapshots, includeLower, includeUpper);
      && (r.None? <==> selected == [])
      && (r.Some? ==> r.value in selected)
      && (r.Some? && Valid(d) ==> forall v :: v in selected ==> d.comparator(r.value, v) <= 0)
  {
    var selected := GetVersionsInBounds(d, lower, upper, includeSnapshots, includeLower, includeUpper);
    FirstIsLeast(d.comparator, selected);
    First(selected)
  }

  /** `getOldestVersion(versionRange, includeSnapshots)`. */
  function GetOldestVersionInRange(d: Details, range: VersionRange, includeSnapshots: bool): (r: Option<Version>)
    ensures var selected := GetVersionsInRange(d, range, includeSnapshots);
      && (r.None? <==> selected == [])
      && (r.Some? ==> r.value in selected)
      && (r.Some? && Valid(d) ==> forall v :: v in selected ==> d.comparator(r.value, v) <= 0)
  {
    var selected := GetVersionsInRange(d, range, includeSnapshots);
    FirstIsLeast(d.comparator, selected);
    First(selected)
  }

  /**
   * `getOldestVersion(lowerBound, upperBound, includeSnapshots)`: the oldest
   * version newer than the lower bound and less than the upper bound.
   */
  function GetOldestVersionBetweenWithSnapshots(d: Details, lower: Option<Version>, upper: Option<Version>,
                                                includeSnapshots: bool): (r: Option<Version>)
    ensures r.Some? ==> r.value in d.versions && (includeSnapshots || !r.value.snapshot)
                        && StrictlyBetween(d.comparator, r.value, lower, upper)
    ensures r.None? <==> forall v :: v in d.versions && (includeSnapshots || !v.snapshot)
                                     ==> !StrictlyBetween(d.comparator, v, lower, upper)
    ensures r.Some? && Valid(d) ==>
      forall v :: v in d.versions && (includeSnapshots || !v.snapshot) && StrictlyBetween(d.comparator, v, lower, upper)
                  ==> d.comparator(r.value, v) <= 0
  {
    GetOldestVersionInBounds(d, lower, upper, includeSnapshots, false, false)
  }

  /** `getOldestVersion(lowerBound, upperBound)`, with the details' own snapshot policy. */
  function GetOldestVersionBetween(d: Details, lower: Option<Version>, upper: Option<Version>): (r: Option<Version>)
    ensures r.Some? ==> r.value in d.versions && (d.includeSnapshots || !r.value.snapshot)
                        && StrictlyBetween(d.comparator, r.value, lower, upper)
    ensures r.None? <==> forall v :: v in d.versions && (d.includeSnapshots || !v.snapshot)
                                     ==> !StrictlyBetween(d.comparator, v, lower, upper)
    ensures r.Some? && Valid(d) ==>
      forall v :: v in d.versions && (d.includeSnapshots || !v.snapshot) && StrictlyBetween(d.comparator, v, lower, upper)
                  ==> d.comparator(r.value, v) <= 0
  {
    GetOldestVersionBetweenWithSnapshots(d, lower, upper, d.includeSnapshots)
  }

  // ---------------------------------------------------------------------
  // Properties of the bounded queries
  // ---------------------------------------------------------------------

  /**
   * An exclusive bound equal to an available version keeps that version out;
   * an inclusive one lets it in (when the other bound and the snapshot policy
   * admit it).
   */
  lemma ExclusiveBoundsExcludeThemselves(d: Details, lower: Option<Version>, upper: Option<Version>,
                                         includeSnapshots: bool, includeLower: bool, includeUpper: bool)
    requires IsTotalPreorder(d.comparator)
    ensures upper.Some? && !includeUpper ==>
      upper.value !in GetVersionsInBounds(d, lower, upper, includeSnapshots, includeLower, includeUpper)
    ensures lower.Some? && !includeLower ==>
      lower.value !in GetVersionsInBounds(d, lower, upper, includeSnapshots, includeLower, includeUpper)
    ensures upper.Some? && includeUpper && lower == upper && includeLower && upper.value in d.versions
            && (includeSnapshots || !upper.value.snapshot) ==>
      upper.value in GetVersionsInBounds(d, lower, upper, includeSnapshots, includeLower, includeUpper)
  {
  }

  /**
   * The oldest and the newest version of one selection are found together,
   * the oldest is not after the newest, and they coincide when exactly one
   * version is in bounds.
   */
  lemma {:induction false} OldestNotAfterNewest(d: Details, lower: Option<Version>, upper: Option<Version>,
                                                includeSnapshots: bool, includeLower: bool, includeUpper: bool)
    requires Valid(d)
    ensures var newest := GetNewestVersionInBounds(d, lower, upper, includeSnapshots, includeLower, includeUpper);
            var oldest := GetOldestVersionInBounds(d, lower, upper, includeSnapshots, includeLower, includeUpper);
      && (newest.Some? <==> oldest.Some?)
      && (newest.Some? ==> d.comparator(oldest.value, newest.value) <= 0)
      && (|GetVersionsInBounds(d, lower, upper, includeSnapshots, includeLower, includeUpper)| == 1
          ==> newest == oldest)
  {
    var selected := GetVersionsInBounds(d, lower, upper, includeSnapshots, includeLower, includeUpper);
    if |selected| > 0 {
      FirstIsLeast(d.comparator, selected);
      assert selected[|selected| - 1] in selected;
    }
  }

  /**
   * The two-bound newest and oldest queries return a version newer than the
   * lower bound and less than the upper bound.
   */
  lemma BetweenQueriesStayStrictlyInside(d: Details, lower: Option<Version>, upper: Option<Version>)
    requires IsTotalPreorder(d.comparator)
    ensures var newest := GetNewestVersionBetween(d, lower, upper);
      newest.Some? ==> (lower.Some? ==> d.comparator(lower.value, newest.value) < 0)
                       && (upper.Some? ==> d.comparator(newest.value, upper.value) < 0)
    ensures var oldest := GetOldestVersionBetween(d, lower, upper);
      oldest.Some? ==> (lower.Some? ==> d.comparator(lower.value, oldest.value) < 0)
                       && (upper.Some? ==> d.comparator(oldest.value, upper.value) < 0)
  {
  }

  /**
   * Newest of a narrower selection is never newer than the newest of a wider
   * one over the same ascending list: a version accepted by `p` is also
   * accepted by `q`.
   */
  lemma {:induction false} NarrowerSelectionNotNewer(cmp: Comparator, s: seq<Version>, p: Version -> bool,
                                                     q: Version -> bool)
    requires IsTotalPreorder(cmp) && Ascending(cmp, s)
    requires forall v :: v in s && p(v) ==> q(v)
    ensures Last(Select(s, p)).Some? ==> Last(Select(s, q)).Some?
    ensures Last(Select(s, p)).Some? ==> cmp(Last(Select(s, p)).value, Last(Select(s, q)).value) <= 0
  {
    var sp, sq := Select(s, p), Select(s, q);
    SelectAscending(cmp, s, q);
    if |sp| > 0 {
      var x := sp[|sp| - 1];
      assert x in sp;
      assert x in sq;
      LastIsGreatest(cmp, sq);
    }
  }
}
