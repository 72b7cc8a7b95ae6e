/**
 * The dependency-updates report: for every project artifact that is not
 * excluded, the newest version reachable by an incremental, a minor and a
 * major upgrade, each found in a range built from the current version, and
 * the decision whether the artifact is listed.
 */
module DependencyUpdatesReport {
  import opened Wrappers
  import opened Versions
  import opened Ranges
  import opened VersionDetails

  /** A project artifact: its coordinates, its key `getId()` and its parsed current version. */
  datatype Artifact = Artifact(groupId: string, artifactId: string, id: string, version: Version)

  datatype MultiVersionSummary = MultiVersionSummary(
    artifact: Artifact,
    currentVersion: Version,
    latestMajor: Option<Version>,
    latestMinor: Option<Version>,
    latestIncremental: Option<Version>)

  // ---------------------------------------------------------------------
  // The three ranges
  // ---------------------------------------------------------------------

  /** "[current,)" */
  function MajorRange(current: Version): VersionRange {
    Interval(Some(current), true, None, false)
  }

  /** The exclusive upper end of the minor range: (major+1).0.0 */
  function MinorCeiling(current: Version): Version {
    Release(current.major + 1, 0, 0)
  }

  /** "[current,(major+1).0.0)" */
  function MinorRange(current: Version): VersionRange {
    Interval(Some(current), true, Some(MinorCeiling(current)), false)
  }

  /** The exclusive upper end of the incremental range: major.(minor+1).0 */
  function IncrementalCeiling(current: Version): Version {
    Release(current.major, current.minor + 1, 0)
  }

  /** "[current,major.(minor+1).0)" */
  function IncrementalRange(current: Version): VersionRange {
    Interval(Some(current), true, Some(IncrementalCeiling(current)), false)
  }

  /**
   * What each range accepts: the current version is an inclusive lower bound
   * of all three; the major range has no upper bound; the minor range stops
   * before (major+1).0.0 and the incremental range before major.(minor+1).0.
   */
  lemma RangeMembership(cmp: Comparator, current: Version, v: Version)
    ensures RangeContains(cmp, MajorRange(current), v) <==> cmp(current, v) <= 0
    ensures RangeContains(cmp, MinorRange(current), v)
        <==> cmp(current, v) <= 0 && cmp(Release(current.major + 1, 0, 0), v) > 0
    ensures RangeContains(cmp, IncrementalRange(current), v)
        <==> cmp(current, v) <= 0 && cmp(Release(current.major, current.minor + 1, 0), v) > 0
  {
    IntervalContains(cmp, Some(current), true, None, false, v);
    IntervalContains(cmp, Some(current), true, Some(MinorCeiling(current)), false, v);
    IntervalContains(cmp, Some(current), true, Some(IncrementalCeiling(current)), false, v);
  }

  /**
   * The ranges nest: the incremental ceiling lies below the minor ceiling, so
   * whatever the incremental range accepts the minor range accepts, and
   * whatever the minor range accepts the major range accepts.
   */
  lemma RangesNest(cmp: Comparator, current: Version, v: Version)
    requires IsTotalPreorder(cmp) && OrdersReleasesNumerically(cmp)
    ensures cmp(IncrementalCeiling(current), MinorCeiling(current)) < 0
    ensures RangeContains(cmp, IncrementalRange(current), v) ==> RangeContains(cmp, MinorRange(current), v)
    ensures RangeContains(cmp, MinorRange(current), v) ==> RangeContains(cmp, MajorRange(current), v)
  {
    var inc, min := IncrementalCeiling(current), MinorCeiling(current);
    assert IsRelease(inc) && IsRelease(min) && NumericallyBelow(inc, min);
    RangeMembership(cmp, current, v);
    if RangeContains(cmp, IncrementalRange(current), v) {
      assert cmp(v, inc) < 0;
      LessThenAtMost(cmp, v, inc, min);
    }
  }

  // ---------------------------------------------------------------------
  // One artifact
  // ---------------------------------------------------------------------

  /**
   * The summary `generate` builds for one artifact whose versions, as the
   * repository lists them, are described by `d`: the newest version in each
   * of the three ranges, found as the updater's `findLatestVersion` does.
   */
  function Summarize(artifact: Artifact, d: Details, allowSnapshots: bool): MultiVersionSummary {
    var current := artifact.version;
    MultiVersionSummary(artifact, current,
                        GetNewestVersionInRange(d, MajorRange(current), allowSnapshots),
                        GetNewestVersionInRange(d, MinorRange(current), allowSnapshots),
                        GetNewestVersionInRange(d, IncrementalRange(current), allowSnapshots))
  }

  /** A version the comparator cannot decompose: its string form is all qualifier. */
  predicate NotUnderstood(v: Version) {
    v.qualifier == Some(v.text)
  }

  predicate NewerThan(cmp: Comparator, current: Version, candidate: Option<Version>) {
    candidate.Some? && cmp(current, candidate.value) < 0
  }

  /** `hasUpdates`: show-all, then the safety net for versions not understood, then the three candidates. */
  function HasUpdates(showAll: bool, cmp: Comparator, summary: MultiVersionSummary): (r: bool)
    ensures showAll ==> r
    ensures NotUnderstood(summary.currentVersion) ==> r
    ensures !showAll && !NotUnderstood(summary.currentVersion) ==>
      (r <==> || NewerThan(cmp, summary.currentVersion, summary.latestIncremental)
              || NewerThan(cmp, summary.currentVersion, summary.latestMinor)
              || NewerThan(cmp, summary.currentVersion, summary.latestMajor))
    ensures summary.latestIncremental.None? && summary.latestMinor.None? && summary.latestMajor.None? ==>
      (r <==> showAll || NotUnderstood(summary.currentVersion))
  {
    var current := summary.currentVersion;
    if showAll then true
    else if current.qualifier.Some? && current.text == current.qualifier.value then true
    else if summary.latestIncremental.Some? && cmp(current, summary.latestIncremental.value) < 0 then true
    else if summary.latestMinor.Some? && cmp(current, summary.latestMinor.value) < 0 then true
    else if summary.latestMajor.Some? && cmp(current, summary.latestMajor.value) < 0 then true
    else false
  }

  /** `isExcluded`: a null or empty list excludes nothing; otherwise "groupId:artifactId" must be listed. */
  function IsExcluded(excludes: Option<seq<string>>, artifact: Artifact): (r: bool)
    ensures r <==> excludes.Some? && artifact.groupId + ":" + artifact.artifactId in excludes.value
    ensures excludes.None? || excludes == Some([]) ==> !r
  {
    if excludes.None? || |excludes.value| == 0 then false
    else
      var candidate := artifact.groupId + ":" + artifact.artifactId;
      candidate in excludes.value
  }

  /**
   * What `generate` records for one artifact: nothing when it is excluded or
   * when retrieving its versions failed (the failure is logged and skipped),
   * otherwise its summary when `hasUpdates` holds.
   */
  function Entry(artifact: Artifact, metadata: Option<seq<Version>>, excludes: Option<seq<string>>,
                 showAll: bool, allowSnapshots: bool, cmp: Comparator): Option<MultiVersionSummary>
  {
    if IsExcluded(excludes, artifact) then None
    else match metadata
      case None => None
      case Some(available) =>
        var summary := Summarize(artifact, FromMetadata(available, cmp, allowSnapshots), allowSnapshots);
        if HasUpdates(showAll, cmp, summary) then Some(summary) else None
  }

  /**
   * Excluded artifacts never enter the report, not even with show-all; an
   * artifact that is not excluded and whose versions were retrieved enters
   * exactly when `hasUpdates` holds, which show-all forces.
   */
  lemma EntryRule(artifact: Artifact, metadata: Option<seq<Version>>, excludes: Option<seq<string>>,
                  showAll: bool, allowSnapshots: bool, cmp: Comparator)
    ensures IsExcluded(excludes, artifact) ==> Entry(artifact, metadata, excludes, showAll, allowSnapshots, cmp).None?
    ensures !IsExcluded(excludes, artifact) && metadata.Some? ==>
      (Entry(artifact, metadata, excludes, showAll, allowSnapshots, cmp).Some?
       <==> HasUpdates(showAll, cmp, Summarize(artifact, FromMetadata(metadata.value, cmp, allowSnapshots), allowSnapshots)))
    ensures !IsExcluded(excludes, artifact) && metadata.Some? && showAll ==>
      Entry(artifact, metadata, excludes, showAll, allowSnapshots, cmp)
        == Some(Summarize(artifact, FromMetadata(metadata.value, cmp, allowSnapshots), allowSnapshots))
  {
  }

  /**
   * The three candidates are ordered: latest incremental, when there is one,
   * is not newer than latest minor, which is not newer than latest major; and
   * each is at least the current version.
   */
  lemma {:induction false} CandidatesOrdered(artifact: Artifact, d: Details, allowSnapshots: bool)
    requires Valid(d) && OrdersReleasesNumerically(d.comparator)
    ensures var s := Summarize(artifact, d, allowSnapshots); var cmp := d.comparator;
      && (s.latestIncremental.Some? ==>
            s.latestMinor.Some? && cmp(s.latestIncremental.value, s.latestMinor.value) <= 0)
      && (s.latestMinor.Some? ==> s.latestMajor.Some? && cmp(s.latestMinor.value, s.latestMajor.value) <= 0)
      && (s.latestMajor.Some? ==> cmp(s.currentVersion, s.latestMajor.value) <= 0)
  {
    var current := artifact.version;
    var cmp := d.comparator;
    var pInc := InRange(cmp, IncrementalRange(current), allowSnapshots);
    var pMin := InRange(cmp, MinorRange(current), allowSnapshots);
    var pMaj := InRange(cmp, MajorRange(current), allowSnapshots);
    forall v | v in d.versions && pInc(v) ensures pMin(v) { RangesNest(cmp, current, v); }
    forall v | v in d.versions && pMin(v) ensures pMaj(v) { RangesNest(cmp, current, v); }
    NarrowerSelectionNotNewer(cmp, d.versions, pInc, pMin);
    NarrowerSelectionNotNewer(cmp, d.versions, pMin, pMaj);
    var major := GetNewestVersionInRange(d, MajorRange(current), allowSnapshots);
    if major.Some? {
      RangeMembership(cmp, current, major.value);
    }
  }

  /**
   * For an understood version and without show-all, `hasUpdates` holds
   * exactly when the latest major candidate is newer than the current
   * version: the incremental and minor candidates never decide on their own.
   */
  lemma {:induction false} HasUpdatesIffMajorNewer(artifact: Artifact, d: Details, allowSnapshots: bool,
                                                   showAll: bool)
    requires Valid(d) && OrdersReleasesNumerically(d.comparator)
    requires !showAll && !NotUnderstood(artifact.version)
    ensures var s := Summarize(artifact, d, allowSnapshots);
      HasUpdates(showAll, d.comparator, s) <==> NewerThan(d.comparator, s.currentVersion, s.latestMajor)
  {
    var cmp := d.comparator;
    var s := Summarize(artifact, d, allowSnapshots);
    CandidatesOrdered(artifact, d, allowSnapshots);
    var current := s.currentVersion;
    if NewerThan(cmp, current, s.latestIncremental) {
      LessThenAtMost(cmp, current, s.latestIncremental.value, s.latestMinor.value);
      LessThenAtMost(cmp, current, s.latestMinor.value, s.latestMajor.value);
    }
    if NewerThan(cmp, current, s.latestMinor) {
      LessThenAtMost(cmp, current, s.latestMinor.value, s.latestMajor.value);
    }
  }

  // ---------------------------------------------------------------------
  // The report over all artifacts
  // ---------------------------------------------------------------------

  /**
   * The map `generate` fills, from the outcome `entry` gives each artifact:
   * artifacts are visited in order and a later artifact with the same id
   * replaces an earlier one.
   */
  function Collect(artifacts: seq<Artifact>, entry: Artifact -> Option<MultiVersionSummary>)
    : (report: map<string, MultiVersionSummary>)
    decreases |artifacts|
  {
    if |artifacts| == 0 then map[]
    else
      var last := artifacts[|artifacts| - 1];
      var before := Collect(artifacts[..|artifacts| - 1], entry);
      match entry(last)
      case None => before
      case Some(summary) => before[last.id := summary]
  }

  /** An id is reported exactly when some artifact with that id is kept. */
  lemma {:induction false} CollectMembership(artifacts: seq<Artifact>, entry: Artifact -> Option<MultiVersionSummary>, id: string)
    ensures id in Collect(artifacts, entry) <==>
      exists i :: 0 <= i < |artifacts| && artifacts[i].id == id && entry(artifacts[i]).Some?
    decreases |artifacts|
  {
    if |artifacts| > 0 {
      var init := artifacts[..|artifacts| - 1];
      CollectMembership(init, entry, id);
      assert forall i :: 0 <= i < |init| ==> artifacts[i] == init[i];
    }
  }

  /**
   * The summary reported under an id is the one of the last kept artifact
   * with that id.
   */
  lemma {:induction false} CollectLastWins(artifacts: seq<Artifact>, entry: Artifact -> Option<MultiVersionSummary>, i: nat)
    requires i < |artifacts| && entry(artifacts[i]).Some?
    requires forall j :: i < j < |artifacts| && artifacts[j].id == artifacts[i].id ==> entry(artifacts[j]).None?
    ensures artifacts[i].id in Collect(artifacts, entry)
    ensures Collect(artifacts, entry)[artifacts[i].id] == entry(artifacts[i]).value
    decreases |artifacts|
  {
    var init := artifacts[..|artifacts| - 1];
    if i < |artifacts| - 1 {
      assert forall j :: i < j < |init| ==> init[j] == artifacts[j];
      CollectLastWins(init, entry, i);
    }
  }

  /** The outcome of one artifact under the report's configuration. */
  function EntryOf(metadata: Artifact -> Option<seq<Version>>, excludes: Option<seq<string>>, showAll: bool,
                   allowSnapshots: bool, cmp: Comparator): Artifact -> Option<MultiVersionSummary>
  {
    (a: Artifact) => Entry(a, metadata(a), excludes, showAll, allowSnapshots, cmp)
  }

  /**
   * `generate`: walks the project's artifacts and records, under each
   * artifact's id, the summary of every artifact `Entry` keeps.
   */
  method Generate(artifacts: seq<Artifact>, metadata: Artifact -> Option<seq<Version>>,
                  excludes: Option<seq<string>>, showAll: bool, allowSnapshots: bool, cmp: Comparator)
    returns (report: map<string, MultiVersionSummary>)
    ensures report == Collect(artifacts, EntryOf(metadata, excludes, showAll, allowSnapshots, cmp))
  {
    ghost var entry := EntryOf(metadata, excludes, showAll, allowSnapshots, cmp);
    report := map[];
    var k := 0;
    while k < |artifacts|
      invariant 0 <= k <= |artifacts|
      invariant report == Collect(artifacts[..k], entry)
    {
      var artifact := artifacts[k];
      var currentVersion := artifact.version;
      assert artifacts[..k + 1][..k] == artifacts[..k];
      if !IsExcluded(excludes, artifact) {
        match metadata(artifact) {
          case None =>
            // retrieval failed: a warning is logged and the artifact skipped
          case Some(available) =>
            var d := FromMetadata(available, cmp, allowSnapshots);
            var latestMajor := GetNewestVersionInRange(d, MajorRange(currentVersion), allowSnapshots);
            var latestMinor := GetNewestVersionInRange(d, MinorRange(currentVersion), allowSnapshots);
            var latestIncremental := GetNewestVersionInRange(d, IncrementalRange(currentVersion), allowSnapshots);
            var summary := MultiVersionSummary(artifact, currentVersion, latestMajor, latestMinor, latestIncremental);
            if HasUpdates(showAll, cmp, summary) {
              report := report[artifact.id := summary];
            }
        }
      }
      k := k + 1;
    }
    assert artifacts[..k] == artifacts;
  }
}
