// The `display-property-updates` goal: for every version property of the
// project, pick the newest acceptable version from the repository, let the
// reactor's own modules compete with it, and report whether the property
// would change.

module PropertyUpdates {
  import opened Wrappers
  import opened Versions
  import opened Ranges
  import opened VersionDetails

  /** The outcome of parsing a property's version range specification. */
  datatype RangeSpec = Parsed(range: VersionRange) | Unparseable(message: string)

  /**
   * A version property as configured: its name, its optional range
   * specification (already run through the range parser) and its flags.
   */
  datatype Property = Property(name: string, version: Option<RangeSpec>, banSnapshots: bool,
                               searchReactor: bool, preferReactor: bool)

  /**
   * What the helper knows about a property: the versions available from the
   * repository, and those the modules of the reactor provide.
   */
  datatype PropertyVersions = PropertyVersions(details: Details, reactorVersions: seq<Version>)

  /** One line of output: the property keeps its value, or would move to `newVersion`. */
  datatype Report =
    | NoChange(name: string, current: string)
    | Change(name: string, current: string, newVersion: Version)

  /** Snapshots are considered only if the property allows them and the goal's flag is exactly TRUE. */
  predicate IncludeSnapshots(property: Property, allowSnapshots: Option<bool>) {
    !property.banSnapshots && allowSnapshots == Some(true)
  }

  /** The range a property's versions are restricted to; `None` accepts everything. */
  function RangeOf(property: Property): Option<VersionRange> {
    match property.version
    case Some(Parsed(range)) => Some(range)
    case _ => None
  }

  predicate Accepts(cmp: Comparator, range: Option<VersionRange>, v: Version) {
    range.None? || RangeContains(cmp, range.value, v)
  }

  function AcceptedBy(cmp: Comparator, range: Option<VersionRange>): Version -> bool {
    (v: Version) => Accepts(cmp, range, v)
  }

  // ---------------------------------------------------------------------
  // Specification of the two scans and of the precedence rule
  // ---------------------------------------------------------------------

  /**
   * The repository's candidate: the last accepted version of the list, unless
   * it is the current value, in which case there is no newer version.
   */
  function RepositoryWinner(vs: seq<Version>, cmp: Comparator, range: Option<VersionRange>, current: string)
    : (winner: Option<Version>)
    ensures winner.Some? ==> winner.value in vs && Accepts(cmp, range, winner.value) && winner.value.text != current
  {
    match Last(Select(vs, AcceptedBy(cmp, range)))
    case None => None
    case Some(v) => if v.text == current then None else Some(v)
  }

  /** The reactor's candidate: the last accepted reactor version. */
  function ReactorCandidate(reactorVersions: seq<Version>, cmp: Comparator, range: Option<VersionRange>)
    : (fromReactor: Option<Version>)
    ensures fromReactor.Some? ==> fromReactor.value in reactorVersions && Accepts(cmp, range, fromReactor.value)
    ensures fromReactor.Some? ==>
      exists i :: 0 <= i < |reactorVersions| && reactorVersions[i] == fromReactor.value &&
        forall j :: i < j < |reactorVersions| ==> !Accepts(cmp, range, reactorVersions[j])
    ensures fromReactor.None? <==> forall v :: v in reactorVersions ==> !Accepts(cmp, range, v)
  {
    LastSelected(reactorVersions, AcceptedBy(cmp, range));
    Last(Select(reactorVersions, AcceptedBy(cmp, range)))
  }

  /** The reactor's candidate competes unless it is absent, or there is no winner and it is the current value. */
  predicate MergeApplies(winner: Option<Version>, fromReactor: Option<Version>, current: string) {
    fromReactor.Some? && (winner.Some? || fromReactor.value.text != current)
  }

  /**
   * The precedence between the repository's winner and the reactor's
   * candidate.
   */
  function ReactorPrecedence(winner: Option<Version>, fromReactor: Option<Version>, current: string,
                             preferReactor: bool, cmp: Comparator): (r: Option<Version>)
    ensures r == winner || r == fromReactor
    ensures !MergeApplies(winner, fromReactor, current) ==> r == winner
    ensures MergeApplies(winner, fromReactor, current) && (preferReactor || winner.None?) ==> r == fromReactor
    ensures MergeApplies(winner, fromReactor, current) && !preferReactor && winner.Some? ==>
      (r == fromReactor <==> cmp(winner.value, fromReactor.value) < 0 || winner == fromReactor)
  {
    if !MergeApplies(winner, fromReactor, current) then winner
    else if preferReactor then fromReactor
    else if winner.None? then fromReactor
    else if cmp(winner.value, fromReactor.value) < 0 then fromReactor
    else winner
  }

  /** The winner once the reactor has been consulted (if the property asks for it). */
  function FinalWinner(property: Property, versions: PropertyVersions, allowSnapshots: Option<bool>, current: string)
    : Option<Version>
  {
    var cmp := versions.details.comparator;
    var range := RangeOf(property);
    var winner := RepositoryWinner(GetVersions(versions.details, IncludeSnapshots(property, allowSnapshots)),
                                   cmp, range, current);
    if property.searchReactor then
      ReactorPrecedence(winner, ReactorCandidate(versions.reactorVersions, cmp, range), current,
                        property.preferReactor, cmp)
    else winner
  }

  /**
   * What the goal does for one property: abort on a range it cannot parse,
   * skip a property the project does not define, otherwise report the change
   * to the final winner, if there is one and it differs from the current value.
   */
  function Evaluate(property: Property, versions: PropertyVersions, allowSnapshots: Option<bool>,
                    current: Option<string>): (r: Result<Option<Report>, string>)
    ensures r.Failure? <==> property.version.Some? && property.version.value.Unparseable?
    ensures r == Success(None) <==> !r.Failure? && current.None?
    ensures r.Success? && r.value.Some? ==> r.value.value.name == property.name && current == Some(r.value.value.current)
    ensures r.Success? && r.value.Some? && r.value.value.Change? ==>
      var v := r.value.value.newVersion;
      && v.text != current.value
      && Accepts(versions.details.comparator, RangeOf(property), v)
      && ((v in versions.details.versions && (IncludeSnapshots(property, allowSnapshots) || !v.snapshot))
          || (property.searchReactor && v in versions.reactorVersions))
  {
    match property.version
    case Some(Unparseable(message)) => Failure(message)
    case _ =>
      if current.None? then Success(None)
      else
        var winner := FinalWinner(property, versions, allowSnapshots, current.value);
        if winner.None? || winner.value.text == current.value then Success(Some(NoChange(property.name, current.value)))
        else Success(Some(Change(property.name, current.value, winner.value)))
  }

  // ---------------------------------------------------------------------
  // Properties of the specification
  // ---------------------------------------------------------------------

  /**
   * Without a range the repository's candidate is the newest version of the
   * snapshot-filtered list; with one it is the newest version in that range.
   */
  lemma ScanIsNewestInRange(d: Details, range: Option<VersionRange>, includeSnapshots: bool, current: string)
    ensures var newest := if range.None? then Last(GetVersions(d, includeSnapshots))
                          else GetNewestVersionInRange(d, range.value, includeSnapshots);
      RepositoryWinner(GetVersions(d, includeSnapshots), d.comparator, range, current)
        == if newest.Some? && newest.value.text != current then newest else None
  {
    var accept := AcceptedBy(d.comparator, range);
    var snaps := SnapshotPolicy(includeSnapshots);
    if range.None? {
      SelectAll(GetVersions(d, includeSnapshots), accept);
    } else {
      SelectSelect(d.versions, snaps, accept, InRange(d.comparator, range.value, includeSnapshots));
    }
  }

  /** With the preference set, a reactor candidate that competes always wins, even an older one. */
  lemma PreferReactorWins(winner: Option<Version>, fromReactor: Option<Version>, current: string, cmp: Comparator)
    requires MergeApplies(winner, fromReactor, current)
    ensures ReactorPrecedence(winner, fromReactor, current, true, cmp) == fromReactor
  {
  }

  /**
   * Without the preference the result is the greater of the two candidates:
   * nothing is downgraded, and a tie keeps the repository's winner.
   */
  lemma NewerCandidateWins(winner: Option<Version>, fromReactor: Option<Version>, current: string, cmp: Comparator)
    requires IsTotalPreorder(cmp)
    ensures var r := ReactorPrecedence(winner, fromReactor, current, false, cmp);
      && (winner.Some? ==> r.Some? && cmp(winner.value, r.value) <= 0)
      && (MergeApplies(winner, fromReactor, current) ==> r.Some? && cmp(fromReactor.value, r.value) <= 0)
      && (winner.Some? && fromReactor.Some? && cmp(winner.value, fromReactor.value) == 0 ==> r == winner)
  {
  }

  /** Without the reactor the report proposes exactly the newest acceptable version from the repository. */
  lemma WithoutReactorNewestWins(property: Property, versions: PropertyVersions, allowSnapshots: Option<bool>,
                                 current: string)
    requires property.version.Some? ==> property.version.value.Parsed?
    requires !property.searchReactor
    ensures var d := versions.details;
      var snaps := IncludeSnapshots(property, allowSnapshots);
      var newest := if property.version.None? then Last(GetVersions(d, snaps))
                    else GetNewestVersionInRange(d, property.version.value.range, snaps);
      Evaluate(property, versions, allowSnapshots, Some(current))
        == Success(Some(if newest.Some? && newest.value.text != current then Change(property.name, current, newest.value)
                        else NoChange(property.name, current)))
  {
    ScanIsNewestInRange(versions.details, RangeOf(property), IncludeSnapshots(property, allowSnapshots), current);
  }

  /**
   * With the reactor searched, the report proposes the precedence winner between the
   * newest acceptable repository version (unless it is the current value) and the last
   * accepted reactor version, whenever that winner differs from the current value.
   */
  lemma WithReactorPrecedenceWins(property: Property, versions: PropertyVersions, allowSnapshots: Option<bool>,
                                  current: string)
    requires property.version.Some? ==> property.version.value.Parsed?
    requires property.searchReactor
    ensures var d := versions.details;
      var snaps := IncludeSnapshots(property, allowSnapshots);
      var newest := if property.version.None? then Last(GetVersions(d, snaps))
                    else GetNewestVersionInRange(d, property.version.value.range, snaps);
      var fromRepository := if newest.Some? && newest.value.text != current then newest else None;
      var fromReactor := ReactorCandidate(versions.reactorVersions, d.comparator, RangeOf(property));
      var w := ReactorPrecedence(fromRepository, fromReactor, current, property.preferReactor, d.comparator);
      Evaluate(property, versions, allowSnapshots, Some(current))
        == Success(Some(if w.Some? && w.value.text != current then Change(property.name, current, w.value)
                        else NoChange(property.name, current)))
  {
    var d := versions.details;
    var snaps := IncludeSnapshots(property, allowSnapshots);
    var range := RangeOf(property);
    ScanIsNewestInRange(d, range, snaps, current);
    var fromRepository := RepositoryWinner(GetVersions(d, snaps), d.comparator, range, current);
    var fromReactor := ReactorCandidate(versions.reactorVersions, d.comparator, range);
    var w := ReactorPrecedence(fromRepository, fromReactor, current, property.preferReactor, d.comparator);
    assert FinalWinner(property, versions, allowSnapshots, current) == w;
  }

  // ---------------------------------------------------------------------
  // The goal, as the loops of `execute`
  // ---------------------------------------------------------------------

  /** The backward scan over the available versions, stopping at the first accepted one. */
  method ScanRepository(vs: seq<Version>, cmp: Comparator, range: Option<VersionRange>, current: string)
    returns (winner: Option<Version>)
    ensures winner == RepositoryWinner(vs, cmp, range, current)
  {
    ghost var accept := AcceptedBy(cmp, range);
    winner := None;
    var j := |vs| - 1;
    assert vs[..j + 1] == vs;
    while j >= 0
      invariant -1 <= j < |vs|
      invariant Select(vs, accept) == Select(vs[..j + 1], accept)
    {
      assert vs[..j + 1][..j] == vs[..j];
      if Accepts(cmp, range, vs[j]) {
        assert Select(vs, accept) == Select(vs[..j], accept) + [vs[j]];
        if current == vs[j].text {
          break;
        }
        winner := Some(vs[j]);
        break;
      }
      assert Select(vs, accept) == Select(vs[..j], accept) + [];
      j := j - 1;
    }
    assert j >= 0 || Select(vs, accept) == [];
  }

  /** The backward scan over the reactor's versions. */
  method ScanReactor(reactorVersions: seq<Version>, cmp: Comparator, range: Option<VersionRange>)
    returns (fromReactor: Option<Version>)
    ensures fromReactor == ReactorCandidate(reactorVersions, cmp, range)
  {
    ghost var accept := AcceptedBy(cmp, range);
    fromReactor := None;
    if |reactorVersions| > 0 {
      var j := |reactorVersions| - 1;
      assert reactorVersions[..j + 1] == reactorVersions;
      while j >= 0
        invariant -1 <= j < |reactorVersions|
        invariant Select(reactorVersions, accept) == Select(reactorVersions[..j + 1], accept)
      {
        assert reactorVersions[..j + 1][..j] == reactorVersions[..j];
        if Accepts(cmp, range, reactorVersions[j]) {
          fromReactor := Some(reactorVersions[j]);
          break;
        }
        j := j - 1;
      }
    }
  }

  /** The body of `execute`'s loop, for one property. */
  method EvaluateProperty(property: Property, versions: PropertyVersions, allowSnapshots: Option<bool>,
                          current: Option<string>)
    returns (result: Result<Option<Report>, string>)
    ensures result == Evaluate(property, versions, allowSnapshots, current)
  {
    var cmp := versions.details.comparator;
    var includeSnapshots := !property.banSnapshots && allowSnapshots == Some(true);
    var artifactVersions := GetVersions(versions.details, includeSnapshots);
    var range: Option<VersionRange>;
    match property.version {
      case None => range := None;
      case Some(Parsed(r)) => range := Some(r);
      case Some(Unparseable(message)) => return Failure(message);
    }
    if current.None? {
      return Success(None);
    }
    var currentVersion := current.value;
    assert range == RangeOf(property);
    var winner := ScanRepository(artifactVersions, cmp, range, currentVersion);
    ghost var repositoryWinner := winner;
    if property.searchReactor {
      var fromReactor := ScanReactor(versions.reactorVersions, cmp, range);
      if fromReactor.Some? && (winner.Some? || currentVersion != fromReactor.value.text) {
        if property.preferReactor {
          winner := fromReactor;
        } else {
          if winner.None? {
            winner := fromReactor;
          } else if cmp(winner.value, fromReactor.value) < 0 {
            winner := fromReactor;
          }
        }
      }
      assert winner == ReactorPrecedence(repositoryWinner, fromReactor, currentVersion, property.preferReactor, cmp);
    }
    assert winner == FinalWinner(property, versions, allowSnapshots, currentVersion);
    if winner.None? || currentVersion == winner.value.text {
      result := Success(Some(NoChange(property.name, currentVersion)));
    } else {
      result := Success(Some(Change(property.name, currentVersion, winner.value)));
    }
  }

  /** A configured property, what is known about its versions, and its current value in the project. */
  datatype Entry = Entry(property: Property, versions: PropertyVersions)

  /**
   * The whole goal over the properties in iteration order: the reports of the
   * properties that are defined, or the first range error.
   */
  function Run(entries: seq<Entry>, allowSnapshots: Option<bool>, projectProperties: map<string, string>)
    : Result<seq<Report>, string>
    decreases |entries|
  {
    if |entries| == 0 then Success([])
    else
      match Run(entries[..|entries| - 1], allowSnapshots, projectProperties)
      case Failure(message) => Failure(message)
      case Success(reports) =>
        var e := entries[|entries| - 1];
        match Evaluate(e.property, e.versions, allowSnapshots, Lookup(projectProperties, e.property.name))
        case Failure(message) => Failure(message)
        case Success(None) => Success(reports)
        case Success(Some(report)) => Success(reports + [report])
  }

  /** `getProperty(name)`: the value, or `None` (Java's `null`) for an undefined property. */
  function Lookup(properties: map<string, string>, name: string): Option<string> {
    if name in properties then Some(properties[name]) else None
  }

  /**
   * The goal aborts exactly when some property's range cannot be parsed,
   * whether or not the project defines that property.
   */
  lemma {:induction false} RunFailsIffInvalidRange(entries: seq<Entry>, allowSnapshots: Option<bool>,
                                                   projectProperties: map<string, string>)
    ensures Run(entries, allowSnapshots, projectProperties).Failure? <==>
      exists i :: 0 <= i < |entries| && entries[i].property.version.Some? && entries[i].property.version.value.Unparseable?
    decreases |entries|
  {
    if |entries| > 0 {
      var init := entries[..|entries| - 1];
      RunFailsIffInvalidRange(init, allowSnapshots, projectProperties);
      assert forall i :: 0 <= i < |init| ==> init[i] == entries[i];
    }
  }

  /** Every report names a property that the project defines, with its current value. */
  lemma {:induction false} ReportsAreDefinedProperties(entries: seq<Entry>, allowSnapshots: Option<bool>,
                                                       projectProperties: map<string, string>)
    ensures var r := Run(entries, allowSnapshots, projectProperties);
      r.Success? ==>
        && |r.value| <= |entries|
        && forall report :: report in r.value ==>
             report.name in projectProperties && projectProperties[report.name] == report.current
    decreases |entries|
  {
    if |entries| > 0 {
      ReportsAreDefinedProperties(entries[..|entries| - 1], allowSnapshots, projectProperties);
    }
  }

  lemma {:induction false} RunFailurePersists(entries: seq<Entry>, k: nat, allowSnapshots: Option<bool>,
                                             projectProperties: map<string, string>)
    requires k <= |entries|
    requires Run(entries[..k], allowSnapshots, projectProperties).Failure?
    ensures Run(entries, allowSnapshots, projectProperties) == Run(entries[..k], allowSnapshots, projectProperties)
    decreases |entries| - k
  {
    if k < |entries| {
      assert entries[..k + 1][..k] == entries[..k];
      RunFailurePersists(entries, k + 1, allowSnapshots, projectProperties);
    } else {
      assert entries[..k] == entries;
    }
  }

  /** `execute`: evaluates the properties in order, stopping at the first range error. */
  method Execute(entries: seq<Entry>, allowSnapshots: Option<bool>, projectProperties: map<string, string>)
    returns (result: Result<seq<Report>, string>)
    ensures result == Run(entries, allowSnapshots, projectProperties)
  {
    var reports: seq<Report> := [];
    var k := 0;
    while k < |entries|
      invariant 0 <= k <= |entries|
      invariant Run(entries[..k], allowSnapshots, projectProperties) == Success(reports)
    {
      var e := entries[k];
      assert entries[..k + 1][..k] == entries[..k];
      var current := Lookup(projectProperties, e.property.name);
      var outcome := EvaluateProperty(e.property, e.versions, allowSnapshots, current);
      match outcome {
        case Failure(message) =>
          RunFailurePersists(entries, k + 1, allowSnapshots, projectProperties);
          return Failure(message);
        case Success(None) =>
        case Success(Some(report)) =>
          reports := reports + [report];
      }
      k := k + 1;
    }
    assert entries[..k] == entries;
    result := Success(reports);
  }
}
