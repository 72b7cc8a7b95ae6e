# Version selection in versions-maven-plugin, modelled in Dafny

This project models how the versions-maven-plugin picks versions. It covers four parts of the plugin:

- **The `VersionDetails` query contract** (`version_details.dfy`). The available versions of an artifact are kept in increasing order under the artifact's comparator. Queries filter them by snapshot policy, by a Maven version range, or by an optional lower and upper bound. Each bound is inclusive or exclusive, and an absent bound is no limit. On top of these lists sit the newest and oldest version of a selection. The list itself is built from the retrieved metadata the way a comparator-ordered set is built.
- **The dependency-updates report** (`dependency_updates_report.dfy`):
  - the three ranges built from an artifact's current version: major `[cur,)`, minor `[cur,(M+1).0.0)` and incremental `[cur,M.(m+1).0)`;
  - `hasUpdates` and `isExcluded`;
  - the `generate` loop that fills the id-keyed map of summaries.
- **The `display-property-updates` goal** (`property_updates.dfy`):
  - the snapshot flag;
  - the backward scan for the newest version the property's range accepts;
  - the backward scan over the reactor's versions;
  - the precedence rule between the two candidates;
  - the change / no-change decision and the `execute` loop.
- **The `display-dependency-updates` goal** (`dependency_updates.dfy`):
  - the comparator on (groupId, artifactId, version) and the `TreeSet` it orders, as a class;
  - the "strictly newer" update test;
  - the dot-padded update line;
  - the closing log lines.

Shared modules:
- `versions.dfy`: the `Version` value and the comparator, which is a function value assumed to be a total preorder wherever the plugin relies on that.
- `ranges.dfy`: Maven version ranges, as a list of restrictions.
- `wrappers.dfy`: `Option` and `Result`.

Java's `null` is `None`. An exception that aborts a goal is a `Failure`. Repository lookups are parameters of the model: they are I/O.

Each imperative loop of the source is a `method` proved equal to a specification function:
- `generate`, `execute` and the property scans are `while` loops over sequences;
- the `TreeSet` is a class whose `Add` walks its ascending contents;
- the padding loop grows a buffer.

The properties the plugin promises are proved as lemmas about those functions.

Consider a current version whose numeric parts Maven cannot read, so that its whole string is its qualifier. The report still builds all three ranges from `getMajorVersion()` and `getMinorVersion()`, which are 0 for such a version (DisplayDependencyUpdatesReport.java:94-107). The model does the same, with `major` and `minor` being 0. `hasUpdates` then answers true through its "not understood" test (DisplayDependencyUpdatesReport.java:163-168), and the artifact is recorded. In the plugin that happens only when Maven orders the version below both ceilings, `1.0.0` and `0.1.0`. Otherwise, for example for "1.2.3.4", building the range `[1.2.3.4,1.0.0)` fails with "range defies version ordering". The catch around the artifact then drops it. The model does not capture that drop (see "Left out").

## Model

| member | source | states |
|---|---|---|
| VersionDetails.SortDistinct | src/main/java/org/codehaus/mojo/versions/api/VersionDetails.java:55-64 | the list built from retrieved versions is strictly increasing under a total preorder, holds only retrieved versions, and keeps every retrieved version or one comparing equal to it |
| VersionDetails.InsertAscending | src/main/java/org/codehaus/mojo/versions/api/VersionDetails.java:55-64 | adding a version to an ascending list the way an ordered set does keeps it strictly increasing |
| VersionDetails.FromMetadata | src/main/java/org/codehaus/mojo/versions/api/VersionDetails.java:55-64 | details built from metadata carry the given comparator and snapshot policy and, for a total preorder, an ascending list |
| VersionDetails.GetAllVersions | src/main/java/org/codehaus/mojo/versions/api/VersionDetails.java:55-64 | `getVersions()` lists exactly the available versions, in increasing order |
| VersionDetails.AllVersionsFromMetadata | src/main/java/org/codehaus/mojo/versions/api/VersionDetails.java:55-64 | read from metadata, `getVersions()` is strictly increasing and represents every retrieved version and nothing else |
| VersionDetails.ContainsVersion | src/main/java/org/codehaus/mojo/versions/api/VersionDetails.java:35-45 | `containsVersion(s)` holds exactly when some available version has the string form `s` |
| VersionDetails.GetVersions | src/main/java/org/codehaus/mojo/versions/api/VersionDetails.java:66-76 | exactly the available versions the snapshot policy admits, in increasing order |
| VersionDetails.GetVersionsInRange | src/main/java/org/codehaus/mojo/versions/api/VersionDetails.java:78-89 | exactly the admitted available versions the range contains, in increasing order |
| VersionDetails.GetVersionsBetween | src/main/java/org/codehaus/mojo/versions/api/VersionDetails.java:91-102 | exactly the versions strictly between the bounds (absent bound = no limit) under the details' own snapshot policy, in increasing order |
| VersionDetails.GetVersionsBetweenWithSnapshots | src/main/java/org/codehaus/mojo/versions/api/VersionDetails.java:104-116 | exactly the admitted versions strictly between the bounds, in increasing order |
| VersionDetails.GetVersionsInBounds | src/main/java/org/codehaus/mojo/versions/api/VersionDetails.java:118-133 | exactly the admitted versions meeting each present bound with its own inclusivity, in increasing order |
| VersionDetails.ExclusiveBoundsExcludeThemselves | src/main/java/org/codehaus/mojo/versions/api/VersionDetails.java:118-133 | an exclusive bound never appears in the bounded list; an inclusive one equal on both sides does when available and admitted |
| VersionDetails.GetNewestVersionBetween | src/main/java/org/codehaus/mojo/versions/api/VersionDetails.java:135-147 | the result lies strictly between the bounds, is absent iff no admitted version does, and is the greatest such version |
| VersionDetails.GetNewestVersionBetweenWithSnapshots | src/main/java/org/codehaus/mojo/versions/api/VersionDetails.java:149-162 | as above with an explicit snapshot policy |
| VersionDetails.GetNewestVersionInBounds | src/main/java/org/codehaus/mojo/versions/api/VersionDetails.java:164-180 | absent iff the bounded list is empty; otherwise a member of it that no member exceeds |
| VersionDetails.GetNewestVersionInRange | src/main/java/org/codehaus/mojo/versions/api/VersionDetails.java:182-194 | absent iff no admitted version is in the range; otherwise the greatest one |
| VersionDetails.GetOldestVersionBetween | src/main/java/org/codehaus/mojo/versions/api/VersionDetails.java:196-208 | the result lies strictly between the bounds, is absent iff no admitted version does, and is the least such version |
| VersionDetails.GetOldestVersionInRange | src/main/java/org/codehaus/mojo/versions/api/VersionDetails.java:210-221 | absent iff no admitted version is in the range; otherwise the least one |
| VersionDetails.GetOldestVersionBetweenWithSnapshots | src/main/java/org/codehaus/mojo/versions/api/VersionDetails.java:223-236 | as the two-bound oldest query with an explicit snapshot policy |
| VersionDetails.GetOldestVersionInBounds | src/main/java/org/codehaus/mojo/versions/api/VersionDetails.java:238-253 | absent iff the bounded list is empty; otherwise a member of it that exceeds no member |
| VersionDetails.OldestNotAfterNewest | src/main/java/org/codehaus/mojo/versions/api/VersionDetails.java:238-253 | oldest and newest of one selection exist together, oldest ≤ newest, and they coincide when one version is in bounds |
| VersionDetails.BetweenQueriesStayStrictlyInside | src/main/java/org/codehaus/mojo/versions/api/VersionDetails.java:135-147 | the two-bound newest and oldest are newer than the lower bound and less than the upper bound |
| VersionDetails.NarrowerSelectionNotNewer | src/main/java/org/codehaus/mojo/versions/api/VersionDetails.java:164-194 | the newest version of a narrower selection of an ascending list is not newer than that of a wider one |
| DependencyUpdatesReport.RangeMembership | src/main/java/org/codehaus/mojo/versions/DisplayDependencyUpdatesReport.java:92-107 | major accepts v iff current ≤ v; minor iff also v < (M+1).0.0; incremental iff also v < M.(m+1).0 |
| DependencyUpdatesReport.RangesNest | src/main/java/org/codehaus/mojo/versions/DisplayDependencyUpdatesReport.java:92-107 | the incremental ceiling is below the minor ceiling, so incremental ⊆ minor ⊆ major |
| DependencyUpdatesReport.CandidatesOrdered | src/main/java/org/codehaus/mojo/versions/DisplayDependencyUpdatesReport.java:92-111 | latest incremental ≤ latest minor ≤ latest major, each present when the narrower one is, and current ≤ latest major |
| DependencyUpdatesReport.HasUpdates | src/main/java/org/codehaus/mojo/versions/DisplayDependencyUpdatesReport.java:155-190 | true with show-all or a version not understood; otherwise true iff some present candidate is strictly newer; false with no candidates |
| DependencyUpdatesReport.HasUpdatesIffMajorNewer | src/main/java/org/codehaus/mojo/versions/DisplayDependencyUpdatesReport.java:155-190 | for an understood version without show-all, `hasUpdates` holds iff the latest major candidate is newer |
| DependencyUpdatesReport.IsExcluded | src/main/java/org/codehaus/mojo/versions/DisplayDependencyUpdatesReport.java:192-206 | excluded iff the list is present and contains "groupId:artifactId"; a null or empty list excludes nothing |
| DependencyUpdatesReport.EntryRule | src/main/java/org/codehaus/mojo/versions/DisplayDependencyUpdatesReport.java:81-115 | excluded artifacts never enter, even with show-all; others enter iff `hasUpdates`; show-all records the summary |
| DependencyUpdatesReport.CollectMembership | src/main/java/org/codehaus/mojo/versions/DisplayDependencyUpdatesReport.java:80-115 | an id is in the map iff some artifact with that id is kept |
| DependencyUpdatesReport.CollectLastWins | src/main/java/org/codehaus/mojo/versions/DisplayDependencyUpdatesReport.java:109-115 | the summary under an id is that of the last kept artifact with the id |
| DependencyUpdatesReport.Generate | src/main/java/org/codehaus/mojo/versions/DisplayDependencyUpdatesReport.java:77-122 | the loop's map equals the fold of the per-artifact outcome over the artifacts |
| PropertyUpdates.RepositoryWinner | src/main/java/org/codehaus/mojo/versions/DisplayPropertyUpdatesMojo.java:132-146 | a winner is an available version the range accepts and differs from the current value |
| PropertyUpdates.ScanRepository | src/main/java/org/codehaus/mojo/versions/DisplayPropertyUpdatesMojo.java:132-146 | the backward scan with its breaks yields the last accepted version, or nothing when that one is the current value |
| PropertyUpdates.ScanIsNewestInRange | src/main/java/org/codehaus/mojo/versions/DisplayPropertyUpdatesMojo.java:104-146 | the scan's winner is the newest admitted version in the range (or overall, without a range), unless it is the current value |
| VersionDetails.LastSelected | src/main/java/org/codehaus/mojo/versions/DisplayPropertyUpdatesMojo.java:159-167 | the backward scan's pick is an element that no later element of the list satisfies the test after |
| PropertyUpdates.ReactorCandidate | src/main/java/org/codehaus/mojo/versions/DisplayPropertyUpdatesMojo.java:156-169 | the last reactor version the range accepts: no later reactor version is accepted; absent iff the range accepts none |
| PropertyUpdates.ScanReactor | src/main/java/org/codehaus/mojo/versions/DisplayPropertyUpdatesMojo.java:156-169 | the backward reactor scan yields the last accepted reactor version |
| PropertyUpdates.ReactorPrecedence | src/main/java/org/codehaus/mojo/versions/DisplayPropertyUpdatesMojo.java:170-196 | the result is one of the two candidates; unchanged when the merge does not apply; the reactor wins with the preference or with no winner; otherwise it wins iff strictly newer |
| PropertyUpdates.PreferReactorWins | src/main/java/org/codehaus/mojo/versions/DisplayPropertyUpdatesMojo.java:172-177 | with the preference a competing reactor version always wins, even an older one |
| PropertyUpdates.NewerCandidateWins | src/main/java/org/codehaus/mojo/versions/DisplayPropertyUpdatesMojo.java:178-195 | without the preference the result is the greater candidate: no downgrade, ties keep the repository winner |
| PropertyUpdates.Evaluate | src/main/java/org/codehaus/mojo/versions/DisplayPropertyUpdatesMojo.java:104-205 | abort iff the range is unparseable (before the current value is read); skip iff no current value; a proposed change differs from the current value, satisfies the range and comes from the admitted versions or the reactor |
| PropertyUpdates.WithoutReactorNewestWins | src/main/java/org/codehaus/mojo/versions/DisplayPropertyUpdatesMojo.java:127-205 | without reactor search a change is proposed iff the newest admitted in-range version differs from the current value, and it is that version |
| PropertyUpdates.WithReactorPrecedenceWins | src/main/java/org/codehaus/mojo/versions/DisplayPropertyUpdatesMojo.java:132-205 | with reactor search, the report is a change to the precedence winner between the newest acceptable repository version and the last accepted reactor version iff that winner differs from current |
| PropertyUpdates.EvaluateProperty | src/main/java/org/codehaus/mojo/versions/DisplayPropertyUpdatesMojo.java:99-205 | the loop body's reassignments of `winner` compute `Evaluate` |
| PropertyUpdates.RunFailsIffInvalidRange | src/main/java/org/codehaus/mojo/versions/DisplayPropertyUpdatesMojo.java:109-131 | the goal aborts iff some property's range cannot be parsed, defined or not |
| PropertyUpdates.ReportsAreDefinedProperties | src/main/java/org/codehaus/mojo/versions/DisplayPropertyUpdatesMojo.java:127-131 | every report line is about a property the project defines, with its current value |
| PropertyUpdates.Execute | src/main/java/org/codehaus/mojo/versions/DisplayPropertyUpdatesMojo.java:90-208 | the loop over the properties computes `Run`, stopping at the first range error |
| DependencyUpdates.CompareStrings | src/main/java/org/codehaus/mojo/versions/DisplayDependencyUpdatesMojo.java:64-82 | `compareTo` is zero exactly for equal strings |
| DependencyUpdates.CompareStringsAntisymmetric | src/main/java/org/codehaus/mojo/versions/DisplayDependencyUpdatesMojo.java:64-82 | swapping the strings negates `compareTo` |
| DependencyUpdates.CompareStringsTransitive | src/main/java/org/codehaus/mojo/versions/DisplayDependencyUpdatesMojo.java:64-82 | `compareTo` below zero is transitive |
| DependencyUpdates.CompareStringsIsLexicographic | src/main/java/org/codehaus/mojo/versions/DisplayDependencyUpdatesMojo.java:64-82 | `compareTo` is below zero iff the first string is a proper prefix or has the smaller character at the first difference |
| DependencyUpdates.CompareVersions | src/main/java/org/codehaus/mojo/versions/DisplayDependencyUpdatesMojo.java:71-82 | zero exactly for equal (or both absent) versions |
| DependencyUpdates.CompareDependencies | src/main/java/org/codehaus/mojo/versions/DisplayDependencyUpdatesMojo.java:59-85 | zero exactly when groupId, artifactId and version all agree |
| DependencyUpdates.CompareDependenciesOrder | src/main/java/org/codehaus/mojo/versions/DisplayDependencyUpdatesMojo.java:64-84 | groupId decides first, then artifactId; a null version sorts before any version and two nulls are equal; two present versions are ordered by their strings' `compareTo` |
| DependencyUpdates.CompareDependenciesAntisymmetric | src/main/java/org/codehaus/mojo/versions/DisplayDependencyUpdatesMojo.java:59-85 | d1 before d2 iff d2 after d1 |
| DependencyUpdates.CompareDependenciesTransitive | src/main/java/org/codehaus/mojo/versions/DisplayDependencyUpdatesMojo.java:59-85 | the ordering is transitive |
| DependencyUpdates.InsertDependency | src/main/java/org/codehaus/mojo/versions/DisplayDependencyUpdatesMojo.java:57-87 | adding to the set keeps every element and adds nothing but the new dependency |
| DependencyUpdates.InsertKeepsSorted | src/main/java/org/codehaus/mojo/versions/DisplayDependencyUpdatesMojo.java:57-87 | adding keeps the set strictly ascending |
| DependencyUpdates.InsertAddsNewKeysOnly | src/main/java/org/codehaus/mojo/versions/DisplayDependencyUpdatesMojo.java:57-87 | a dependency whose key is present leaves the set unchanged; otherwise it is added exactly once |
| DependencyUpdates.InsertAll | src/main/java/org/codehaus/mojo/versions/DisplayDependencyUpdatesMojo.java:87 | `addAll` adds nothing but the given dependencies |
| DependencyUpdates.TreeSetSorted | src/main/java/org/codehaus/mojo/versions/DisplayDependencyUpdatesMojo.java:57-87 | the filled set iterates in strictly ascending order |
| DependencyUpdates.TreeSetCoversKeys | src/main/java/org/codehaus/mojo/versions/DisplayDependencyUpdatesMojo.java:57-87 | every declared (groupId, artifactId, version) is represented |
| DependencyUpdates.TreeSetKeepsFirsts | src/main/java/org/codehaus/mojo/versions/DisplayDependencyUpdatesMojo.java:57-87 | every element is the first dependency declared with its key |
| DependencyUpdates.TreeSetHoldsFirsts | src/main/java/org/codehaus/mojo/versions/DisplayDependencyUpdatesMojo.java:57-87 | the first dependency declared with each key is in the set |
| DependencyUpdates.TreeSetContents | src/main/java/org/codehaus/mojo/versions/DisplayDependencyUpdatesMojo.java:57-87 | the set is ascending and holds exactly the first dependency of each key |
| DependencyUpdates.DependencySet.Add | src/main/java/org/codehaus/mojo/versions/DisplayDependencyUpdatesMojo.java:57-87 | the class's `add` leaves exactly the insertion of the dependency into its old contents and keeps them ascending |
| DependencyUpdates.DependencySet.AddAll | src/main/java/org/codehaus/mojo/versions/DisplayDependencyUpdatesMojo.java:87 | `addAll` leaves the dependencies inserted in order into the old contents and keeps them ascending |
| DependencyUpdates.UpdateLine | src/main/java/org/codehaus/mojo/versions/DisplayDependencyUpdatesMojo.java:118-131 | the line starts with the uncut "groupId:artifactId " prefix, then only dots, then " version -> newVersion"; 69 characters when the prefix fits the padding |
| DependencyUpdates.FormatUpdate | src/main/java/org/codehaus/mojo/versions/DisplayDependencyUpdatesMojo.java:118-132 | the buffer and padding loop build exactly that line |
| DependencyUpdates.CheckDependency | src/main/java/org/codehaus/mojo/versions/DisplayDependencyUpdatesMojo.java:98-133 | abort on an invalid spec or a missing version with a found latest; an update line iff a latest was found and the declared version is strictly below it |
| DependencyUpdates.UpdatesAreStrictlyNewer | src/main/java/org/codehaus/mojo/versions/DisplayDependencyUpdatesMojo.java:89-134 | the walk succeeds iff every dependency passes; then its lines are exactly those of the dependencies with a strictly newer version: each line comes from such a dependency, and each such dependency has its line |
| DependencyUpdates.Listing | src/main/java/org/codehaus/mojo/versions/DisplayDependencyUpdatesMojo.java:135-149 | the "all dependencies are using the latest versions" message appears iff there is no update line; otherwise the "updates are available" header comes first and each line is listed indented, in order |
| DependencyUpdates.Inspect | src/main/java/org/codehaus/mojo/versions/DisplayDependencyUpdatesMojo.java:92-133 | one turn of the loop yields the error, the update line or nothing that `CheckDependency` gives |
| DependencyUpdates.LogListing | src/main/java/org/codehaus/mojo/versions/DisplayDependencyUpdatesMojo.java:135-149 | the closing info lines are exactly `Listing` |
| DependencyUpdates.Execute | src/main/java/org/codehaus/mojo/versions/DisplayDependencyUpdatesMojo.java:54-150 | the goal's loops compute the log lines (or the error) of `Display` over the filled set |

## Left out

- Parsing of versions and of range specifications belongs to the Maven library: `DefaultArtifactVersion` and `VersionRange.createFromVersionSpec`. A version is a parsed value (string form, major, minor, incremental, qualifier, snapshot flag). A range is a list of restrictions, or a parse error.
- The range test uses the artifact's comparator. Maven's `containsVersion` uses the versions' own `compareTo`. Where the two differ, the model does not follow Maven.
- Maven's check that the restrictions of a range are ordered and do not overlap is not modelled. That check is the exception "range defies version ordering".
- DependencyUpdatesReport.Entry: an artifact whose version Maven orders at or above the ceiling of its minor or incremental range is recorded, where the plugin drops it. For the plugin, building that range fails, and the catch at DisplayDependencyUpdatesReport.java:117-121 skips the artifact. This happens for versions whose numeric parts Maven cannot read, such as "1.2.3.4". The ordering check belongs to the Maven library, which is not part of this model.
- The comparator is a parameter. Where an ordering property depends on it, the property assumes a total preorder. The range-nesting facts also assume that releases are ordered numerically. The comparators themselves are not part of this model.
- DependencyUpdatesReport.MinorCeiling: `getMajorVersion() + 1` and `getMinorVersion() + 1` are Java `int` sums that wrap at 2^31. The model uses unbounded naturals.
- Repository access is I/O. The model takes its results as inputs:
  - the metadata retrieval behind `findLatestVersion`;
  - the helper's property map (`getVersionPropertiesMap`);
  - `extractArtifacts` and the reactor's versions;
  - artifact creation by the artifact factory.
- The report's catch-all around one artifact is modelled as a skipped artifact, with no version list.
- DependencyUpdates.CheckDependency: for a dependency without a version, artifact creation with a null range is external code. The model takes its outcome from the lookup parameter. When the lookup finds a version, the model aborts: `new DefaultArtifactVersion(null)` dereferences the absent string.
- The `VersionDetails` implementation is not part of this model. Its javadoc says only "within the specified bounds" for the overloads without inclusivity flags, and says nothing of a snapshot policy for the overloads without a snapshot flag. The following are modelling choices, not promises of the interface:
  - the two-bound queries without inclusivity flags are exclusive on both sides;
  - the overloads without a snapshot flag use a snapshot policy stored in the details;
  - `getVersions()` includes snapshots.
- The list of available versions is built by inserting the retrieved versions into an ordered set. A version that compares equal to one already present is dropped.
- `getVersionComparator` is the details' `comparator` field. It has no logic of its own.
- Logging is not modelled: debug, info and warn messages, except the closing info lines of `display-dependency-updates`.
- Rendering is not modelled: the report renderer, the Doxia sink, and the report's metadata getters such as the name and output directory.
- The `update` methods are not modelled. They are empty or throw, and POM rewriting is not part of this model.
- The unused `getPluginGroupId`, `getPluginArtifactId` and `getPluginVersion` helpers are not modelled.
- `VersionUpdateDetails` is not modelled. It is a getter-only interface.
- DependencyUpdates.CompareStrings compares Dafny characters, which are Unicode scalar values. Java compares UTF-16 code units. The two orders differ only for characters outside the Basic Multilingual Plane.
- DependencyUpdates.Padding counts Dafny characters, where Java's `String.length()` counts UTF-16 code units. For a version or a groupId/artifactId with characters outside the Basic Multilingual Plane, the plugin's padding and line length differ from `UpdateLine`'s.
- Iteration order of the property map: the properties are taken in the order they are given.
- Iteration order of the project's artifacts: the artifacts are taken in the order they are given.
