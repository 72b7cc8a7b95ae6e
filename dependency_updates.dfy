// The `display-dependency-updates` goal: the project's dependencies are
// de-duplicated and ordered by a comparator on (groupId, artifactId,
// version), each is looked up for a newer version, and every strictly newer
// one becomes a dot-padded line of the log.

module DependencyUpdates {
  import opened Wrappers
  import opened Versions

  /** A declared dependency; `version` is `None` when the POM leaves it out. */
  datatype Dependency = Dependency(groupId: string, artifactId: string, version: Option<string>,
                                   typeName: string, classifier: Option<string>, scope: Option<string>)

  /** The fields the goal's comparator looks at. */
  datatype Key = Key(groupId: string, artifactId: string, version: Option<string>)

  function KeyOf(d: Dependency): Key {
    Key(d.groupId, d.artifactId, d.version)
  }

  // ---------------------------------------------------------------------
  // The comparator of the TreeSet
  // ---------------------------------------------------------------------

  /**
   * `String.compareTo`: the difference of the characters at the first
   * position where the strings differ, or else the difference of their
   * lengths.
   */
  function CompareStrings(a: string, b: string): (r: int)
    ensures r == 0 <==> a == b
    decreases |a|
  {
    if |a| == 0 || |b| == 0 then |a| - |b|
    else if a[0] != b[0] then a[0] as int - b[0] as int
    else
      var r := CompareStrings(a[1..], b[1..]);
      assert a == [a[0]] + a[1..] && b == [b[0]] + b[1..];
      r
  }

  lemma {:induction false} CompareStringsAntisymmetric(a: string, b: string)
    ensures CompareStrings(a, b) == -CompareStrings(b, a)
    decreases |a|
  {
    if |a| > 0 && |b| > 0 && a[0] == b[0] {
      CompareStringsAntisymmetric(a[1..], b[1..]);
    }
  }

  lemma {:induction false} CompareStringsTransitive(a: string, b: string, c: string)
    requires CompareStrings(a, b) < 0 && CompareStrings(b, c) < 0
    ensures CompareStrings(a, c) < 0
    decreases |a|
  {
    if |a| > 0 && |b| > 0 && |c| > 0 && a[0] == b[0] && b[0] == c[0] {
      CompareStringsTransitive(a[1..], b[1..], c[1..]);
    }
  }

  /**
   * `compareTo` orders strings lexicographically: `a` comes first exactly when
   * it is a proper prefix of `b`, or when at the first differing position its
   * character is the smaller.
   */
  lemma {:induction false} CompareStringsIsLexicographic(a: string, b: string)
    ensures CompareStrings(a, b) < 0 <==>
      exists k :: 0 <= k <= |a| && k <= |b| && a[..k] == b[..k] && (k == |a| < |b| || (k < |a| && k < |b| && a[k] < b[k]))
    decreases |a|
  {
    if |a| == 0 || |b| == 0 {
      if CompareStrings(a, b) < 0 {
        assert a[..0] == b[..0];
      }
    } else if a[0] != b[0] {
      if CompareStrings(a, b) < 0 {
        assert a[..0] == b[..0];
      }
      forall k | 0 <= k <= |a| && k <= |b| && a[..k] == b[..k] && (k == |a| < |b| || (k < |a| && k < |b| && a[k] < b[k]))
        ensures a[0] < b[0]
      {
        if k > 0 {
          assert a[..k][0] == b[..k][0];
        }
      }
    } else {
      var a', b' := a[1..], b[1..];
      CompareStringsIsLexicographic(a', b');
      if CompareStrings(a, b) < 0 {
        var k :| 0 <= k <= |a'| && k <= |b'| && a'[..k] == b'[..k] && (k == |a'| < |b'| || (k < |a'| && k < |b'| && a'[k] < b'[k]));
        assert a[..k + 1] == [a[0]] + a'[..k] && b[..k + 1] == [b[0]] + b'[..k];
      }
      forall k | 0 <= k <= |a| && k <= |b| && a[..k] == b[..k] && (k == |a| < |b| || (k < |a| && k < |b| && a[k] < b[k]))
        ensures CompareStrings(a', b') < 0
      {
        assert k > 0;
        assert a'[..k - 1] == a[..k][1..] && b'[..k - 1] == b[..k][1..];
      }
    }
  }

  /** The version comparison: an absent version comes before any present one. */
  function CompareVersions(v1: Option<string>, v2: Option<string>): (r: int)
    ensures r == 0 <==> v1 == v2
  {
    match (v1, v2)
    case (None, None) => 0
    case (None, Some(_)) => -1
    case (Some(_), None) => 1
    case (Some(a), Some(b)) => CompareStrings(a, b)
  }

  /** The anonymous comparator: groupId, then artifactId, then version. */
  function CompareDependencies(d1: Dependency, d2: Dependency): (r: int)
    ensures r == 0 <==> KeyOf(d1) == KeyOf(d2)
  {
    var r := CompareStrings(d1.groupId, d2.groupId);
    if r != 0 then r
    else
      var r := CompareStrings(d1.artifactId, d2.artifactId);
      if r != 0 then r
      else CompareVersions(d1.version, d2.version)
  }

  /**
   * The comparator is lexicographic over its three fields, with an absent
   * version first.
   */
  lemma CompareDependenciesOrder(d1: Dependency, d2: Dependency)
    ensures CompareStrings(d1.groupId, d2.groupId) < 0 ==> CompareDependencies(d1, d2) < 0
    ensures d1.groupId == d2.groupId && CompareStrings(d1.artifactId, d2.artifactId) < 0 ==>
      CompareDependencies(d1, d2) < 0
    ensures d1.groupId == d2.groupId && d1.artifactId == d2.artifactId ==>
      (d1.version.None? && d2.version.Some? ==> CompareDependencies(d1, d2) < 0) &&
      (d1.version.Some? && d2.version.None? ==> CompareDependencies(d1, d2) > 0) &&
      (d1.version.None? && d2.version.None? ==> CompareDependencies(d1, d2) == 0)
    ensures d1.groupId == d2.groupId && d1.artifactId == d2.artifactId && d1.version.Some? && d2.version.Some? ==>
      CompareDependencies(d1, d2) == CompareStrings(d1.version.value, d2.version.value)
  {
  }

  lemma CompareDependenciesAntisymmetric(d1: Dependency, d2: Dependency)
    ensures CompareDependencies(d1, d2) < 0 <==> CompareDependencies(d2, d1) > 0
  {
    CompareStringsAntisymmetric(d1.groupId, d2.groupId);
    CompareStringsAntisymmetric(d1.artifactId, d2.artifactId);
    if d1.version.Some? && d2.version.Some? {
      CompareStringsAntisymmetric(d1.version.value, d2.version.value);
    }
  }

  lemma CompareVersionsTransitive(a: Option<string>, b: Option<string>, c: Option<string>)
    requires CompareVersions(a, b) < 0 && CompareVersions(b, c) < 0
    ensures CompareVersions(a, c) < 0
  {
    if a.Some? {
      CompareStringsTransitive(a.value, b.value, c.value);
    }
  }

  lemma CompareDependenciesTransitive(a: Dependency, b: Dependency, c: Dependency)
    requires CompareDependencies(a, b) < 0 && CompareDependencies(b, c) < 0
    ensures CompareDependencies(a, c) < 0
  {
    if a.groupId != b.groupId && b.groupId != c.groupId {
      CompareStringsTransitive(a.groupId, b.groupId, c.groupId);
    } else if a.groupId == b.groupId && b.groupId == c.groupId {
      if a.artifactId != b.artifactId && b.artifactId != c.artifactId {
        CompareStringsTransitive(a.artifactId, b.artifactId, c.artifactId);
      } else if a.artifactId == b.artifactId && b.artifactId == c.artifactId {
        CompareVersionsTransitive(a.version, b.version, c.version);
      }
    }
  }

  // ---------------------------------------------------------------------
  // The TreeSet
  // ---------------------------------------------------------------------

  ghost predicate Sorted(s: seq<Dependency>) {
    forall i, j :: 0 <= i < j < |s| ==> CompareDependencies(s[i], s[j]) < 0
  }

  /**
   * `TreeSet.add` on the ascending contents `s`: `d` goes in its place
   * unless an element with the same key is already there, which is kept.
   */
  function InsertDependency(s: seq<Dependency>, d: Dependency): (r: seq<Dependency>)
    ensures forall x :: x in r ==> x in s || x == d
    ensures forall x :: x in s ==> x in r
    decreases |s|
  {
    if |s| == 0 then [d]
    else if CompareDependencies(d, s[0]) < 0 then [d] + s
    else if CompareDependencies(d, s[0]) == 0 then s
    else
      assert forall x :: x in s[1..] ==> x in s;
      [s[0]] + InsertDependency(s[1..], d)
  }

  /** The insertion keeps the contents ascending. */
  lemma {:induction false} InsertKeepsSorted(s: seq<Dependency>, d: Dependency)
    requires Sorted(s)
    ensures Sorted(InsertDependency(s, d))
    decreases |s|
  {
    if |s| > 0 && CompareDependencies(d, s[0]) < 0 {
      forall y | y in s ensures CompareDependencies(d, y) < 0 {
        var k :| 0 <= k < |s| && s[k] == y;
        if k > 0 {
          CompareDependenciesTransitive(d, s[0], y);
        }
      }
      ConsKeepsSorted(d, s);
    } else if |s| > 0 && CompareDependencies(d, s[0]) > 0 {
      var tail := s[1..];
      assert Sorted(tail) by {
        forall i, j | 0 <= i < j < |tail| ensures CompareDependencies(tail[i], tail[j]) < 0 {
          assert tail[i] == s[i + 1] && tail[j] == s[j + 1];
        }
      }
      InsertKeepsSorted(tail, d);
      var rest := InsertDependency(tail, d);
      CompareDependenciesAntisymmetric(d, s[0]);
      forall y | y in rest ensures CompareDependencies(s[0], y) < 0 {
        if y != d {
          var k :| 0 <= k < |tail| && tail[k] == y;
          assert s[k + 1] == y;
        }
      }
      ConsKeepsSorted(s[0], rest);
    }
  }

  /** An element below every element of an ascending sequence can head it. */
  lemma ConsKeepsSorted(x: Dependency, t: seq<Dependency>)
    requires Sorted(t)
    requires forall y :: y in t ==> CompareDependencies(x, y) < 0
    ensures Sorted([x] + t)
  {
    var r := [x] + t;
    forall i, j | 0 <= i < j < |r| ensures CompareDependencies(r[i], r[j]) < 0 {
      if i == 0 {
        assert r[j] in t;
      } else {
        assert r[i] == t[i - 1] && r[j] == t[j - 1];
      }
    }
  }

  /**
   * The insertion adds `d` exactly when no element shares its key; otherwise
   * the contents stay as they were.
   */
  lemma {:induction false} InsertAddsNewKeysOnly(s: seq<Dependency>, d: Dependency)
    requires Sorted(s)
    ensures (exists y :: y in s && KeyOf(y) == KeyOf(d)) ==> InsertDependency(s, d) == s
    ensures (forall y :: y in s ==> KeyOf(y) != KeyOf(d)) ==>
      multiset(InsertDependency(s, d)) == multiset(s) + multiset{d}
    decreases |s|
  {
    if |s| > 0 {
      var r := InsertDependency(s, d);
      if CompareDependencies(d, s[0]) < 0 {
        forall y | y in s ensures KeyOf(y) != KeyOf(d) {
          var k :| 0 <= k < |s| && s[k] == y;
          if k > 0 {
            CompareDependenciesTransitive(d, s[0], y);
          }
        }
      } else if CompareDependencies(d, s[0]) > 0 {
        assert s == [s[0]] + s[1..];
        InsertAddsNewKeysOnly(s[1..], d);
        if exists y :: y in s && KeyOf(y) == KeyOf(d) {
          var y :| y in s && KeyOf(y) == KeyOf(d);
          assert y in s[1..];
        }
      }
    }
  }

  /** `addAll`: the dependencies inserted one after the other. */
  function InsertAll(s: seq<Dependency>, deps: seq<Dependency>): (r: seq<Dependency>)
    ensures forall x :: x in r ==> x in s || x in deps
    decreases |deps|
  {
    if |deps| == 0 then s
    else
      var init := deps[..|deps| - 1];
      assert forall x :: x in init ==> x in deps;
      InsertDependency(InsertAll(s, init), deps[|deps| - 1])
  }

  /** Index `i` holds the first dependency declared with its key. */
  ghost predicate FirstOfKey(deps: seq<Dependency>, i: int)
    requires 0 <= i < |deps|
  {
    forall j :: 0 <= j < i ==> KeyOf(deps[j]) != KeyOf(deps[i])
  }

  /** The set built from the declared dependencies is ascending. */
  lemma {:induction false} TreeSetSorted(deps: seq<Dependency>)
    ensures Sorted(InsertAll([], deps))
    decreases |deps|
  {
    if |deps| > 0 {
      TreeSetSorted(deps[..|deps| - 1]);
      InsertKeepsSorted(InsertAll([], deps[..|deps| - 1]), deps[|deps| - 1]);
    }
  }

  /** Every declared key is represented in the set. */
  lemma {:induction false} TreeSetCoversKeys(deps: seq<Dependency>)
    ensures forall d :: d in deps ==> exists x :: x in InsertAll([], deps) && KeyOf(x) == KeyOf(d)
    decreases |deps|
  {
    if |deps| > 0 {
      var init, last := deps[..|deps| - 1], deps[|deps| - 1];
      TreeSetCoversKeys(init);
      TreeSetSorted(init);
      var before := InsertAll([], init);
      var after := InsertAll([], deps);
      InsertAddsNewKeysOnly(before, last);
      if forall y :: y in before ==> KeyOf(y) != KeyOf(last) {
        assert last in multiset(after);
      }
      forall d | d in deps ensures exists x :: x in after && KeyOf(x) == KeyOf(d) {
        if d != last {
          assert d in init;
        }
      }
    }
  }

  /** Every element of the set is the first dependency declared with its key. */
  lemma {:induction false} TreeSetKeepsFirsts(deps: seq<Dependency>)
    ensures forall x :: x in InsertAll([], deps) ==> exists i :: 0 <= i < |deps| && deps[i] == x && FirstOfKey(deps, i)
    decreases |deps|
  {
    if |deps| > 0 {
      var init, last := deps[..|deps| - 1], deps[|deps| - 1];
      TreeSetKeepsFirsts(init);
      TreeSetCoversKeys(init);
      TreeSetSorted(init);
      var before := InsertAll([], init);
      var after := InsertAll([], deps);
      InsertAddsNewKeysOnly(before, last);
      forall x | x in after ensures exists i :: 0 <= i < |deps| && deps[i] == x && FirstOfKey(deps, i) {
        if x in before {
          var i :| 0 <= i < |init| && init[i] == x && FirstOfKey(init, i);
          assert forall j :: 0 <= j <= i ==> deps[j] == init[j];
          assert deps[i] == x && FirstOfKey(deps, i);
        } else {
          assert x == last && after != before;
          forall j | 0 <= j < |deps| - 1 ensures KeyOf(deps[j]) != KeyOf(last) {
            assert deps[j] in init;
          }
          assert FirstOfKey(deps, |deps| - 1);
        }
      }
    }
  }

  /** The first dependency declared with each key is in the set. */
  lemma {:induction false} TreeSetHoldsFirsts(deps: seq<Dependency>)
    ensures forall i :: 0 <= i < |deps| && FirstOfKey(deps, i) ==> deps[i] in InsertAll([], deps)
    decreases |deps|
  {
    if |deps| > 0 {
      var init := deps[..|deps| - 1];
      TreeSetHoldsFirsts(init);
      TreeSetGrows(deps);
      forall i | 0 <= i < |deps| && FirstOfKey(deps, i) ensures deps[i] in InsertAll([], deps) {
        if i < |deps| - 1 {
          assert deps[i] == init[i];
          assert FirstOfKey(init, i);
        } else {
          NewKeyIsAdded(deps);
        }
      }
    }
  }

  /** Adding one more dependency never removes an element of the set. */
  lemma TreeSetGrows(deps: seq<Dependency>)
    requires |deps| > 0
    ensures forall x :: x in InsertAll([], deps[..|deps| - 1]) ==> x in InsertAll([], deps)
  {
    var before := InsertAll([], deps[..|deps| - 1]);
    TreeSetSorted(deps[..|deps| - 1]);
    InsertAddsNewKeysOnly(before, deps[|deps| - 1]);
    if forall y :: y in before ==> KeyOf(y) != KeyOf(deps[|deps| - 1]) {
      assert forall x :: x in before ==> x in multiset(InsertAll([], deps));
    }
  }

  /** The last dependency is added when no earlier one shares its key. */
  lemma NewKeyIsAdded(deps: seq<Dependency>)
    requires |deps| > 0 && FirstOfKey(deps, |deps| - 1)
    ensures deps[|deps| - 1] in InsertAll([], deps)
  {
    var init, last := deps[..|deps| - 1], deps[|deps| - 1];
    TreeSetSorted(init);
    var before := InsertAll([], init);
    InsertAddsNewKeysOnly(before, last);
    forall y | y in before ensures KeyOf(y) != KeyOf(last) {
      var j :| 0 <= j < |init| && init[j] == y;
      assert deps[j] == y;
    }
    assert last in multiset(InsertAll([], deps));
  }

  /**
   * The set built from the declared dependencies is ascending and holds,
   * for every key, the first dependency declared with it and nothing else.
   */
  lemma TreeSetContents(deps: seq<Dependency>)
    ensures Sorted(InsertAll([], deps))
    ensures forall x :: x in InsertAll([], deps) <==> exists i :: 0 <= i < |deps| && deps[i] == x && FirstOfKey(deps, i)
  {
    TreeSetSorted(deps);
    TreeSetKeepsFirsts(deps);
    TreeSetHoldsFirsts(deps);
  }

  /** The goal's `TreeSet`, holding its elements in ascending order. */
  class DependencySet {
    var elements: seq<Dependency>

    ghost predicate Valid()
      reads this
    {
      Sorted(elements)
    }

    constructor ()
      ensures elements == [] && Valid()
    {
      elements := [];
    }

    /** `add`: walks to the first element not below `d`, and inserts `d` there unless that element shares its key. */
    method Add(d: Dependency)
      requires Valid()
      modifies this
      ensures elements == InsertDependency(old(elements), d)
      ensures Valid()
    {
      InsertKeepsSorted(elements, d);
      var i := 0;
      while i < |elements| && CompareDependencies(d, elements[i]) > 0
        invariant 0 <= i <= |elements|
        invariant forall k :: 0 <= k < i ==> CompareDependencies(d, elements[k]) > 0
      {
        i := i + 1;
      }
      if i < |elements| && CompareDependencies(d, elements[i]) == 0 {
        InsertStopsAtSameKey(elements, d, i);
        return;
      }
      InsertAtPosition(elements, d, i);
      elements := elements[..i] + [d] + elements[i..];
    }

    /** `addAll`: adds the dependencies in their declared order. */
    method AddAll(deps: seq<Dependency>)
      requires Valid()
      modifies this
      ensures elements == InsertAll(old(elements), deps)
      ensures Valid()
    {
      var k := 0;
      while k < |deps|
        invariant 0 <= k <= |deps|
        invariant elements == InsertAll(old(elements), deps[..k])
        invariant Valid()
      {
        assert deps[..k + 1][..k] == deps[..k];
        Add(deps[k]);
        k := k + 1;
      }
      assert deps[..k] == deps;
    }
  }

  lemma {:induction false} InsertStopsAtSameKey(s: seq<Dependency>, d: Dependency, i: nat)
    requires i < |s|
    requires forall k :: 0 <= k < i ==> CompareDependencies(d, s[k]) > 0
    requires CompareDependencies(d, s[i]) == 0
    ensures InsertDependency(s, d) == s
    decreases i
  {
    if i > 0 {
      InsertStopsAtSameKey(s[1..], d, i - 1);
      assert [s[0]] + s[1..] == s;
    }
  }

  lemma {:induction false} InsertAtPosition(s: seq<Dependency>, d: Dependency, i: nat)
    requires i <= |s|
    requires forall k :: 0 <= k < i ==> CompareDependencies(d, s[k]) > 0
    requires i == |s| || CompareDependencies(d, s[i]) < 0
    ensures InsertDependency(s, d) == s[..i] + [d] + s[i..]
    decreases i
  {
    if i == 0 {
      assert s[..0] + [d] + s[0..] == [d] + s;
    } else {
      InsertAtPosition(s[1..], d, i - 1);
      assert s[..i] == [s[0]] + s[1..][..i - 1];
      assert s[i..] == s[1..][i - 1..];
    }
  }

  // ---------------------------------------------------------------------
  // The update lines
  // ---------------------------------------------------------------------

  function Dots(n: nat): (r: string)
    ensures |r| == n && forall k :: 0 <= k < n ==> r[k] == '.'
  {
    if n == 0 then [] else Dots(n - 1) + ['.']
  }

  /** The length the buffer is padded up to. */
  function Padding(version: string, newVersion: string): int {
    68 - |version| - |newVersion| - 4
  }

  function Prefix(groupId: string, artifactId: string): string {
    groupId + ":" + artifactId + " "
  }

  /**
   * One update line: `groupId:artifactId `, dots up to the padding target,
   * then ` version -> newVersion`. The prefix is never cut, and when it fits
   * the line is exactly 69 characters long.
   */
  function UpdateLine(groupId: string, artifactId: string, version: string, newVersion: string): (line: string)
    ensures var prefix := Prefix(groupId, artifactId);
      var suffix := " " + version + " -> " + newVersion;
      && |prefix| <= |line| - |suffix|
      && line[..|prefix|] == prefix
      && line[|line| - |suffix|..] == suffix
      && (forall k :: |prefix| <= k < |line| - |suffix| ==> line[k] == '.')
      && (|prefix| <= Padding(version, newVersion) ==> |line| == 69)
      && (|prefix| >= Padding(version, newVersion) ==> |line| == |prefix| + |suffix|)
  {
    var prefix := Prefix(groupId, artifactId);
    var padding := Padding(version, newVersion);
    var line := prefix + Dots(if padding > |prefix| then padding - |prefix| else 0) + " " + version + " -> " + newVersion;
    assert line == prefix + Dots(if padding > |prefix| then padding - |prefix| else 0) + (" " + version + " -> " + newVersion);
    line
  }

  /** The `StringBuilder` code building one line, with its padding loop. */
  method FormatUpdate(groupId: string, artifactId: string, version: string, newVersion: string)
    returns (line: string)
    ensures line == UpdateLine(groupId, artifactId, version, newVersion)
  {
    var buf := groupId + [':'];
    buf := buf + artifactId;
    buf := buf + [' '];
    ghost var prefix := buf;
    assert prefix == Prefix(groupId, artifactId);
    var padding := 68 - |version| - |newVersion| - 4;
    while |buf| < padding
      invariant |prefix| <= |buf|
      invariant padding > |prefix| ==> |buf| <= padding
      invariant padding <= |prefix| ==> |buf| == |prefix|
      invariant buf == prefix + Dots(|buf| - |prefix|)
      decreases padding - |buf|
    {
      buf := buf + ['.'];
    }
    assert buf == prefix + Dots(if padding > |prefix| then padding - |prefix| else 0);
    buf := buf + [' '];
    buf := buf + version;
    buf := buf + " -> ";
    buf := buf + newVersion;
    line := buf;
  }

  // ---------------------------------------------------------------------
  // The goal
  // ---------------------------------------------------------------------

  /**
   * What the repository lookup gives for one dependency: its version cannot
   * be read as a range, or the newest version in that range, if any.
   */
  datatype Lookup = InvalidSpec | Latest(newest: Option<Version>)

  datatype Error =
    | InvalidRange(spec: string)   // "Invalid version range specification: <spec>"
    | MissingVersion(dependency: Dependency)  // a dereference of the absent version

  /** Java's string form of a possibly absent version. */
  function VersionText(version: Option<string>): string {
    match version
    case None => "null"
    case Some(v) => v
  }

  /**
   * The decision for one dependency: an update line exactly when the lookup
   * found a version and the declared one compares strictly below it.
   */
  function CheckDependency(d: Dependency, lookup: Dependency -> Lookup, parse: string -> Version, cmp: Comparator)
    : (r: Result<Option<string>, Error>)
    ensures r.Failure? <==> lookup(d).InvalidSpec? || (lookup(d).newest.Some? && d.version.None?)
    ensures r.Success? && r.value.Some? <==>
      && lookup(d).Latest? && lookup(d).newest.Some? && d.version.Some?
      && cmp(parse(d.version.value), lookup(d).newest.value) < 0
    ensures r.Success? && r.value.Some? ==>
      r.value.value == UpdateLine(d.groupId, d.artifactId, d.version.value, lookup(d).newest.value.text)
  {
    match lookup(d)
    case InvalidSpec => Failure(InvalidRange(VersionText(d.version)))
    case Latest(None) => Success(None)
    case Latest(Some(newest)) =>
      if d.version.None? then Failure(MissingVersion(d))
      else if cmp(parse(d.version.value), newest) < 0 then
        Success(Some(UpdateLine(d.groupId, d.artifactId, d.version.value, newest.text)))
      else Success(None)
  }

  /** The update lines of the ascending dependencies, or the first error. */
  function CheckAll(sorted: seq<Dependency>, lookup: Dependency -> Lookup, parse: string -> Version, cmp: Comparator)
    : Result<seq<string>, Error>
    decreases |sorted|
  {
    if |sorted| == 0 then Success([])
    else
      match CheckAll(sorted[..|sorted| - 1], lookup, parse, cmp)
      case Failure(e) => Failure(e)
      case Success(updates) =>
        match CheckDependency(sorted[|sorted| - 1], lookup, parse, cmp)
        case Failure(e) => Failure(e)
        case Success(None) => Success(updates)
        case Success(Some(line)) => Success(updates + [line])
  }

  /**
    * On success the update lines are exactly those of the dependencies the lookup found a strictly
    * newer version for: every line comes from such a dependency, and every such dependency has its line.
    */
  lemma {:induction false} UpdatesAreStrictlyNewer(sorted: seq<Dependency>, lookup: Dependency -> Lookup,
                                                   parse: string -> Version, cmp: Comparator)
    ensures var r := CheckAll(sorted, lookup, parse, cmp);
      r.Success? ==>
        && |r.value| <= |sorted|
        && forall line :: line in r.value ==> exists d :: d in sorted && CheckDependency(d, lookup, parse, cmp) == Success(Some(line))
    ensures var r := CheckAll(sorted, lookup, parse, cmp);
      r.Success? ==>
        forall d, line :: d in sorted && CheckDependency(d, lookup, parse, cmp) == Success(Some(line)) ==> line in r.value
    ensures CheckAll(sorted, lookup, parse, cmp).Success? <==>
      forall d :: d in sorted ==> CheckDependency(d, lookup, parse, cmp).Success?
    decreases |sorted|
  {
    if |sorted| > 0 {
      var init, last := sorted[..|sorted| - 1], sorted[|sorted| - 1];
      UpdatesAreStrictlyNewer(init, lookup, parse, cmp);
      assert forall d :: d in sorted <==> d in init || d == last;
      var before, step := CheckAll(init, lookup, parse, cmp), CheckDependency(last, lookup, parse, cmp);
      if before.Success? && step.Success? && step.value.Some? {
        var updates := before.value + [step.value.value];
        assert CheckAll(sorted, lookup, parse, cmp) == Success(updates);
        assert forall line :: line in updates <==> line in before.value || line == step.value.value;
      }
    }
  }

  const AllLatest := "All dependencies are using the latest versions."
  const UpdatesAvailable := "The following dependency updates are available:"

  /** The info lines logged at the end: the "all latest" message exactly when there is no update. */
  function Listing(updates: seq<string>): (lines: seq<string>)
    ensures |lines| == 3 + |updates|
    ensures lines[0] == "" && lines[|lines| - 1] == ""
    ensures lines[1] == AllLatest <==> |updates| == 0
    ensures |updates| > 0 ==> lines[1] == UpdatesAvailable
    ensures forall k :: 0 <= k < |updates| ==> lines[k + 2] == "  " + updates[k]
  {
    if |updates| == 0 then ["", AllLatest, ""]
    else ["", UpdatesAvailable] + Indented(updates) + [""]
  }

  function Indented(updates: seq<string>): (r: seq<string>)
    ensures |r| == |updates| && forall k :: 0 <= k < |r| ==> r[k] == "  " + updates[k]
  {
    seq(|updates|, k requires 0 <= k < |updates| => "  " + updates[k])
  }

  /** The whole goal: the log lines, or the error it stops with. */
  function Display(dependencies: seq<Dependency>, lookup: Dependency -> Lookup, parse: string -> Version,
                   cmp: Comparator): Result<seq<string>, Error>
  {
    match CheckAll(InsertAll([], dependencies), lookup, parse, cmp)
    case Failure(e) => Failure(e)
    case Success(updates) => Success(Listing(updates))
  }

  lemma {:induction false} CheckAllFailurePersists(sorted: seq<Dependency>, k: nat, lookup: Dependency -> Lookup,
                                                   parse: string -> Version, cmp: Comparator)
    requires k <= |sorted|
    requires CheckAll(sorted[..k], lookup, parse, cmp).Failure?
    ensures CheckAll(sorted, lookup, parse, cmp) == CheckAll(sorted[..k], lookup, parse, cmp)
    decreases |sorted| - k
  {
    if k < |sorted| {
      assert sorted[..k + 1][..k] == sorted[..k];
      CheckAllFailurePersists(sorted, k + 1, lookup, parse, cmp);
    } else {
      assert sorted[..k] == sorted;
    }
  }

  /** One turn of the loop in `execute`: the update line of a dependency, nothing, or the error that stops the goal. */
  method Inspect(dependency: Dependency, lookup: Dependency -> Lookup, parse: string -> Version, cmp: Comparator)
    returns (r: Result<Option<string>, Error>)
    ensures r == CheckDependency(dependency, lookup, parse, cmp)
  {
    match lookup(dependency) {
      case InvalidSpec =>
        return Failure(InvalidRange(VersionText(dependency.version)));
      case Latest(newest) =>
        if newest.None? {
          return Success(None);
        }
        if dependency.version.None? {
          return Failure(MissingVersion(dependency));
        }
        var version := dependency.version.value;
        if cmp(parse(version), newest.value) < 0 {
          var line := FormatUpdate(dependency.groupId, dependency.artifactId, version, newest.value.text);
          return Success(Some(line));
        }
        return Success(None);
    }
  }

  /** The logging at the end of `execute`: a blank line, the header, the indented updates, a blank line. */
  method LogListing(updates: seq<string>) returns (lines: seq<string>)
    ensures lines == Listing(updates)
  {
    lines := [""];
    if |updates| == 0 {
      lines := lines + [AllLatest];
    } else {
      lines := lines + [UpdatesAvailable];
      var u := 0;
      while u < |updates|
        invariant 0 <= u <= |updates|
        invariant lines == ["", UpdatesAvailable] + Indented(updates[..u])
      {
        assert Indented(updates[..u + 1]) == Indented(updates[..u]) + ["  " + updates[u]];
        lines := lines + ["  " + updates[u]];
        u := u + 1;
      }
      assert updates[..u] == updates;
    }
    lines := lines + [""];
  }

  /** `execute`: fills the set, walks it in order collecting update lines, then logs them. */
  method Execute(dependencies: seq<Dependency>, lookup: Dependency -> Lookup, parse: string -> Version,
                 cmp: Comparator)
    returns (result: Result<seq<string>, Error>)
    ensures result == Display(dependencies, lookup, parse, cmp)
  {
    var treeSet := new DependencySet();
    treeSet.AddAll(dependencies);
    var sorted := treeSet.elements;
    assert sorted == InsertAll([], dependencies);
    var updates: seq<string> := [];
    var k := 0;
    while k < |sorted|
      invariant 0 <= k <= |sorted|
      invariant CheckAll(sorted[..k], lookup, parse, cmp) == Success(updates)
    {
      assert sorted[..k + 1][..k] == sorted[..k];
      var checked := Inspect(sorted[k], lookup, parse, cmp);
      match checked {
        case Failure(e) =>
          CheckAllFailurePersists(sorted, k + 1, lookup, parse, cmp);
          return Failure(e);
        case Success(None) =>
        case Success(Some(line)) =>
          updates := updates + [line];
      }
      k := k + 1;
    }
    assert sorted[..k] == sorted;
    var lines := LogListing(updates);
    result := Success(lines);
  }
}
