/** The runtime-version compatibility range of a project: the candidate
    versions that satisfy every engine constraint, the upgrade options inside
    that range, and the dependencies whose constraint narrows it. */
module NodeEnv {
  import opened Wrappers
  import opened SemVer
  import opened RangeText
  import opened VersionLists
  import opened Lockfile

  /** `{min, max, range}`; all three are `None` when no candidate qualifies. */
  datatype SupportedRange = SupportedRange(min: Option<Version>, max: Option<Version>, range: Option<string>)

  const NoRange: SupportedRange := SupportedRange(None, None, None)

  /** The LTS releases the candidate table always contains. */
  const KnownLts: seq<Version> := [
    Release(16, 20, 2), Release(18, 18, 0), Release(18, 19, 1), Release(20, 9, 0),
    Release(20, 10, 0), Release(20, 11, 0), Release(22, 0, 0)]

  /** The oldest runtime major the candidate table synthesizes. */
  const FirstMajor: nat := 16

  /** `major.minor.0` for every major from 16 to 22 and every minor from 0 to 4. */
  function SynthesizedVersions(): (r: seq<Version>)
    ensures forall v {:trigger v in r} :: v in r <==> 16 <= v.major <= 22 && v.minor <= 4 && v.patch == 0 && v.pre.None?
  {
    SynthesizedFrom(FirstMajor)
  }

  /** The synthesized versions from major `m` up to 22, in ascending order. */
  function SynthesizedFrom(m: nat): (r: seq<Version>)
    ensures forall v {:trigger v in r} :: v in r <==> m <= v.major <= 22 && v.minor <= 4 && v.patch == 0 && v.pre.None?
    decreases 23 - m
  {
    if m > 22 then []
    else
      var row := [Release(m, 0, 0), Release(m, 1, 0), Release(m, 2, 0), Release(m, 3, 0), Release(m, 4, 0)];
      var rest := SynthesizedFrom(m + 1);
      assert forall v {:trigger v in row} :: v in row <==> v.major == m && v.minor <= 4 && v.patch == 0 && v.pre.None? by {
        forall v: Version | v.major == m && v.minor <= 4 && v.patch == 0 && v.pre.None?
          ensures v in row
        {
          assert v == row[v.minor];
        }
      }
      row + rest
  }

  /** The candidate table: the known LTS releases and the synthesized ones,
      each once. */
  function TestNodeVersions(): (r: seq<Version>)
    ensures forall v :: v in r <==> v in KnownLts || v in SynthesizedVersions()
  {
    var all := KnownLts + SynthesizedVersions();
    var sorted := SortAsc(all);
    SortAscMembers(all);
    Dedup(sorted)
  }

  /** The candidate table is in strictly ascending order. */
  lemma {:induction false} TestNodeVersionsAscending()
    ensures StrictlyAscending(TestNodeVersions())
  {
  }

  /** Sorting keeps exactly the members of the list. */
  lemma {:induction false} SortAscMembers(s: seq<Version>)
    ensures forall v :: v in SortAsc(s) <==> v in s
  {
    forall v ensures v in SortAsc(s) <==> v in s {
      assert v in SortAsc(s) <==> v in multiset(SortAsc(s));
      assert v in s <==> v in multiset(s);
    }
  }

  /** The constraints of a list that semver reads as a range, in order. */
  function ValidOnly(constraints: seq<string>): (r: seq<string>)
    ensures forall c :: c in r <==> c in constraints && Valid(c)
    ensures |r| <= |constraints|
  {
    if |constraints| == 0 then []
    else
      var rest := ValidOnly(constraints[1..]);
      assert constraints == [constraints[0]] + constraints[1..];
      if Valid(constraints[0]) then [constraints[0]] + rest else rest
  }

  /** Selecting the valid constraints works piece by piece, so their order is
      kept. */
  lemma {:induction false} ValidOnlyAppend(a: seq<string>, b: seq<string>)
    ensures ValidOnly(a + b) == ValidOnly(a) + ValidOnly(b)
  {
    if |a| > 0 {
      assert (a + b)[1..] == a[1..] + b;
      ValidOnlyAppend(a[1..], b);
    } else {
      assert a + b == b;
    }
  }

  /** `v` satisfies every valid constraint of the list; invalid ones are ignored. */
  predicate Admits(v: Version, constraints: seq<string>) {
    forall c {:trigger c in constraints} :: c in constraints && Valid(c) ==> Satisfies(v, c)
  }

  predicate HasValid(constraints: seq<string>) {
    exists c {:trigger c in constraints} :: c in constraints && Valid(c)
  }

  /** The candidates that satisfy every constraint of a list of valid ones, in order. */
  function Compatible(candidates: seq<Version>, valid: seq<string>): (r: seq<Version>)
    ensures forall v :: v in r <==> v in candidates && (forall c :: c in valid ==> Satisfies(v, c))
  {
    if |candidates| == 0 then []
    else
      var rest := Compatible(candidates[1..], valid);
      assert candidates == [candidates[0]] + candidates[1..];
      if forall c :: c in valid ==> Satisfies(candidates[0], c) then [candidates[0]] + rest else rest
  }

  /** `m` is the least candidate admitted by the constraints. */
  predicate IsLeast(m: Version, candidates: seq<Version>, constraints: seq<string>) {
    && m in candidates && Admits(m, constraints)
    && forall v :: v in candidates && Admits(v, constraints) ==> LessEq(m, v)
  }

  /** `m` is the greatest candidate admitted by the constraints. */
  predicate IsGreatest(m: Version, candidates: seq<Version>, constraints: seq<string>) {
    && m in candidates && Admits(m, constraints)
    && forall v :: v in candidates && Admits(v, constraints) ==> LessEq(v, m)
  }

  /** `calculateSupportedNodeVersions` over a given candidate list: the least and
      greatest candidates that satisfy every valid constraint, and the range
      expression between them; all-`None` when no constraint is valid or no
      candidate qualifies. `ResolveMeaning` states which versions those are. */
  function Resolve(candidates: seq<Version>, constraints: seq<string>): (r: SupportedRange)
    ensures r.min.None? ==> r == NoRange
    ensures r.min.Some? ==> r.max.Some? && r.range == Some(RangeExpression(r.min.value, r.max.value))
  {
    if |constraints| == 0 then NoRange
    else
      var valid := ValidOnly(constraints);
      if |valid| == 0 then NoRange
      else
        var compatible := SortAsc(Compatible(candidates, valid));
        if |compatible| == 0 then NoRange
        else
          var n := |compatible|;
          var lo, hi := compatible[0], compatible[n - 1];
          SupportedRange(Some(lo), Some(hi), Some(RangeExpression(lo, hi)))
  }

  /** The resolver finds a range exactly when some constraint is valid and some
      candidate satisfies all valid ones; the range then runs from the least to
      the greatest such candidate. */
  lemma {:induction false} ResolveMeaning(candidates: seq<Version>, constraints: seq<string>)
    ensures Resolve(candidates, constraints).min.Some? <==>
      HasValid(constraints) && exists v :: v in candidates && Admits(v, constraints)
    ensures Resolve(candidates, constraints).min.Some? ==>
      && IsLeast(Resolve(candidates, constraints).min.value, candidates, constraints)
      && IsGreatest(Resolve(candidates, constraints).max.value, candidates, constraints)
  {
    var valid := ValidOnly(constraints);
    if |valid| == 0 {
      assert !HasValid(constraints);
    } else {
      assert valid[0] in valid;
      var compatible := SortAsc(Compatible(candidates, valid));
      AdmittedSorted(candidates, constraints);
      if |compatible| > 0 {
        AscendingBounds(compatible);
        assert compatible[0] in compatible && compatible[|compatible| - 1] in compatible;
      }
    }
  }

  /** With a valid constraint, the sorted compatible candidates are exactly the
      admitted ones. */
  lemma {:induction false} AdmittedSorted(candidates: seq<Version>, constraints: seq<string>)
    requires |ValidOnly(constraints)| > 0
    ensures forall v :: v in SortAsc(Compatible(candidates, ValidOnly(constraints))) <==>
      v in candidates && Admits(v, constraints)
  {
    var found := Compatible(candidates, ValidOnly(constraints));
    SortAscMembers(found);
    assert forall v :: v in found <==> v in candidates && Admits(v, constraints);
  }

  lemma {:induction false} LessEqAntisymmetric(a: Version, b: Version)
    requires LessEq(a, b) && LessEq(b, a)
    ensures a == b
  {
    if a != b {
      LessAsymmetric(a, b);
    }
  }

  /** The least and the greatest admitted candidate pin down the resolver's answer. */
  lemma {:induction false} ResolveIs(candidates: seq<Version>, constraints: seq<string>, lo: Version, hi: Version)
    requires HasValid(constraints)
    requires IsLeast(lo, candidates, constraints) && IsGreatest(hi, candidates, constraints)
    ensures Resolve(candidates, constraints) == SupportedRange(Some(lo), Some(hi), Some(RangeExpression(lo, hi)))
  {
    var r := Resolve(candidates, constraints);
    ResolveMeaning(candidates, constraints);
    LessEqAntisymmetric(r.min.value, lo);
    LessEqAntisymmetric(r.max.value, hi);
  }

  /** The resolver's answer depends only on the set of candidates and the set of
      valid constraints: not on their order, on repetitions, or on invalid
      constraints. */
  lemma {:induction false} ResolveDeterminedBySets(c1: seq<Version>, c2: seq<Version>, a: seq<string>, b: seq<string>)
    requires forall v :: v in c1 <==> v in c2
    requires forall c :: c in a && Valid(c) <==> c in b && Valid(c)
    ensures Resolve(c1, a) == Resolve(c2, b)
  {
    var r1, r2 := Resolve(c1, a), Resolve(c2, b);
    ResolveMeaning(c1, a);
    ResolveMeaning(c2, b);
    assert forall v :: Admits(v, a) <==> Admits(v, b);
    assert HasValid(a) <==> HasValid(b);
    if r1.min.Some? {
      assert r2.min.Some?;
      LessEqAntisymmetric(r1.min.value, r2.min.value);
      LessEqAntisymmetric(r1.max.value, r2.max.value);
    } else {
      assert r2.min.None?;
    }
  }

  /** Monotonic narrowing: adding constraints to a list with a non-empty result
      never lowers `min` nor raises `max`. */
  lemma {:induction false} ResolveNarrows(candidates: seq<Version>, a: seq<string>, b: seq<string>)
    requires Resolve(candidates, a).min.Some?
    requires Resolve(candidates, a + b).min.Some?
    ensures LessEq(Resolve(candidates, a).min.value, Resolve(candidates, a + b).min.value)
    ensures LessEq(Resolve(candidates, a + b).max.value, Resolve(candidates, a).max.value)
  {
    var wide, narrow := Resolve(candidates, a), Resolve(candidates, a + b);
    ResolveMeaning(candidates, a);
    ResolveMeaning(candidates, a + b);
    assert forall v :: Admits(v, a + b) ==> Admits(v, a) by {
      forall v | Admits(v, a + b) ensures Admits(v, a) {
        forall c | c in a && Valid(c) ensures Satisfies(v, c) {
          assert c in a + b;
        }
      }
    }
    assert Admits(narrow.min.value, a) && Admits(narrow.max.value, a);
  }

  /** `getAvailableUpgradeOptions` with the current version already cleaned: the
      listed versions above the current one and inside the supported range,
      ascending. */
  function AvailableUpgradeOptions(current: Version, supported: Option<SupportedRange>, all: seq<Version>): (r: seq<Version>)
    ensures supported.None? || supported.value.min.None? ==> r == []
    ensures supported.Some? && supported.value.min.Some? ==>
      multiset(r) == multiset(UpgradeCandidates(current, supported.value.min.value, supported.value.max, all))
    ensures supported.Some? && supported.value.min.Some? ==>
      && Ascending(r)
      && forall v :: v in r <==>
           && v in all && Less(current, v) && LessEq(supported.value.min.value, v)
           && (supported.value.max.Some? ==> LessEq(v, supported.value.max.value))
  {
    if supported.None? || supported.value.min.None? then []
    else
      var kept := UpgradeCandidates(current, supported.value.min.value, supported.value.max, all);
      var r := SortAsc(kept);
      assert forall v :: v in r <==> v in kept by {
        forall v ensures v in r <==> v in kept {
          assert v in r <==> v in multiset(r);
          assert v in kept <==> v in multiset(kept);
        }
      }
      r
  }

  /** The filter step of the upgrade options, in input order. */
  function UpgradeCandidates(current: Version, min: Version, max: Option<Version>, all: seq<Version>): (r: seq<Version>)
    ensures forall v :: v in r <==>
      v in all && Less(current, v) && LessEq(min, v) && (max.Some? ==> LessEq(v, max.value))
  {
    if |all| == 0 then []
    else
      var rest := UpgradeCandidates(current, min, max, all[1..]);
      var v := all[0];
      NotLessEq(v, current);
      assert all == [v] + all[1..];
      if !LessEq(v, current) && LessEq(min, v) && (max.Some? ==> LessEq(v, max.value)) then [v] + rest
      else rest
  }

  /** The filter keeps each listed version as often as it is listed, or drops
      it entirely. */
  lemma {:induction false} UpgradeCandidatesCount(current: Version, min: Version, max: Option<Version>, all: seq<Version>)
    ensures forall v {:trigger multiset(UpgradeCandidates(current, min, max, all))[v]} ::
      multiset(UpgradeCandidates(current, min, max, all))[v] ==
      if Less(current, v) && LessEq(min, v) && (max.Some? ==> LessEq(v, max.value)) then multiset(all)[v] else 0
  {
    if |all| > 0 {
      UpgradeCandidatesCount(current, min, max, all[1..]);
      NotLessEq(all[0], current);
      assert all == [all[0]] + all[1..];
    }
  }

  /** The filter keeps input order: filtering a concatenation concatenates the
      filtered parts. */
  lemma {:induction false} UpgradeCandidatesAppend(current: Version, min: Version, max: Option<Version>,
                                                   a: seq<Version>, b: seq<Version>)
    ensures UpgradeCandidates(current, min, max, a + b) ==
      UpgradeCandidates(current, min, max, a) + UpgradeCandidates(current, min, max, b)
  {
    if |a| > 0 {
      assert (a + b)[1..] == a[1..] + b;
      UpgradeCandidatesAppend(current, min, max, a[1..], b);
    } else {
      assert a + b == b;
    }
  }

  /** A non-root record that declares a truthy `engines.node`. */
  predicate DeclaresEngine(d: Dependency) {
    !d.isRoot && Truthy(d.engineNode)
  }

  /** `getDependencyNodeVersionConstraintsFromEnriched`: the `engines.node` of every
      non-root record that declares one, in record order. */
  function ConstraintsFromEnriched(table: Option<DependencyTable>): (r: seq<string>)
    ensures table.None? ==> r == []
    ensures table.Some? ==> |r| <= |table.value|
    ensures table.Some? ==> forall c :: c in r <==>
      exists e :: e in table.value && DeclaresEngine(e.dep) && e.dep.engineNode.value == c
  {
    if table.None? then [] else EnginesExcept(table.value, None)
  }

  /** The declared engine constraints of the records whose path is not `skip`. */
  function EnginesExcept(table: DependencyTable, skip: Option<string>): (r: seq<string>)
    ensures |r| <= |table|
    ensures forall c :: c in r <==>
      exists e :: e in table && DeclaresEngine(e.dep) && Some(e.dep.path) != skip && e.dep.engineNode.value == c
  {
    if |table| == 0 then []
    else
      var rest := EnginesExcept(table[1..], skip);
      assert table == [table[0]] + table[1..];
      var d := table[0].dep;
      if DeclaresEngine(d) && Some(d.path) != skip then [d.engineNode.value] + rest else rest
  }

  /** The root constraint, when truthy, followed by the dependencies' constraints. */
  function WithRoot(root: Option<string>, rest: seq<string>): seq<string> {
    if Truthy(root) then [root.value] + rest else rest
  }

  /** The answer when nothing constrains the project: every version from 0.0.0. */
  const Unconstrained: SupportedRange := SupportedRange(Some(Release(0, 0, 0)), None, Some(">=0.0.0"))

  /** The constraints that govern a project: its own truthy `engines.node` and
      those of its non-root dependencies. */
  predicate Governs(c: string, projectConstraint: Option<string>, table: Option<DependencyTable>) {
    || (Truthy(projectConstraint) && c == projectConstraint.value)
    || (table.Some? && exists e :: e in table.value && DeclaresEngine(e.dep) && e.dep.engineNode.value == c)
  }

  /** `getNodeCompatibilityRange` with the project's own constraint passed in:
      the resolver's answer for the governing constraints, or `Unconstrained`
      when there are none. `NodeCompatibilityRangeMeaning` states that any
      listing of those constraints gives the same answer. */
  function NodeCompatibilityRange(candidates: seq<Version>, projectConstraint: Option<string>,
                                  table: Option<DependencyTable>): SupportedRange
  {
    var all := WithRoot(projectConstraint, ConstraintsFromEnriched(table));
    if |all| == 0 then Unconstrained else Resolve(candidates, all)
  }

  /** Listing the governing constraints in any order, with any repetitions:
      none gives `Unconstrained`, and otherwise the range is the resolver's
      answer for the list. */
  lemma {:induction false} NodeCompatibilityRangeMeaning(candidates: seq<Version>, projectConstraint: Option<string>,
                                                         table: Option<DependencyTable>, list: seq<string>)
    requires forall c :: c in list <==> Governs(c, projectConstraint, table)
    ensures |list| == 0 ==> NodeCompatibilityRange(candidates, projectConstraint, table) == Unconstrained
    ensures |list| > 0 ==> NodeCompatibilityRange(candidates, projectConstraint, table) == Resolve(candidates, list)
  {
    var all := WithRoot(projectConstraint, ConstraintsFromEnriched(table));
    assert forall c :: c in all <==> c in list;
    SameMembersEmpty(all, list);
    if |list| > 0 {
      ResolveDeterminedBySets(candidates, candidates, all, list);
    }
  }

  /** Two lists with the same members are both empty or both not. */
  lemma {:induction false} SameMembersEmpty<T>(a: seq<T>, b: seq<T>)
    requires forall x :: x in a <==> x in b
    ensures |a| == 0 <==> |b| == 0
  {
    if |a| > 0 {
      assert a[0] in b;
    }
    if |b| > 0 {
      assert b[0] in a;
    }
  }

  /** Why a dependency is reported: it was the only constraint at all, nothing is
      left without it, or leaving it out admits older and/or newer versions. */
  datatype Impact = Sole | Essential | Widens(older: bool, newer: bool)

  datatype Outlier = Outlier(packageName: string, packageVersion: string, constraint: string,
                             impact: Impact, rangeWithout: SupportedRange)

  /** The record is examined: non-root, with a truthy `engines.node`, and with its
      installed `package.json` read. */
  predicate Examined(d: Dependency) {
    DeclaresEngine(d) && d.hasPackageJson
  }

  /** The resolver's answer with the constraints of every record at `d`'s path
      left out. */
  function RangeWithout(candidates: seq<Version>, table: DependencyTable, d: Dependency, root: Option<string>): SupportedRange {
    Resolve(candidates, WithRoot(root, EnginesExcept(table, Some(d.path))))
  }

  /** The report `identifyNodeOutliers` makes for one record, if any. */
  function OutlierFor(candidates: seq<Version>, table: DependencyTable, project: SupportedRange,
                      root: Option<string>, d: Dependency): (r: Option<Outlier>)
    requires project.min.Some?
    ensures r.Some? ==> Examined(d) && r.value.constraint == d.engineNode.value && r.value.packageName == d.name
  {
    if !Examined(d) then None
    else
      var others := WithRoot(root, EnginesExcept(table, Some(d.path)));
      if |others| == 0 && !Truthy(root) then
        Some(Outlier(d.name, d.version, d.engineNode.value, Sole, SupportedRange(None, None, None)))
      else
        var without := Resolve(candidates, others);
        if without.min.None? then
          Some(Outlier(d.name, d.version, d.engineNode.value, Essential, without))
        else
          var older := Less(without.min.value, project.min.value);
          var newer := project.max.Some? && (without.max.None? || Less(project.max.value, without.max.value));
          if older || newer then Some(Outlier(d.name, d.version, d.engineNode.value, Widens(older, newer), without))
          else None
  }

  /** Why a record is or is not reported: a record whose removal leaves no
      range is always reported, as the sole or an essential constraint; otherwise
      it is reported exactly when its removal admits older or newer versions. */
  lemma {:induction false} OutlierForMeaning(candidates: seq<Version>, table: DependencyTable, project: SupportedRange,
                          root: Option<string>, d: Dependency)
    requires project.min.Some?
    ensures var r := OutlierFor(candidates, table, project, root, d);
      && (Examined(d) && r.None? ==> RangeWithout(candidates, table, d, root).min.Some?)
      && (Examined(d) && RangeWithout(candidates, table, d, root).min.None? ==>
            r.Some? && r.value.impact in {Sole, Essential})
      && (r.Some? && r.value.impact.Widens? ==>
            var w := RangeWithout(candidates, table, d, root);
            && w.min.Some? && r.value.rangeWithout == w
            && (r.value.impact.older <==> Less(w.min.value, project.min.value))
            && (r.value.impact.newer <==> project.max.Some? && (w.max.None? || Less(project.max.value, w.max.value)))
            && (r.value.impact.older || r.value.impact.newer))
      && (Examined(d) ==> OutlierShape(candidates, table, project, root, d))
  {
    var r := OutlierFor(candidates, table, project, root, d);
    if Examined(d) {
      OutlierReported(candidates, table, project, root, d);
    }
    if Examined(d) && r.None? {
      OutlierKept(candidates, table, project, root, d);
    }
    if Examined(d) && RangeWithout(candidates, table, d, root).min.None? {
      OutlierRequired(candidates, table, project, root, d);
    }
    if r.Some? && r.value.impact.Widens? {
      OutlierWidens(candidates, table, project, root, d);
    }
  }

  /** The report of an examined record, read off the range without it: when
      that range exists, the record is reported exactly when the range admits
      older or newer versions, and then as `Widens` with those two flags and
      that range; a `Sole` report carries the empty range and an `Essential`
      one the range without the record. */
  ghost predicate OutlierShape(candidates: seq<Version>, table: DependencyTable, project: SupportedRange,
                               root: Option<string>, d: Dependency)
    requires project.min.Some?
  {
    var r := OutlierFor(candidates, table, project, root, d);
    var w := RangeWithout(candidates, table, d, root);
    && (w.min.Some? ==>
          var older := Less(w.min.value, project.min.value);
          var newer := project.max.Some? && (w.max.None? || Less(project.max.value, w.max.value));
          && (r.Some? <==> older || newer)
          && (r.Some? ==> r.value.impact == Widens(older, newer) && r.value.rangeWithout == w))
    && (r.Some? && r.value.impact == Sole ==> r.value.rangeWithout == NoRange)
    && (r.Some? && r.value.impact == Essential ==> r.value.rangeWithout == w)
  }

  /** Every examined record's report has the shape `OutlierShape` describes. */
  lemma {:induction false} OutlierReported(candidates: seq<Version>, table: DependencyTable, project: SupportedRange,
                                           root: Option<string>, d: Dependency)
    requires project.min.Some? && Examined(d)
    ensures OutlierShape(candidates, table, project, root, d)
  {
    var others := WithRoot(root, EnginesExcept(table, Some(d.path)));
    if |others| == 0 {
      assert Resolve(candidates, others) == NoRange;
    }
  }

  /** An examined record that is not reported leaves a range behind. */
  lemma {:induction false} OutlierKept(candidates: seq<Version>, table: DependencyTable, project: SupportedRange,
                                       root: Option<string>, d: Dependency)
    requires project.min.Some? && Examined(d)
    requires OutlierFor(candidates, table, project, root, d).None?
    ensures RangeWithout(candidates, table, d, root).min.Some?
  {
    var others := WithRoot(root, EnginesExcept(table, Some(d.path)));
    if |others| == 0 {
      assert Resolve(candidates, others) == NoRange;
    }
  }

  /** An examined record whose removal leaves no range is the sole or an
      essential constraint. */
  lemma {:induction false} OutlierRequired(candidates: seq<Version>, table: DependencyTable, project: SupportedRange,
                                           root: Option<string>, d: Dependency)
    requires project.min.Some? && Examined(d)
    requires RangeWithout(candidates, table, d, root).min.None?
    ensures OutlierFor(candidates, table, project, root, d).Some?
    ensures OutlierFor(candidates, table, project, root, d).value.impact in {Sole, Essential}
  {
  }

  /** A widening report carries the range without the record and says which
      bound moved. */
  lemma {:induction false} OutlierWidens(candidates: seq<Version>, table: DependencyTable, project: SupportedRange,
                                         root: Option<string>, d: Dependency)
    requires project.min.Some?
    requires OutlierFor(candidates, table, project, root, d).Some?
    requires OutlierFor(candidates, table, project, root, d).value.impact.Widens?
    ensures var r := OutlierFor(candidates, table, project, root, d).value;
      var w := RangeWithout(candidates, table, d, root);
      && w.min.Some? && r.rangeWithout == w
      && (r.impact.older <==> Less(w.min.value, project.min.value))
      && (r.impact.newer <==> project.max.Some? && (w.max.None? || Less(project.max.value, w.max.value)))
      && (r.impact.older || r.impact.newer)
  {
  }

  /** `identifyNodeOutliers`: the reports for the records of the table, in order;
      none when the table or the project range's `min` is absent. Which records
      are reported is stated by `NodeOutliersMembers`. */
  function NodeOutliers(candidates: seq<Version>, table: Option<DependencyTable>, project: Option<SupportedRange>,
                        root: Option<string>): (r: seq<Outlier>)
    ensures table.None? || project.None? || project.value.min.None? ==> r == []
    ensures table.Some? ==> |r| <= |table.value|
  {
    if table.None? || project.None? || project.value.min.None? then []
    else Reports(candidates, table.value, project.value, root, table.value)
  }

  /** Every record with a report has it listed, and every listed report belongs
      to a record of the table. */
  lemma {:induction false} NodeOutliersMembers(candidates: seq<Version>, table: DependencyTable, project: SupportedRange,
                                               root: Option<string>)
    requires project.min.Some?
    ensures var r := NodeOutliers(candidates, Some(table), Some(project), root);
      && (forall e :: e in table && OutlierFor(candidates, table, project, root, e.dep).Some? ==>
            OutlierFor(candidates, table, project, root, e.dep).value in r)
      && (forall o :: o in r ==> exists e :: e in table && OutlierFor(candidates, table, project, root, e.dep) == Some(o))
  {
    ReportsMembers(candidates, table, project, root, table);
  }

  function Reports(candidates: seq<Version>, table: DependencyTable, project: SupportedRange,
                   root: Option<string>, todo: DependencyTable): (r: seq<Outlier>)
    requires project.min.Some?
    ensures |r| <= |todo|
  {
    if |todo| == 0 then []
    else
      var rest := Reports(candidates, table, project, root, todo[1..]);
      match OutlierFor(candidates, table, project, root, todo[0].dep)
      case Some(o) => [o] + rest
      case None => rest
  }

  /** Reports come out in record order: reporting on a concatenation
      concatenates the reports of its parts. */
  lemma {:induction false} ReportsAppend(candidates: seq<Version>, table: DependencyTable, project: SupportedRange,
                                         root: Option<string>, a: DependencyTable, b: DependencyTable)
    requires project.min.Some?
    ensures Reports(candidates, table, project, root, a + b) ==
      Reports(candidates, table, project, root, a) + Reports(candidates, table, project, root, b)
  {
    if |a| > 0 {
      assert (a + b)[1..] == a[1..] + b;
      ReportsAppend(candidates, table, project, root, a[1..], b);
    } else {
      assert a + b == b;
    }
  }

  /** Every report of a listed record is made, and only those. */
  lemma {:induction false} ReportsMembers(candidates: seq<Version>, table: DependencyTable, project: SupportedRange,
                                          root: Option<string>, todo: DependencyTable)
    requires project.min.Some?
    ensures var r := Reports(candidates, table, project, root, todo);
      && (forall e :: e in todo && OutlierFor(candidates, table, project, root, e.dep).Some? ==>
            OutlierFor(candidates, table, project, root, e.dep).value in r)
      && (forall o :: o in r ==> exists e :: e in todo && OutlierFor(candidates, table, project, root, e.dep) == Some(o))
  {
    if |todo| > 0 {
      ReportsMembers(candidates, table, project, root, todo[1..]);
      assert todo == [todo[0]] + todo[1..];
    }
  }

  /** The constraints the project range is computed from. */
  function AllConstraints(table: DependencyTable, root: Option<string>): seq<string> {
    WithRoot(root, EnginesExcept(table, None))
  }

  /** Non-root records have distinct paths, as lockfile keys do. */
  predicate DistinctPaths(table: DependencyTable) {
    forall i, j :: 0 <= i < j < |table| && !table[i].dep.isRoot && !table[j].dep.isRoot ==>
      table[i].dep.path != table[j].dep.path
  }

  /** Leaving out the records at one record's path leaves out only its own
      constraint, when paths are distinct. */
  lemma {:induction false} AllConstraintsSplit(table: DependencyTable, root: Option<string>, e: Entry)
    requires e in table && DeclaresEngine(e.dep) && DistinctPaths(table)
    ensures forall c :: c in AllConstraints(table, root) <==>
      c in WithRoot(root, EnginesExcept(table, Some(e.dep.path))) + [e.dep.engineNode.value]
  {
    var others := WithRoot(root, EnginesExcept(table, Some(e.dep.path)));
    forall c | c in AllConstraints(table, root) && c != e.dep.engineNode.value && !(Truthy(root) && c == root.value)
      ensures c in others
    {
      var x :| x in table && DeclaresEngine(x.dep) && x.dep.engineNode.value == c;
      var i :| 0 <= i < |table| && table[i] == x;
      var j :| 0 <= j < |table| && table[j] == e;
      assert x.dep.path != e.dep.path by {
        assert i != j;
        if i < j {
          assert table[i].dep.path != table[j].dep.path;
        } else {
          assert table[j].dep.path != table[i].dep.path;
        }
      }
    }
  }

  /** When the project range is the resolver's answer for all the constraints, a
      record is reported exactly when leaving its constraint out changes `min` or
      `max`. */
  lemma {:induction false} OutlierIffChanges(candidates: seq<Version>, table: DependencyTable, root: Option<string>, e: Entry)
    requires e in table && Examined(e.dep) && DistinctPaths(table)
    requires Resolve(candidates, AllConstraints(table, root)).min.Some?
    ensures var project := Resolve(candidates, AllConstraints(table, root));
      var w := RangeWithout(candidates, table, e.dep, root);
      OutlierFor(candidates, table, project, root, e.dep).Some? <==> (w.min != project.min || w.max != project.max)
  {
    var project := Resolve(candidates, AllConstraints(table, root));
    var others := WithRoot(root, EnginesExcept(table, Some(e.dep.path)));
    var w := Resolve(candidates, others);
    OutlierForMeaning(candidates, table, project, root, e.dep);
    AllConstraintsSplit(table, root, e);
    ResolveDeterminedBySets(candidates, candidates, AllConstraints(table, root), others + [e.dep.engineNode.value]);
    if w.min.Some? {
      NarrowerProject(candidates, others, e.dep.engineNode.value, project);
    }
  }

  /** Adding one constraint to those left over narrows their range; the report
      condition is then a change of bound. */
  lemma {:induction false} NarrowerProject(candidates: seq<Version>, others: seq<string>, c: string, project: SupportedRange)
    requires project == Resolve(candidates, others + [c]) && project.min.Some?
    requires Resolve(candidates, others).min.Some?
    ensures var w := Resolve(candidates, others);
      (Less(w.min.value, project.min.value) || Less(project.max.value, w.max.value)) <==>
      (w.min != project.min || w.max != project.max)
  {
    ResolveNarrows(candidates, others, [c]);
    WidensIffChanges(project, Resolve(candidates, others));
  }

  /** For a narrower `project` inside `w`, leaving out admits older or newer
      versions exactly when the bounds differ. */
  lemma {:induction false} WidensIffChanges(project: SupportedRange, w: SupportedRange)
    requires project.min.Some? && project.max.Some? && w.min.Some? && w.max.Some?
    requires LessEq(w.min.value, project.min.value) && LessEq(project.max.value, w.max.value)
    ensures (Less(w.min.value, project.min.value) || Less(project.max.value, w.max.value)) <==>
      (w.min != project.min || w.max != project.max)
  {
    if Less(w.min.value, project.min.value) {
      LessIrreflexive(w.min.value);
    }
    if Less(project.max.value, w.max.value) {
      LessIrreflexive(w.max.value);
    }
  }
}
