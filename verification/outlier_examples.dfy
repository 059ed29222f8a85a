/** The outlier scenarios of the node-env test suite, worked out on the model. */
module OutlierExamples {
  import opened Wrappers
  import opened SemVer
  import opened Comparators
  import opened RangeText
  import opened VersionLists
  import opened Lockfile
  import opened Text
  import opened NodeEnv
  import opened NodeEnvFixtures

  // ----- identifyNodeOutliers -----

  /** The candidate table the outlier tests install through a spy. */
  const SpyTable: seq<Version> := [V16, Release(17, 0, 0), V18, V18_9_9, V18_18, Release(19, 0, 0), V20, V22]

  function TestDependency(name: string, path: string, isRoot: bool, engine: string): Dependency {
    Dependency(name, "1.0.0", path, false, false, map[], map[], None, None, isRoot, true, Some(engine), None)
  }

  /** The outlier tests' records: a root and three dependencies with constraints
      `a` (caps the maximum), `b` (raises the minimum) and `c` (conforms). */
  function ScenarioTable(root: string, a: string, b: string, c: string): DependencyTable {
    [ Entry("/", TestDependency("root", "/", true, root)),
      Entry("depA_limits_max", TestDependency("depA_limits_max", "depA", false, a)),
      Entry("depB_limits_min", TestDependency("depB_limits_min", "depB", false, b)),
      Entry("depC_conforming", TestDependency("depC_conforming", "depC", false, c)) ]
  }

  /** The scenario's texts read as its comparators. */
  predicate ScenarioTexts(root: string, a: string, b: string, c: string) {
    && Reads(root, [Comparator(Ge, V16), Comparator(Le, V22)])
    && Reads(a, [Comparator(Le, V18_9_9)])
    && Reads(b, [Comparator(Ge, V18)])
    && Reads(c, [Comparator(Ge, V16), Comparator(Le, V20)])
  }

  lemma {:induction false} ScenarioTextsNonEmpty(root: string, a: string, b: string, c: string)
    requires ScenarioTexts(root, a, b, c)
    ensures root != "" && a != "" && b != "" && c != ""
  {
  }

  /** The engine constraints of the scenario's records, with those at one path
      left out. */
  lemma {:induction false} ScenarioEngines(root: string, a: string, b: string, c: string)
    requires root != "" && a != "" && b != "" && c != ""
    ensures EnginesExcept(ScenarioTable(root, a, b, c), None) == [a, b, c]
    ensures EnginesExcept(ScenarioTable(root, a, b, c), Some("depA")) == [b, c]
    ensures EnginesExcept(ScenarioTable(root, a, b, c), Some("depB")) == [a, c]
    ensures EnginesExcept(ScenarioTable(root, a, b, c), Some("depC")) == [a, b]
  {
    var t := ScenarioTable(root, a, b, c);
    assert "depA"[3] != "depB"[3] && "depA"[3] != "depC"[3] && "depB"[3] != "depC"[3];
    assert !DeclaresEngine(t[0].dep);
    assert DeclaresEngine(t[1].dep) && DeclaresEngine(t[2].dep) && DeclaresEngine(t[3].dep);
    assert t[1..][1..][1..][1..] == [];
    EnginesSkipping(t, None);
    EnginesSkipping(t, Some("depA"));
    EnginesSkipping(t, Some("depB"));
    EnginesSkipping(t, Some("depC"));
  }

  /** `EnginesExcept` on a four-record table, unfolded. */
  lemma {:induction false} EnginesSkipping(t: DependencyTable, skip: Option<string>)
    requires |t| == 4 && !DeclaresEngine(t[0].dep)
    requires DeclaresEngine(t[1].dep) && DeclaresEngine(t[2].dep) && DeclaresEngine(t[3].dep)
    ensures EnginesExcept(t, skip) ==
      (if Some(t[1].dep.path) != skip then [t[1].dep.engineNode.value] else [])
      + (if Some(t[2].dep.path) != skip then [t[2].dep.engineNode.value] else [])
      + (if Some(t[3].dep.path) != skip then [t[3].dep.engineNode.value] else [])
  {
    var t1 := t[1..];
    var t2 := t1[1..];
    var t3 := t2[1..];
    assert t3[1..] == [];
    var e3 := if Some(t[3].dep.path) != skip then [t[3].dep.engineNode.value] else [];
    var e2 := if Some(t[2].dep.path) != skip then [t[2].dep.engineNode.value] else [];
    var e1 := if Some(t[1].dep.path) != skip then [t[1].dep.engineNode.value] else [];
    assert t3[0] == t[3] && t2[0] == t[2] && t1[0] == t[1];
    assert EnginesExcept(t3, skip) == e3;
    assert EnginesExcept(t2, skip) == e2 + e3;
    assert EnginesExcept(t1, skip) == e1 + (e2 + e3);
  }

  /** What the scenario's constraint lists admit. */
  lemma {:induction false} ScenarioAdmits(v: Version, root: string, a: string, b: string, c: string)
    requires ScenarioTexts(root, a, b, c)
    ensures Admits(v, [root, a, b, c]) <==> LessEq(V18, v) && LessEq(v, V18_9_9)
    ensures Admits(v, [root, b, c]) <==> LessEq(V18, v) && LessEq(v, V20)
    ensures Admits(v, [root, a, c]) <==> LessEq(V16, v) && LessEq(v, V18_9_9)
    ensures Admits(v, [root, a, b]) <==> LessEq(V18, v) && LessEq(v, V18_9_9)
  {
    SatisfiesTwo(v, root, Comparator(Ge, V16), Comparator(Le, V22));
    SatisfiesOne(v, a, Comparator(Le, V18_9_9));
    SatisfiesOne(v, b, Comparator(Ge, V18));
    SatisfiesTwo(v, c, Comparator(Ge, V16), Comparator(Le, V20));
    AdmitsFour(v, root, a, b, c);
    AdmitsThree(v, root, b, c);
    AdmitsThree(v, root, a, c);
    AdmitsThree(v, root, a, b);
  }

  /** A list whose admitted candidates run from `lo` to `hi`, both admitted,
      resolves to `lo` .. `hi`. */
  lemma {:induction false} ResolvesTo(candidates: seq<Version>, cs: seq<string>, lo: Version, hi: Version)
    requires |cs| > 0 && Valid(cs[0])
    requires lo in candidates && hi in candidates && Admits(lo, cs) && Admits(hi, cs)
    requires forall v :: v in candidates && Admits(v, cs) ==> LessEq(lo, v) && LessEq(v, hi)
    ensures Resolve(candidates, cs) == SpyRange(lo, hi)
  {
    assert cs[0] in cs;
    ResolveIs(candidates, cs, lo, hi);
  }

  function SpyRange(lo: Version, hi: Version): SupportedRange {
    SupportedRange(Some(lo), Some(hi), Some(RangeExpression(lo, hi)))
  }

  /** All four constraints: 18.0.0 .. 18.9.9 on any table listing both ends. */
  lemma {:induction false} ResolveAllFour(candidates: seq<Version>, root: string, a: string, b: string, c: string)
    requires ScenarioTexts(root, a, b, c) && V18 in candidates && V18_9_9 in candidates
    ensures Resolve(candidates, [root, a, b, c]) == SpyRange(V18, V18_9_9)
  {
    SatisfiesTwo(V16, root, Comparator(Ge, V16), Comparator(Le, V22));
    ScenarioAdmits(V18, root, a, b, c);
    ScenarioAdmits(V18_9_9, root, a, b, c);
    forall v | v in candidates && Admits(v, [root, a, b, c]) ensures LessEq(V18, v) && LessEq(v, V18_9_9) {
      ScenarioAdmits(v, root, a, b, c);
    }
    ResolvesTo(candidates, [root, a, b, c], V18, V18_9_9);
  }

  /** Without depA: 18.0.0 .. 20.0.0 on the spy's table. */
  lemma {:induction false} ResolveWithoutA(root: string, a: string, b: string, c: string)
    requires ScenarioTexts(root, a, b, c)
    ensures Resolve(SpyTable, [root, b, c]) == SpyRange(V18, V20)
  {
    SatisfiesTwo(V16, root, Comparator(Ge, V16), Comparator(Le, V22));
    ScenarioAdmits(V18, root, a, b, c);
    ScenarioAdmits(V20, root, a, b, c);
    forall v | v in SpyTable && Admits(v, [root, b, c]) ensures LessEq(V18, v) && LessEq(v, V20) {
      ScenarioAdmits(v, root, a, b, c);
    }
    ResolvesTo(SpyTable, [root, b, c], V18, V20);
  }

  /** Without depB: 16.0.0 .. 18.9.9 on the spy's table. */
  lemma {:induction false} ResolveWithoutB(root: string, a: string, b: string, c: string)
    requires ScenarioTexts(root, a, b, c)
    ensures Resolve(SpyTable, [root, a, c]) == SpyRange(V16, V18_9_9)
  {
    SatisfiesTwo(V16, root, Comparator(Ge, V16), Comparator(Le, V22));
    ScenarioAdmits(V16, root, a, b, c);
    ScenarioAdmits(V18_9_9, root, a, b, c);
    forall v | v in SpyTable && Admits(v, [root, a, c]) ensures LessEq(V16, v) && LessEq(v, V18_9_9) {
      ScenarioAdmits(v, root, a, b, c);
    }
    ResolvesTo(SpyTable, [root, a, c], V16, V18_9_9);
  }

  /** Without depC: 18.0.0 .. 18.9.9 on the spy's table, as with it. */
  lemma {:induction false} ResolveWithoutC(root: string, a: string, b: string, c: string)
    requires ScenarioTexts(root, a, b, c)
    ensures Resolve(SpyTable, [root, a, b]) == SpyRange(V18, V18_9_9)
  {
    SatisfiesTwo(V16, root, Comparator(Ge, V16), Comparator(Le, V22));
    ScenarioAdmits(V18, root, a, b, c);
    ScenarioAdmits(V18_9_9, root, a, b, c);
    forall v | v in SpyTable && Admits(v, [root, a, b]) ensures LessEq(V18, v) && LessEq(v, V18_9_9) {
      ScenarioAdmits(v, root, a, b, c);
    }
    ResolvesTo(SpyTable, [root, a, b], V18, V18_9_9);
  }

  /** The constraints left when one record's are left out. */
  lemma {:induction false} ScenarioLists(root: string, a: string, b: string, c: string)
    requires root != "" && a != "" && b != "" && c != ""
    ensures AllConstraints(ScenarioTable(root, a, b, c), Some(root)) == [root, a, b, c]
    ensures WithRoot(Some(root), EnginesExcept(ScenarioTable(root, a, b, c), Some("depA"))) == [root, b, c]
    ensures WithRoot(Some(root), EnginesExcept(ScenarioTable(root, a, b, c), Some("depB"))) == [root, a, c]
    ensures WithRoot(Some(root), EnginesExcept(ScenarioTable(root, a, b, c), Some("depC"))) == [root, a, b]
  {
    ScenarioEngines(root, a, b, c);
  }

  /** The report of an examined record whose removal still leaves a range. */
  lemma {:induction false} ReportWhenRangeLeft(candidates: seq<Version>, t: DependencyTable, p: SupportedRange, root: Option<string>,
                            d: Dependency, w: SupportedRange)
    requires p.min.Some? && Examined(d) && Truthy(root)
    requires RangeWithout(candidates, t, d, root) == w && w.min.Some?
    ensures var older := Less(w.min.value, p.min.value);
      var newer := p.max.Some? && (w.max.None? || Less(p.max.value, w.max.value));
      OutlierFor(candidates, t, p, root, d)
        == if older || newer then Some(Outlier(d.name, d.version, d.engineNode.value, Widens(older, newer), w)) else None
  {
  }

  /** depA caps the maximum: without it, 20.0.0 is admitted. */
  lemma {:induction false} ReportForA(root: string, a: string, b: string, c: string)
    requires ScenarioTexts(root, a, b, c)
    ensures var t := ScenarioTable(root, a, b, c);
      OutlierFor(SpyTable, t, SpyRange(V18, V18_9_9), Some(root), t[1].dep)
        == Some(Outlier("depA_limits_max", "1.0.0", a, Widens(false, true), SpyRange(V18, V20)))
  {
    var t := ScenarioTable(root, a, b, c);
    ScenarioTextsNonEmpty(root, a, b, c);
    ScenarioLists(root, a, b, c);
    ResolveWithoutA(root, a, b, c);
    ReportWhenRangeLeft(SpyTable, t, SpyRange(V18, V18_9_9), Some(root), t[1].dep, SpyRange(V18, V20));
    LessIrreflexive(V18);
  }

  /** depB raises the minimum: without it, 16.0.0 is admitted. */
  lemma {:induction false} ReportForB(root: string, a: string, b: string, c: string)
    requires ScenarioTexts(root, a, b, c)
    ensures var t := ScenarioTable(root, a, b, c);
      OutlierFor(SpyTable, t, SpyRange(V18, V18_9_9), Some(root), t[2].dep)
        == Some(Outlier("depB_limits_min", "1.0.0", b, Widens(true, false), SpyRange(V16, V18_9_9)))
  {
    var t := ScenarioTable(root, a, b, c);
    ScenarioTextsNonEmpty(root, a, b, c);
    ScenarioLists(root, a, b, c);
    ResolveWithoutB(root, a, b, c);
    ReportWhenRangeLeft(SpyTable, t, SpyRange(V18, V18_9_9), Some(root), t[2].dep, SpyRange(V16, V18_9_9));
    LessIrreflexive(V18_9_9);
  }

  /** depC changes nothing, and the root is never examined. */
  lemma {:induction false} NoReportForRootOrC(root: string, a: string, b: string, c: string)
    requires ScenarioTexts(root, a, b, c)
    ensures var t := ScenarioTable(root, a, b, c);
      && OutlierFor(SpyTable, t, SpyRange(V18, V18_9_9), Some(root), t[0].dep) == None
      && OutlierFor(SpyTable, t, SpyRange(V18, V18_9_9), Some(root), t[3].dep) == None
  {
    var t := ScenarioTable(root, a, b, c);
    ScenarioTextsNonEmpty(root, a, b, c);
    ScenarioLists(root, a, b, c);
    ResolveWithoutC(root, a, b, c);
    ReportWhenRangeLeft(SpyTable, t, SpyRange(V18, V18_9_9), Some(root), t[3].dep, SpyRange(V18, V18_9_9));
    LessIrreflexive(V18);
    LessIrreflexive(V18_9_9);
  }

  /** `Reports` takes the first record's report, then the rest. */
  lemma {:induction false} ReportsStep(candidates: seq<Version>, t: DependencyTable, p: SupportedRange, root: Option<string>,
                    todo: DependencyTable, first: Option<Outlier>, rest: seq<Outlier>)
    requires |todo| > 0 && p.min.Some?
    requires OutlierFor(candidates, t, p, root, todo[0].dep) == first
    requires Reports(candidates, t, p, root, todo[1..]) == rest
    ensures Reports(candidates, t, p, root, todo) == AsList(first) + rest
  {
  }

  function AsList(o: Option<Outlier>): seq<Outlier> {
    match o
    case Some(x) => [x]
    case None => []
  }

  /** The project range of the scenario on the spy's table. */
  lemma {:induction false} SpyProjectFor(root: string, a: string, b: string, c: string)
    requires ScenarioTexts(root, a, b, c)
    ensures Resolve(SpyTable, AllConstraints(ScenarioTable(root, a, b, c), Some(root))) == SpyRange(V18, V18_9_9)
  {
    ScenarioTextsNonEmpty(root, a, b, c);
    ScenarioLists(root, a, b, c);
    ResolveAllFour(SpyTable, root, a, b, c);
  }

  /** Four records of which the middle two are reported. */
  lemma {:induction false} MiddleTwoReported(candidates: seq<Version>, t: DependencyTable, p: SupportedRange, root: Option<string>,
                          o1: Outlier, o2: Outlier)
    requires |t| == 4 && p.min.Some?
    requires OutlierFor(candidates, t, p, root, t[0].dep) == None
    requires OutlierFor(candidates, t, p, root, t[1].dep) == Some(o1)
    requires OutlierFor(candidates, t, p, root, t[2].dep) == Some(o2)
    requires OutlierFor(candidates, t, p, root, t[3].dep) == None
    ensures NodeOutliers(candidates, Some(t), Some(p), root) == [o1, o2]
  {
    var t1 := t[1..];
    var t2 := t1[1..];
    var t3 := t2[1..];
    assert t3[1..] == [];
    assert t3[0] == t[3] && t2[0] == t[2] && t1[0] == t[1];
    ReportsStep(candidates, t, p, root, t3, None, []);
    ReportsStep(candidates, t, p, root, t2, Some(o2), []);
    ReportsStep(candidates, t, p, root, t1, Some(o1), [o2]);
    ReportsStep(candidates, t, p, root, t, None, [o1, o2]);
  }

  /** The outlier reports for any texts that read as the scenario's constraints. */
  lemma {:induction false} SpyOutliersFor(root: string, a: string, b: string, c: string)
    requires ScenarioTexts(root, a, b, c)
    ensures NodeOutliers(SpyTable, Some(ScenarioTable(root, a, b, c)), Some(SpyRange(V18, V18_9_9)), Some(root)) == [
      Outlier("depA_limits_max", "1.0.0", a, Widens(false, true), SpyRange(V18, V20)),
      Outlier("depB_limits_min", "1.0.0", b, Widens(true, false), SpyRange(V16, V18_9_9))]
  {
    ReportForA(root, a, b, c);
    ReportForB(root, a, b, c);
    NoReportForRootOrC(root, a, b, c);
    MiddleTwoReported(SpyTable, ScenarioTable(root, a, b, c), SpyRange(V18, V18_9_9), Some(root),
      Outlier("depA_limits_max", "1.0.0", a, Widens(false, true), SpyRange(V18, V20)),
      Outlier("depB_limits_min", "1.0.0", b, Widens(true, false), SpyRange(V16, V18_9_9)));
  }

  const RootConstraint: string := ">=16.0.0 <=22.0.0"

  const OutlierTable: DependencyTable := ScenarioTable(RootConstraint, "<=18.9.9", ">=18.0.0", ">=16.0.0 <=20.0.0")

  lemma {:induction false} ScenarioTextsHold()
    ensures ScenarioTexts(RootConstraint, "<=18.9.9", ">=18.0.0", ">=16.0.0 <=20.0.0")
  {
    ReadsRoot();
    ReadsLe18_9_9();
    ReadsGe18();
    ReadsConforming();
  }

  /** The outlier scenario on the spy's table: the project range is `18.0.0` ..
      `18.9.9`; depA is reported for allowing newer versions (up to 20.0.0
      without it), depB for allowing older ones (down to 16.0.0), and nothing
      else. */
  lemma {:induction false} SpyOutliers()
    ensures Resolve(SpyTable, AllConstraints(OutlierTable, Some(RootConstraint))) == SpyRange(V18, V18_9_9)
    ensures NodeOutliers(SpyTable, Some(OutlierTable), Some(SpyRange(V18, V18_9_9)), Some(RootConstraint)) == [
      Outlier("depA_limits_max", "1.0.0", "<=18.9.9", Widens(false, true), SpyRange(V18, V20)),
      Outlier("depB_limits_min", "1.0.0", ">=18.0.0", Widens(true, false), SpyRange(V16, V18_9_9))]
  {
    ScenarioTextsHold();
    SpyProjectFor(RootConstraint, "<=18.9.9", ">=18.0.0", ">=16.0.0 <=20.0.0");
    SpyOutliersFor(RootConstraint, "<=18.9.9", ">=18.0.0", ">=16.0.0 <=20.0.0");
  }

  /** In the real table, 18.4.0 is the last version up to 18.9.9. */
  lemma {:induction false} BelowAt(v: Version)
    requires KnownRelease(v) || Synthesized(v)
    requires LessEq(V18, v) && LessEq(v, V18_9_9)
    ensures LessEq(v, V18_4)
  {
    Major18(v);
    Minor4(v);
  }

  lemma {:induction false} Major18(v: Version)
    requires LessEq(V18, v) && LessEq(v, V18_9_9)
    ensures v.major == 18 && v.minor <= 9
  {
  }

  lemma {:induction false} Minor4(v: Version)
    requires KnownRelease(v) || Synthesized(v)
    requires v.major == 18 && v.minor <= 9
    ensures v.minor <= 4 && v.patch == 0 && v.pre.None?
  {
    if !Synthesized(v) {
      assert false;
    }
  }

  /** On a table drawn from the known LTS and the synthesized versions and
      listing 18.0.0 and 18.4.0, the scenario's constraints give `18.0.0` .. `18.4.0`. */
  lemma {:induction false} RealRangeFor(candidates: seq<Version>, root: string, a: string, b: string, c: string)
    requires ScenarioTexts(root, a, b, c) && V18 in candidates && V18_4 in candidates
    requires RealTable(candidates)
    ensures Resolve(candidates, AllConstraints(ScenarioTable(root, a, b, c), Some(root))) == SpyRange(V18, V18_4)
  {
    ScenarioTextsNonEmpty(root, a, b, c);
    ScenarioLists(root, a, b, c);
    SatisfiesTwo(V16, root, Comparator(Ge, V16), Comparator(Le, V22));
    ScenarioAdmits(V18, root, a, b, c);
    ScenarioAdmits(V18_4, root, a, b, c);
    forall v | v in candidates && Admits(v, [root, a, b, c]) ensures LessEq(V18, v) && LessEq(v, V18_4) {
      ScenarioAdmits(v, root, a, b, c);
      BelowAt(v);
    }
    ResolvesTo(candidates, [root, a, b, c], V18, V18_4);
  }

  /** The outlier tests' spy has no effect on the module's own call, so the real
      table decides: there the scenario's constraints give `18.0.0` .. `18.4.0`,
      not the `18.9.9` the tests expect. */
  lemma {:induction false} RealProjectRange(t: seq<Version>)
    requires RealTable(t)
    ensures Resolve(t, AllConstraints(OutlierTable, Some(RootConstraint))) == SpyRange(V18, V18_4)
  {
    ScenarioTextsHold();
    assert Synthesized(V18) && Synthesized(V18_4);
    RealRangeFor(t, RootConstraint, "<=18.9.9", ">=18.0.0", ">=16.0.0 <=20.0.0");
  }
}
