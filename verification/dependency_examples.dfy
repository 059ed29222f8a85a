/** The classifier scenarios of the packman dependency-manager tests, worked
    out on the model. */
module DependencyExamples {
  import opened Wrappers
  import opened SemVer
  import opened Comparators
  import opened RangeText
  import opened VersionLists
  import opened Lockfile
  import opened Text
  import opened NodeEnv
  import opened NodeEnvFixtures
  import opened DependencyManager

  const V1_0: Version := Release(1, 0, 0)
  const V1_1: Version := Release(1, 1, 0)
  const V1_2: Version := Release(1, 2, 0)
  const V20_9: Version := Release(20, 9, 0)

  /** 2023-01-01, 2023-02-01 and 2023-03-01 at midnight UTC, in milliseconds. */
  const Jan1: int := 1672531200000
  const Feb1: int := 1675209600000
  const Mar1: int := 1677628800000

  /** The tests' installed package `pkg-a` at version `iv` with engine `engine`. */
  function PkgA(iv: string, engine: string): Dependency {
    Dependency("pkg-a", iv, "node_modules/pkg-a", false, false, map[], map[], None, None, false, true, Some(engine), None)
  }

  /** The tests' project range, 18.0.0 to 20.9.0, printed as `range`. */
  function Project(range: string): Option<SupportedRange> {
    Some(SupportedRange(Some(V18), Some(V20_9), Some(range)))
  }

  /** The scenario's texts read as its versions and comparators. */
  predicate ScenarioTexts(iv: string, range: string, e16: string, e18: string, e22: string) {
    && ParseVersion(iv) == Some(V1_0)
    && Reads(range, [Comparator(Ge, V18), Comparator(Le, V20_9)])
    && Reads(e16, [Comparator(Ge, V16)])
    && Reads(e18, [Comparator(Ge, V18)])
    && Reads(e22, [Comparator(Ge, V22)])
  }

  /** The project range admits a common version with `>=16` and `>=18`
      (18.0.0 itself) and none with `>=22`. */
  lemma {:induction false} RangeFits(iv: string, range: string, e16: string, e18: string, e22: string)
    requires ScenarioTexts(iv, range, e16, e18, e22)
    ensures IntersectsText(range, e16) == Some(true)
    ensures IntersectsText(range, e18) == Some(true)
    ensures IntersectsText(range, e22) == Some(false)
  {
    SatisfiesTwo(V18, range, Comparator(Ge, V18), Comparator(Le, V20_9));
    SatisfiesOne(V18, e16, Comparator(Ge, V16));
    SatisfiesOne(V18, e18, Comparator(Ge, V18));
    IntersectsTextMeaning(range, e16);
    IntersectsTextMeaning(range, e18);
    IntersectsTextMeaning(range, e22);
    forall v | Satisfies(v, range) ensures !Satisfies(v, e22) {
      SatisfiesTwo(v, range, Comparator(Ge, V18), Comparator(Le, V20_9));
      SatisfiesOne(v, e22, Comparator(Ge, V22));
    }
  }

  /** The first filter on two registry versions. */
  lemma {:induction false} AboveTwo(a: Published, b: Published, v: Version)
    ensures Above([a, b], v) == (if Less(v, a.version) then [a] else []) + (if Less(v, b.version) then [b] else [])
  {
    assert [a, b][1..] == [b];
    assert [b][1..] == [];
  }

  /** The first filter on the installed 1.0.0 and one newer version. */
  lemma {:induction false} NewerThanInstalled(iv: string, first: Published, next: Published)
    requires ParseVersion(iv) == Some(V1_0) && first.version == V1_0 && next.version.pre.None?
    requires next.version.major == 1 && next.version.minor > 0
    ensures Newer([first, next], iv) == Success([next])
  {
    AboveTwo(first, next, V1_0);
    LessIrreflexive(V1_0);
    assert Less(V1_0, next.version);
    assert [] + [next] == [next];
  }

  /** The engine filter on one registry version. */
  lemma {:induction false} EngineFilterOne(range: string, p: Published, e: Option<string>)
    requires EngineKeeps(range, p, e).Success?
    ensures EngineFilter(range, [p], e) == Success(if EngineKeeps(range, p, e).value then [p] else [])
  {
    assert [p][1..] == [];
    assert EngineFilter(range, [], e) == Success([]);
    assert [p] + [] == [p];
  }

  /** The tests' release dates are less than six months apart. */
  lemma {:induction false} WithinSixMonths()
    ensures Feb1 - Jan1 <= SixMonths && Mar1 - Jan1 <= SixMonths
  {
    assert DayMillis == 86400000;
    assert SixMonths == 15552000000;
  }

  /** A gap of one minor released a month apart is `Orange`. */
  lemma {:induction false} MinorMonthIsOrange(installed: Version, latest: Version, t1: int, t2: int)
    requires installed.pre.None? && latest.pre.None?
    requires installed.major == latest.major && installed.minor != latest.minor
    requires t2 - t1 <= SixMonths
    ensures LatestHealth(installed, latest, Some(t1), Some(t2)) == Orange
  {
    BaseTierOfReleases(installed, latest);
    EscalateNeverLowers(Orange, t2 - t1);
  }

  /** The record for a dependency whose engine fits the project range and whose
      registry names a latest version. */
  lemma {:induction false} Assemble(d: Dependency, project: Option<SupportedRange>, info: PackageInfo, updates: seq<Version>)
    requires !d.isRoot && d.name != "" && info.latest.Some? && ParseVersion(d.version).Some?
    requires AvailableUpdates(d, project, info) == Success(updates)
    requires Truthy(d.engineNode) && ProjectRange(project).Some?
    requires IntersectsText(ProjectRange(project).value, d.engineNode.value) == Some(true)
    ensures var t1, t2 := TimeOf(info.time, d.version), TimeOf(info.time, FormatVersion(info.latest.value));
      GetDependencyUpdateInfo(Some(d), project, info, None) ==
        Success(UpdateInfo(d.name, d.version, info.latest, updates,
                           LatestHealth(ParseVersion(d.version).value, info.latest.value, t1, t2), t1, t2, None, []))
  {
  }

  /** packman/tests/dependency-manager.test.js lines 120-142: installed 1.0.0, latest
      1.1.0 released a month later, both engines within the project range. The test
      expects `Yellow`; the classifier rates a minor gap `Orange`, and offers 1.1.0. */
  lemma {:induction false} MinorBumpIsOrange(iv: string, range: string, e16: string, e18: string, e22: string, lt: string)
    requires ScenarioTexts(iv, range, e16, e18, e22) && FormatVersion(V1_1) == lt && iv != lt
    ensures var info := PackageInfo(Some([Published(V1_0, Some(e16)), Published(V1_1, Some(e18))]),
                                    Some(map[iv := Jan1, lt := Feb1]), Some(V1_1), None);
      var r := GetDependencyUpdateInfo(Some(PkgA(iv, e16)), Project(range), info, None);
      && r.Success?
      && r.value.health == Orange
      && r.value.availableUpdates == [V1_1]
      && r.value.nodeCompatibilityMessage.None?
      && r.value.releaseDateInstalled == Some(Jan1) && r.value.releaseDateLatest == Some(Feb1)
  {
    var next := Published(V1_1, Some(e18));
    var info := PackageInfo(Some([Published(V1_0, Some(e16)), next]), Some(map[iv := Jan1, lt := Feb1]), Some(V1_1), None);
    OffersNext(iv, range, e16, e18, e22, Published(V1_0, Some(e16)), next, info);
    WithinSixMonths();
    MinorMonthIsOrange(V1_0, V1_1, Jan1, Feb1);
    assert TimeOf(info.time, iv) == Some(Jan1);
    assert TimeOf(info.time, lt) == Some(Feb1);
    Assemble(PkgA(iv, e16), Project(range), info, [V1_1]);
  }

  /** In the first two scenarios 1.0.0 is installed with engine `>=16` and the
      registry's one newer version passes the engine filter. */
  lemma {:induction false} OffersNext(iv: string, range: string, e16: string, e18: string, e22: string,
                                      first: Published, next: Published, info: PackageInfo)
    requires ScenarioTexts(iv, range, e16, e18, e22)
    requires first.version == V1_0 && next.version.pre.None? && next.version.major == 1 && next.version.minor > 0
    requires next.engineNode == Some(e18) || next.engineNode.None?
    requires info.versions == Some([first, next])
    ensures AvailableUpdates(PkgA(iv, e16), Project(range), info) == Success([next.version])
    ensures IntersectsText(range, e16) == Some(true)
  {
    RangeFits(iv, range, e16, e18, e22);
    NewerThanInstalled(iv, first, next);
    EngineFilterOne(range, next, Some(e16));
    assert VersionsOf([next]) == [next.version];
    SortDescSingle(next.version);
  }

  /** packman/tests/dependency-manager.test.js lines 144-160: a newer version that
      declares no engine is offered when the installed one's engine fits, and no message
      is set. */
  lemma {:induction false} NoEngineIsOffered(iv: string, range: string, e16: string, e18: string, e22: string, lt: string)
    requires ScenarioTexts(iv, range, e16, e18, e22) && FormatVersion(V1_2) == lt && iv != lt
    ensures var info := PackageInfo(Some([Published(V1_0, Some(e16)), Published(V1_2, None)]),
                                    Some(map[iv := Jan1, lt := Mar1]), Some(V1_2), None);
      var r := GetDependencyUpdateInfo(Some(PkgA(iv, e16)), Project(range), info, None);
      && r.Success?
      && V1_2 in r.value.availableUpdates
      && r.value.nodeCompatibilityMessage.None?
  {
    var next := Published(V1_2, None);
    var info := PackageInfo(Some([Published(V1_0, Some(e16)), next]), Some(map[iv := Jan1, lt := Mar1]), Some(V1_2), None);
    OffersNext(iv, range, e16, e18, e22, Published(V1_0, Some(e16)), next, info);
    Assemble(PkgA(iv, e16), Project(range), info, [V1_2]);
  }

  /** packman/tests/dependency-manager.test.js lines 162-175: a newer version whose own
      engine needs 22 is not offered against a range that ends at 20.9.0, though the
      installed one fits. */
  lemma {:induction false} IncompatibleIsWithheld(iv: string, range: string, e16: string, e18: string, e22: string)
    requires ScenarioTexts(iv, range, e16, e18, e22)
    ensures var info := PackageInfo(Some([Published(V1_0, Some(e18)), Published(V1_2, Some(e22))]),
                                    Some(map[]), Some(V1_2), None);
      var r := GetDependencyUpdateInfo(Some(PkgA(iv, e18)), Project(range), info, None);
      && r.Success?
      && r.value.availableUpdates == []
  {
    var next := Published(V1_2, Some(e22));
    var ps := [Published(V1_0, Some(e18)), next];
    var info := PackageInfo(Some(ps), Some(map[]), Some(V1_2), None);
    var d := PkgA(iv, e18);
    RangeFits(iv, range, e16, e18, e22);
    NewerThanInstalled(iv, ps[0], next);
    EngineFilterOne(range, next, Some(e18));
    assert VersionsOf([]) == [];
    assert AvailableUpdates(d, Project(range), info) == Success([]);
    assert !Mismatch(d, Project(range));
  }

  /** Sorting one version leaves it as it is. */
  lemma {:induction false} SortDescSingle(v: Version)
    ensures SortDesc([v]) == [v]
  {
    var r := SortDesc([v]);
    assert multiset(r) == multiset{v};
    assert |r| == 1;
    assert r[0] in multiset(r);
  }

  lemma {:induction false} Text1(n: nat, tn: string)
    requires NatToString(n) == tn
    ensures FormatVersion(Release(1, n, 0)) == "1." + tn + ".0"
  {
    assert NatToString(1) == "1";
    assert NatToString(0) == "0";
    ReleaseText(1, n, 0, "1", tn, "0");
  }

  /** A text printed from a version reads back as it. */
  lemma {:induction false} ParsedFrom(t: string, v: Version)
    requires FormatVersion(v) == t
    ensures ParseVersion(t) == Some(v)
  {
    ParseFormatVersion(v);
  }

  lemma {:induction false} ParseInstalled() ensures ParseVersion("1.0.0") == Some(V1_0) {
    assert NatToString(0) == "0";
    Text1(0, "0");
    ParsedFrom("1.0.0", V1_0);
  }

  lemma {:induction false} Text1_1() ensures FormatVersion(V1_1) == "1.1.0" {
    assert NatToString(1) == "1";
    Text1(1, "1");
  }

  lemma {:induction false} Text1_2() ensures FormatVersion(V1_2) == "1.2.0" {
    assert NatToString(2) == "2";
    Text1(2, "2");
  }

  lemma {:induction false} ReadsGe16() ensures Reads(">=16.0.0", [Comparator(Ge, V16)]) {
    Text16();
    assert OpText(Ge) == ">=";
    ComparatorText(Ge, V16, "16.0.0");
    ReadsOne(">=16.0.0", Comparator(Ge, V16));
  }

  lemma {:induction false} ReadsGe22() ensures Reads(">=22.0.0", [Comparator(Ge, V22)]) {
    Text22();
    assert OpText(Ge) == ">=";
    ComparatorText(Ge, V22, "22.0.0");
    ReadsOne(">=22.0.0", Comparator(Ge, V22));
  }

  lemma {:induction false} Text20_9() ensures FormatVersion(V20_9) == "20.9.0" {
    assert NatToString(20) == "20";
    assert NatToString(9) == "9";
    assert NatToString(0) == "0";
    ReleaseText(20, 9, 0, "20", "9", "0");
  }

  lemma {:induction false} ReadsProjectRange()
    ensures Reads(">=18.0.0 <=20.9.0", [Comparator(Ge, V18), Comparator(Le, V20_9)])
  {
    FormatGe18();
    Text20_9();
    assert OpText(Le) == "<=";
    ComparatorText(Le, V20_9, "20.9.0");
    ReadsTwo(">=18.0.0 <=20.9.0", Comparator(Ge, V18), Comparator(Le, V20_9));
  }

  /** The tests' texts read as the scenario's versions and ranges. */
  lemma {:induction false} LiteralTexts()
    ensures ScenarioTexts("1.0.0", ">=18.0.0 <=20.9.0", ">=16.0.0", ">=18.0.0", ">=22.0.0")
    ensures FormatVersion(V1_1) == "1.1.0" && FormatVersion(V1_2) == "1.2.0"
  {
    ParseInstalled();
    ReadsProjectRange();
    ReadsGe16();
    ReadsGe18();
    ReadsGe22();
    Text1_1();
    Text1_2();
  }

  /** packman/tests/dependency-manager.test.js lines 120-175 on their own texts:
      installed "1.0.0", the project range ">=18.0.0 <=20.9.0" and the engines
      ">=16.0.0", ">=18.0.0" and ">=22.0.0". */
  lemma {:induction false} TestSuiteCases()
    ensures var info := PackageInfo(Some([Published(V1_0, Some(">=16.0.0")), Published(V1_1, Some(">=18.0.0"))]),
                                    Some(map["1.0.0" := Jan1, "1.1.0" := Feb1]), Some(V1_1), None);
      var r := GetDependencyUpdateInfo(Some(PkgA("1.0.0", ">=16.0.0")), Project(">=18.0.0 <=20.9.0"), info, None);
      r.Success? && r.value.health == Orange && r.value.availableUpdates == [V1_1]
    ensures var info := PackageInfo(Some([Published(V1_0, Some(">=16.0.0")), Published(V1_2, None)]),
                                    Some(map["1.0.0" := Jan1, "1.2.0" := Mar1]), Some(V1_2), None);
      var r := GetDependencyUpdateInfo(Some(PkgA("1.0.0", ">=16.0.0")), Project(">=18.0.0 <=20.9.0"), info, None);
      r.Success? && V1_2 in r.value.availableUpdates && r.value.nodeCompatibilityMessage.None?
    ensures var info := PackageInfo(Some([Published(V1_0, Some(">=18.0.0")), Published(V1_2, Some(">=22.0.0"))]),
                                    Some(map[]), Some(V1_2), None);
      var r := GetDependencyUpdateInfo(Some(PkgA("1.0.0", ">=18.0.0")), Project(">=18.0.0 <=20.9.0"), info, None);
      r.Success? && r.value.availableUpdates == []
  {
    LiteralTexts();
    MinorBumpIsOrange("1.0.0", ">=18.0.0 <=20.9.0", ">=16.0.0", ">=18.0.0", ">=22.0.0", "1.1.0");
    NoEngineIsOffered("1.0.0", ">=18.0.0 <=20.9.0", ">=16.0.0", ">=18.0.0", ">=22.0.0", "1.2.0");
    IncompatibleIsWithheld("1.0.0", ">=18.0.0 <=20.9.0", ">=16.0.0", ">=18.0.0", ">=22.0.0");
  }
}
