/** The health classifier of `getDependencyUpdateInfo`: the registry versions a
    dependency can move to, and a health tier from the gap to the latest
    release, the age of that gap and the runtime ranges. The registry answer and
    the suggested alternatives are inputs; times are integer milliseconds. */
module DependencyManager {
  import opened Wrappers
  import opened SemVer
  import opened RangeText
  import opened VersionLists
  import opened Lockfile
  import opened NodeEnv

  datatype Health = Green | Yellow | Orange | Red | Unknown

  /** One published version in the registry, with its `engines.node` if declared. */
  datatype Published = Published(version: Version, engineNode: Option<string>)

  /** A suggested replacement package; the classifier passes these through. */
  datatype Alternative = Alternative(name: string, version: string, reason: string, source: string)

  /** What the registry lookup returns: the `versions` object (absent, or its
      entries in key order), the `time` object keyed by version text, the
      `dist-tags.latest` version and the `error` text of a failed lookup. */
  datatype PackageInfo = PackageInfo(
    versions: Option<seq<Published>>,
    time: Option<map<string, int>>,
    latest: Option<Version>,
    error: Option<string>)

  datatype UpdateInfo = UpdateInfo(
    name: string,
    installedVersion: string,
    latestVersion: Option<Version>,
    availableUpdates: seq<Version>,
    health: Health,
    releaseDateInstalled: Option<int>,
    releaseDateLatest: Option<int>,
    nodeCompatibilityMessage: Option<string>,
    alternatives: seq<Alternative>)

  /** Why the asynchronous classifier rejects: semver throws on a text that is
      not a version or not a range, and `Object.keys` throws on a missing
      `versions` object. */
  datatype Thrown = InvalidVersion(text: string) | InvalidRange | MissingVersions

  const DayMillis: int := 24 * 60 * 60 * 1000

  /** The classifier's "six months" and "twelve months": 180 and 360 days. */
  const SixMonths: int := 6 * 30 * DayMillis
  const TwelveMonths: int := 12 * 30 * DayMillis

  const IncompleteMessage: string := "Dep data incomplete."

  function NotFoundMessage(name: string): string {
    "Package " + name + " not found in mock registry."
  }

  function NoVersionsMessage(name: string): string {
    "No versions listed for " + name + " in mock registry."
  }

  /** The compatibility message after an engine mismatch: a new sentence, or the
      earlier message continued with "Also, ...". */
  function MismatchMessage(prior: Option<string>, node: string, range: string): string {
    var tail := "nstalled version's Node req (" + node + ") may not fit project range (" + range + ").";
    if Truthy(prior) then prior.value + (" Also, i" + tail) else "I" + tail
  }

  lemma PrefixOfConcat(a: string, b: string)
    ensures a <= a + b
  {
    assert (a + b)[..|a|] == a;
  }

  /** A mismatch message keeps the earlier message, if there was one, in front. */
  lemma MismatchMessageExtends(prior: Option<string>, node: string, range: string)
    ensures Truthy(prior) ==> prior.value <= MismatchMessage(prior, node, range)
  {
    if Truthy(prior) {
      PrefixOfConcat(prior.value, " Also, i" + "nstalled version's Node req (" + node + ") may not fit project range (" + range + ").");
    }
  }

  /** Severity order of the tiers; `Green` and `Unknown` are the least severe. */
  function Severity(h: Health): nat {
    match h
    case Green => 0
    case Unknown => 0
    case Yellow => 1
    case Orange => 2
    case Red => 3
  }

  // ----- the dependency and the project range -----

  /** A missing, root or nameless dependency is not looked up. */
  predicate Incomplete(dependency: Option<Dependency>) {
    dependency.None? || dependency.value.isRoot || dependency.value.name == ""
  }

  /** The record for a dependency that is not looked up. */
  function IncompleteInfo(dependency: Option<Dependency>): UpdateInfo {
    var name := if dependency.Some? && dependency.value.name != "" then dependency.value.name else "Unknown";
    var version := if dependency.Some? && dependency.value.version != "" then dependency.value.version else "N/A";
    UpdateInfo(name, version, None, [], Unknown, None, None, Some(IncompleteMessage), [])
  }

  /** The project range's text when `projectNodeRange && projectNodeRange.range` holds. */
  function ProjectRange(project: Option<SupportedRange>): Option<string> {
    if project.Some? && Truthy(project.value.range) then project.value.range else None
  }

  /** `semver.intersects(a, b)`, which throws on an invalid range. */
  function Intersecting(a: string, b: string): Result<bool, Thrown> {
    match IntersectsText(a, b)
    case Some(x) => Success(x)
    case None => Failure(InvalidRange)
  }

  // ----- availableUpdates -----

  /** The published versions above `installed`, in registry order. */
  function Above(ps: seq<Published>, installed: Version): (r: seq<Published>)
    ensures |r| <= |ps|
    ensures forall p {:trigger p in r} :: p in r <==> p in ps && Less(installed, p.version)
  {
    if |ps| == 0 then []
    else
      assert ps == [ps[0]] + ps[1..];
      var rest := Above(ps[1..], installed);
      if Less(installed, ps[0].version) then [ps[0]] + rest else rest
  }

  /** The first filter, `semver.gt(v, installedVersion)` on every key: it throws
      as soon as there is a key and the installed text is not a version. */
  function Newer(ps: seq<Published>, installed: string): Result<seq<Published>, Thrown> {
    if |ps| == 0 then Success([])
    else
      match ParseVersion(installed)
      case None => Failure(InvalidVersion(installed))
      case Some(v) => Success(Above(ps, v))
  }

  /** Whether the engine filter keeps a published version: by its own
      `engines.node` when it declares one, else by the installed dependency's. */
  function EngineKeeps(range: string, p: Published, installedEngine: Option<string>): Result<bool, Thrown> {
    if Truthy(p.engineNode) then Intersecting(range, p.engineNode.value)
    else if Truthy(installedEngine) then Intersecting(range, installedEngine.value)
    else Success(true)
  }

  /** The second filter, in order; the first test that throws rejects the call. */
  function EngineFilter(range: string, ps: seq<Published>, installedEngine: Option<string>): Result<seq<Published>, Thrown> {
    if |ps| == 0 then Success([])
    else
      var keep :- EngineKeeps(range, ps[0], installedEngine);
      var rest :- EngineFilter(range, ps[1..], installedEngine);
      Success(if keep then [ps[0]] + rest else rest)
  }

  /** The engine filter keeps exactly the versions whose test answers yes, and
      rejects exactly when some test throws. */
  lemma {:induction false} EngineFilterMeaning(range: string, ps: seq<Published>, installedEngine: Option<string>)
    ensures EngineFilter(range, ps, installedEngine).Success? ==>
      forall p {:trigger p in EngineFilter(range, ps, installedEngine).value} ::
        p in EngineFilter(range, ps, installedEngine).value <==>
        p in ps && EngineKeeps(range, p, installedEngine) == Success(true)
    ensures EngineFilter(range, ps, installedEngine).Failure? <==>
      exists p {:trigger p in ps} :: p in ps && EngineKeeps(range, p, installedEngine).Failure?
    ensures EngineFilter(range, ps, installedEngine).Failure? ==>
      EngineFilter(range, ps, installedEngine).error == InvalidRange
  {
    if |ps| > 0 {
      assert ps == [ps[0]] + ps[1..];
      EngineFilterMeaning(range, ps[1..], installedEngine);
      if EngineKeeps(range, ps[0], installedEngine).Failure? {
        assert ps[0] in ps;
      } else if EngineFilter(range, ps[1..], installedEngine).Failure? {
        var p :| p in ps[1..] && EngineKeeps(range, p, installedEngine).Failure?;
        assert p in ps;
      }
    }
  }

  /** The version numbers of published entries, in order. */
  function VersionsOf(ps: seq<Published>): (r: seq<Version>)
    ensures |r| == |ps| && forall i :: 0 <= i < |ps| ==> r[i] == ps[i].version
  {
    seq(|ps|, i requires 0 <= i < |ps| => ps[i].version)
  }

  lemma VersionsOfMembers(ps: seq<Published>)
    ensures forall p {:trigger p in ps} :: p in ps ==> p.version in VersionsOf(ps)
    ensures forall v {:trigger v in VersionsOf(ps)} :: v in VersionsOf(ps) ==>
      exists p {:trigger p in ps} :: p in ps && p.version == v
  {
    var r := VersionsOf(ps);
    forall v | v in r ensures exists p {:trigger p in ps} :: p in ps && p.version == v {
      var i :| 0 <= i < |r| && r[i] == v;
      assert ps[i] in ps;
    }
    forall p | p in ps ensures p.version in r {
      var i :| 0 <= i < |ps| && ps[i] == p;
      assert r[i] == p.version;
    }
  }

  /** src/lib/dependency-manager.js lines 166-176: the newer registry versions that pass
      the engine filter, highest first; nothing without registry versions or a project
      range. */
  function AvailableUpdates(d: Dependency, project: Option<SupportedRange>, info: PackageInfo): Result<seq<Version>, Thrown> {
    match (info.versions, ProjectRange(project))
    case (Some(ps), Some(range)) =>
      var newer :- Newer(ps, d.version);
      var kept :- EngineFilter(range, newer, d.engineNode);
      Success(SortDesc(VersionsOf(kept)))
    case _ => Success([])
  }

  /** `v` is a registry version above `installed` that the engine filter keeps. */
  ghost predicate Offered(v: Version, installed: Version, range: string, ps: seq<Published>, installedEngine: Option<string>) {
    exists p {:trigger p in ps} :: p in ps && p.version == v && Less(installed, v)
      && EngineKeeps(range, p, installedEngine) == Success(true)
  }

  /** The updates on offer are in descending order, all above the installed
      version, and exactly the newer registry versions the engine filter keeps;
      there are none without registry versions or a project range. */
  lemma {:induction false} AvailableUpdatesMeaning(d: Dependency, project: Option<SupportedRange>, info: PackageInfo)
    requires AvailableUpdates(d, project, info).Success?
    ensures Descending(AvailableUpdates(d, project, info).value)
    ensures info.versions.None? || ProjectRange(project).None? ==> AvailableUpdates(d, project, info).value == []
    ensures info.versions.Some? && ProjectRange(project).Some? && ParseVersion(d.version).Some? ==>
      forall v {:trigger v in AvailableUpdates(d, project, info).value} ::
        v in AvailableUpdates(d, project, info).value <==>
        Offered(v, ParseVersion(d.version).value, ProjectRange(project).value, info.versions.value, d.engineNode)
    ensures AvailableUpdates(d, project, info).value != [] ==>
      ParseVersion(d.version).Some? &&
      forall v {:trigger v in AvailableUpdates(d, project, info).value} ::
        v in AvailableUpdates(d, project, info).value ==> Less(ParseVersion(d.version).value, v)
  {
    var r := AvailableUpdates(d, project, info).value;
    if info.versions.Some? && ProjectRange(project).Some? {
      var ps, range := info.versions.value, ProjectRange(project).value;
      var newer := Newer(ps, d.version).value;
      var kept := EngineFilter(range, newer, d.engineNode).value;
      EngineFilterMeaning(range, newer, d.engineNode);
      var listed := VersionsOf(kept);
      assert r == SortDesc(listed);
      forall v ensures v in r <==> v in listed {
        assert v in multiset(r) <==> v in multiset(listed);
      }
      VersionsOfMembers(kept);
      if |ps| > 0 && ParseVersion(d.version).Some? {
        var iv := ParseVersion(d.version).value;
        assert newer == Above(ps, iv);
        forall v ensures v in r <==> Offered(v, iv, range, ps, d.engineNode) {
          if v in r {
            var p :| p in kept && p.version == v;
            assert p in newer;
          }
          if Offered(v, iv, range, ps, d.engineNode) {
            var p :| p in ps && p.version == v && Less(iv, v) && EngineKeeps(range, p, d.engineNode) == Success(true);
            assert p in newer;
            assert p in kept;
          }
        }
      }
      if |ps| == 0 {
        assert kept == [];
      }
    }
  }

  /** Dropping the first entry keeps the versions distinct. */
  lemma DistinctTail(ps: seq<Published>)
    requires |ps| > 0 && Distinct(VersionsOf(ps))
    ensures Distinct(VersionsOf(ps[1..]))
  {
    forall i, j | 0 <= i < j < |ps| - 1 ensures VersionsOf(ps[1..])[i] != VersionsOf(ps[1..])[j] {
      assert VersionsOf(ps[1..])[i] == VersionsOf(ps)[i + 1];
      assert VersionsOf(ps[1..])[j] == VersionsOf(ps)[j + 1];
    }
  }

  /** Putting `p` back in front of a filtered tail keeps the versions distinct. */
  lemma ConsDistinct(p: Published, rest: seq<Published>, tail: seq<Published>)
    requires Distinct(VersionsOf([p] + tail)) && Distinct(VersionsOf(rest))
    requires forall q {:trigger q in rest} :: q in rest ==> q in tail
    ensures Distinct(VersionsOf([p] + rest))
  {
    var s, t := VersionsOf([p] + rest), VersionsOf([p] + tail);
    forall i, j | 0 <= i < j < |s| ensures s[i] != s[j] {
      assert s[j] == rest[j - 1].version;
      if i == 0 {
        assert rest[j - 1] in rest;
        var k :| 0 <= k < |tail| && tail[k] == rest[j - 1];
        assert t[k + 1] == s[j] && t[0] == s[0];
      } else {
        assert s[i] == VersionsOf(rest)[i - 1] && s[j] == VersionsOf(rest)[j - 1];
      }
    }
  }

  /** The first filter keeps registry versions distinct. */
  lemma {:induction false} AboveDistinct(ps: seq<Published>, installed: Version)
    requires Distinct(VersionsOf(ps))
    ensures Distinct(VersionsOf(Above(ps, installed)))
  {
    if |ps| > 0 {
      assert ps == [ps[0]] + ps[1..];
      DistinctTail(ps);
      AboveDistinct(ps[1..], installed);
      if Less(installed, ps[0].version) {
        ConsDistinct(ps[0], Above(ps[1..], installed), ps[1..]);
      }
    }
  }

  /** The engine filter keeps registry versions distinct. */
  lemma {:induction false} EngineFilterDistinct(range: string, ps: seq<Published>, installedEngine: Option<string>)
    requires EngineFilter(range, ps, installedEngine).Success?
    requires Distinct(VersionsOf(ps))
    ensures Distinct(VersionsOf(EngineFilter(range, ps, installedEngine).value))
  {
    if |ps| > 0 {
      assert ps == [ps[0]] + ps[1..];
      DistinctTail(ps);
      EngineFilterDistinct(range, ps[1..], installedEngine);
      EngineFilterMeaning(range, ps[1..], installedEngine);
      if EngineKeeps(range, ps[0], installedEngine) == Success(true) {
        ConsDistinct(ps[0], EngineFilter(range, ps[1..], installedEngine).value, ps[1..]);
      }
    }
  }

  /** A registry object's keys are distinct, and then no update is offered
      twice: the list is strictly descending. */
  lemma {:induction false} AvailableUpdatesStrict(d: Dependency, project: Option<SupportedRange>, info: PackageInfo)
    requires AvailableUpdates(d, project, info).Success?
    requires info.versions.Some? ==> Distinct(VersionsOf(info.versions.value))
    ensures StrictlyDescending(AvailableUpdates(d, project, info).value)
  {
    if info.versions.Some? && ProjectRange(project).Some? {
      var ps, range := info.versions.value, ProjectRange(project).value;
      var newer := Newer(ps, d.version).value;
      if |ps| > 0 {
        AboveDistinct(ps, ParseVersion(d.version).value);
      }
      assert Distinct(VersionsOf(newer));
      EngineFilterDistinct(range, newer, d.engineNode);
      SortDescStrict(VersionsOf(EngineFilter(range, newer, d.engineNode).value));
    }
  }

  /** The call rejects on an invalid installed version exactly when the first
      filter has a registry version to compare it with. */
  lemma {:induction false} AvailableUpdatesInvalidVersion(d: Dependency, project: Option<SupportedRange>, info: PackageInfo)
    ensures AvailableUpdates(d, project, info) == Failure(InvalidVersion(d.version)) <==>
      info.versions.Some? && ProjectRange(project).Some? && |info.versions.value| > 0 && ParseVersion(d.version).None?
  {
    if info.versions.Some? && ProjectRange(project).Some? && |info.versions.value| > 0 && ParseVersion(d.version).Some? {
      EngineFilterMeaning(ProjectRange(project).value, Newer(info.versions.value, d.version).value, d.engineNode);
    }
  }

  /** The engine filter's rule: a version that declares an engine is kept iff
      that engine and the project range admit a common version; one that
      declares none is kept iff the installed dependency declares none or its
      engine and the range admit a common version. */
  lemma {:induction false} EngineKeepsMeaning(range: string, p: Published, installedEngine: Option<string>)
    requires Valid(range)
    requires Truthy(p.engineNode) ==> Valid(p.engineNode.value)
    requires !Truthy(p.engineNode) && Truthy(installedEngine) ==> Valid(installedEngine.value)
    ensures EngineKeeps(range, p, installedEngine).Success?
    ensures Truthy(p.engineNode) ==>
      (EngineKeeps(range, p, installedEngine).value <==>
       exists v :: Satisfies(v, range) && Satisfies(v, p.engineNode.value))
    ensures !Truthy(p.engineNode) ==>
      (EngineKeeps(range, p, installedEngine).value <==>
       !Truthy(installedEngine) || exists v :: Satisfies(v, range) && Satisfies(v, installedEngine.value))
  {
    if Truthy(p.engineNode) {
      IntersectsTextMeaning(range, p.engineNode.value);
    } else if Truthy(installedEngine) {
      IntersectsTextMeaning(range, installedEngine.value);
    }
  }

  // ----- health -----

  /** src/lib/dependency-manager.js lines 185-188: the tier from the kind of gap to the
      latest version; the pre-kinds of `semver.diff` leave it `Unknown`. */
  function BaseTier(installed: Version, latest: Version): Health {
    match Diff(installed, latest)
    case Some(Major) => Red
    case Some(Minor) => Orange
    case Some(Patch) => Yellow
    case Some(Prerelease) => Yellow
    case _ => Unknown
  }

  /** src/lib/dependency-manager.js lines 189-194: a latest release more than six months
      younger than the installed one raises `Yellow` to `Orange` and any other tier
      below `Red` to `Red`; more than twelve months forces `Red`. */
  function Escalate(h: Health, gap: int): Health {
    var h1 := if gap > SixMonths && h != Red then (if h == Yellow then Orange else Red) else h;
    if gap > TwelveMonths then Red else h1
  }

  /** The tier when the registry names a latest version. */
  function LatestHealth(installed: Version, latest: Version, dateInstalled: Option<int>, dateLatest: Option<int>): Health {
    if installed == latest then Green
    else
      var base := BaseTier(installed, latest);
      if dateLatest.Some? && dateInstalled.Some? then Escalate(base, dateLatest.value - dateInstalled.value) else base
  }

  /** Between two releases the tier is `Red` for a new major, `Orange` for a new
      minor and `Yellow` for a new patch, whichever of the two is higher. */
  lemma {:induction false} BaseTierOfReleases(installed: Version, latest: Version)
    requires installed.pre.None? && latest.pre.None? && installed != latest
    ensures BaseTier(installed, latest) == Red <==> installed.major != latest.major
    ensures BaseTier(installed, latest) == Orange <==> installed.major == latest.major && installed.minor != latest.minor
    ensures BaseTier(installed, latest) == Yellow <==>
      installed.major == latest.major && installed.minor == latest.minor
    ensures BaseTier(installed, latest) != Unknown
  {
    DiffOfReleases(installed, latest);
  }

  /** Age escalation never lowers a tier. It does not change one when the gap
      is at most six months; between six and twelve months it raises `Yellow`
      to `Orange` and every other tier to `Red`; beyond twelve months the tier
      is `Red`. */
  lemma {:induction false} EscalateNeverLowers(h: Health, gap: int)
    ensures Severity(Escalate(h, gap)) >= Severity(h)
    ensures Escalate(h, gap) != h ==> Severity(Escalate(h, gap)) > Severity(h) || h == Green || h == Unknown
    ensures gap <= SixMonths ==> Escalate(h, gap) == h
    ensures SixMonths < gap <= TwelveMonths ==> Escalate(h, gap) == (if h == Yellow then Orange else Red)
    ensures gap > TwelveMonths ==> Escalate(h, gap) == Red
  {
  }

  /** The tier is `Green` exactly when the installed version is the latest one,
      whatever the release dates. */
  lemma {:induction false} GreenIffLatest(installed: Version, latest: Version, dateInstalled: Option<int>, dateLatest: Option<int>)
    ensures LatestHealth(installed, latest, dateInstalled, dateLatest) == Green <==> installed == latest
  {
  }

  /** Where prereleases are involved: two prereleases of one release differ
      by a `Yellow` step, prereleases of different releases give `Unknown`, as
      does a newer prerelease over an installed release; a newer release over
      an installed prerelease always has a tier. */
  lemma {:induction false} BaseTierOfPrereleases(installed: Version, latest: Version)
    requires installed != latest
    ensures installed.pre.Some? && latest.pre.Some? ==>
      (BaseTier(installed, latest) == Yellow <==>
       installed.major == latest.major && installed.minor == latest.minor && installed.patch == latest.patch)
    ensures installed.pre.Some? && latest.pre.Some? ==>
      (BaseTier(installed, latest) == Unknown <==>
       !(installed.major == latest.major && installed.minor == latest.minor && installed.patch == latest.patch))
    ensures Less(installed, latest) && installed.pre.None? && latest.pre.Some? ==> BaseTier(installed, latest) == Unknown
    ensures Less(installed, latest) && installed.pre.Some? && latest.pre.None? ==>
      BaseTier(installed, latest) in {Red, Orange, Yellow}
  {
  }

  /** An older installed release never gives a less severe tier. */
  lemma {:induction false} EscalateMonotone(h: Health, gap1: int, gap2: int)
    requires gap1 <= gap2
    ensures Severity(Escalate(h, gap1)) <= Severity(Escalate(h, gap2))
  {
  }

  /** src/lib/dependency-manager.js lines 178-202: the tier and message before the
      engine check. */
  function Assessment(d: Dependency, info: PackageInfo, dateInstalled: Option<int>, dateLatest: Option<int>)
    : Result<(Health, Option<string>), Thrown>
  {
    match info.latest
    case Some(latest) =>
      (match ParseVersion(d.version)
       case None => Failure(InvalidVersion(d.version))
       case Some(iv) => Success((LatestHealth(iv, latest, dateInstalled, dateLatest), None)))
    case None =>
      if Truthy(info.error) then Success((Unknown, Some(NotFoundMessage(d.name))))
      else
        match info.versions
        case None => Failure(MissingVersions)
        case Some(ps) => Success((Unknown, if |ps| == 0 then Some(NoVersionsMessage(d.name)) else None))
  }

  /** The installed dependency's engine and the project range are both given
      and admit no common version. */
  predicate Mismatch(d: Dependency, project: Option<SupportedRange>) {
    Truthy(d.engineNode) && ProjectRange(project).Some?
      && IntersectsText(ProjectRange(project).value, d.engineNode.value) == Some(false)
  }

  /** src/lib/dependency-manager.js lines 204-208: an engine mismatch raises the tier to
      `Orange` unless it is `Red`, and sets or extends the message. */
  function EngineCheck(d: Dependency, project: Option<SupportedRange>, h: Health, message: Option<string>)
    : Result<(Health, Option<string>), Thrown>
  {
    var range := ProjectRange(project);
    if Truthy(d.engineNode) && range.Some? then
      var fits :- Intersecting(range.value, d.engineNode.value);
      if fits then Success((h, message))
      else Success((if h == Red then Red else Orange, Some(MismatchMessage(message, d.engineNode.value, range.value))))
    else Success((h, message))
  }

  /** The engine check raises a mismatching dependency to at least `Orange`,
      keeping the earlier message in front, and leaves any other unchanged. */
  lemma {:induction false} EngineCheckMeaning(d: Dependency, project: Option<SupportedRange>, h: Health, message: Option<string>)
    requires EngineCheck(d, project, h, message).Success?
    ensures Mismatch(d, project) ==>
      && EngineCheck(d, project, h, message).value.0 == (if h == Red then Red else Orange)
      && EngineCheck(d, project, h, message).value.1.Some?
      && (Truthy(message) ==> message.value <= EngineCheck(d, project, h, message).value.1.value)
    ensures !Mismatch(d, project) ==> EngineCheck(d, project, h, message).value == (h, message)
    ensures Severity(EngineCheck(d, project, h, message).value.0) >= Severity(h)
  {
    if Mismatch(d, project) {
      MismatchMessageExtends(message, d.engineNode.value, ProjectRange(project).value);
    }
  }

  /** The engine check rejects exactly when it runs on a range or engine that is
      not valid. */
  lemma {:induction false} EngineCheckFails(d: Dependency, project: Option<SupportedRange>, h: Health, message: Option<string>)
    ensures EngineCheck(d, project, h, message).Failure? <==>
      Truthy(d.engineNode) && ProjectRange(project).Some?
        && !(Valid(ProjectRange(project).value) && Valid(d.engineNode.value))
  {
    if Truthy(d.engineNode) && ProjectRange(project).Some? {
      IntersectsTextMeaning(ProjectRange(project).value, d.engineNode.value);
    }
  }

  /** `packageInfo.time?.[key] || null`. */
  function TimeOf(time: Option<map<string, int>>, key: string): Option<int> {
    if time.Some? && key in time.value then Some(time.value[key]) else None
  }

  // ----- getDependencyUpdateInfo -----

  /** `getDependencyUpdateInfo` on an already fetched registry answer. */
  function GetDependencyUpdateInfo(dependency: Option<Dependency>, project: Option<SupportedRange>,
                                   info: PackageInfo, alternatives: Option<seq<Alternative>>)
    : Result<UpdateInfo, Thrown>
  {
    if Incomplete(dependency) then Success(IncompleteInfo(dependency))
    else
      var d := dependency.value;
      var updates :- AvailableUpdates(d, project, info);
      var dateInstalled := TimeOf(info.time, d.version);
      var dateLatest := if info.latest.Some? then TimeOf(info.time, FormatVersion(info.latest.value)) else None;
      var assessed :- Assessment(d, info, dateInstalled, dateLatest);
      var checked :- EngineCheck(d, project, assessed.0, assessed.1);
      Success(UpdateInfo(d.name, d.version, info.latest, updates, checked.0,
                         dateInstalled, dateLatest, checked.1, alternatives.GetOr([])))
  }

  /** A missing, root or nameless dependency gets the `Unknown` record with no
      updates, no alternatives and the "incomplete" message, whatever the
      registry says. */
  lemma {:induction false} IncompleteDependency(dependency: Option<Dependency>, project: Option<SupportedRange>,
                                                info: PackageInfo, alternatives: Option<seq<Alternative>>)
    requires Incomplete(dependency)
    ensures GetDependencyUpdateInfo(dependency, project, info, alternatives).Success?
    ensures var u := GetDependencyUpdateInfo(dependency, project, info, alternatives).value;
      && u.health == Unknown && u.availableUpdates == [] && u.alternatives == []
      && u.nodeCompatibilityMessage == Some(IncompleteMessage) && u.latestVersion.None?
      && u.name == (if dependency.Some? && dependency.value.name != "" then dependency.value.name else "Unknown")
  {
  }

  /** For a looked-up dependency the record carries its name and version, the
      registry's latest version, the updates on offer and the alternatives
      (`[]` when there are none). */
  lemma {:induction false} UpdateInfoFields(dependency: Option<Dependency>, project: Option<SupportedRange>,
                                            info: PackageInfo, alternatives: Option<seq<Alternative>>)
    requires !Incomplete(dependency)
    requires GetDependencyUpdateInfo(dependency, project, info, alternatives).Success?
    ensures var u := GetDependencyUpdateInfo(dependency, project, info, alternatives).value;
      && u.name == dependency.value.name && u.installedVersion == dependency.value.version
      && u.latestVersion == info.latest
      && AvailableUpdates(dependency.value, project, info) == Success(u.availableUpdates)
      && Descending(u.availableUpdates)
      && u.alternatives == (if alternatives.Some? then alternatives.value else [])
  {
    AvailableUpdatesMeaning(dependency.value, project, info);
  }

  /** The health of a looked-up dependency: the tier from the latest version
      (or `Unknown` without one), raised to at least `Orange` exactly when the
      installed engine does not fit the project range. */
  lemma {:induction false} UpdateInfoHealth(dependency: Option<Dependency>, project: Option<SupportedRange>,
                                            info: PackageInfo, alternatives: Option<seq<Alternative>>)
    requires !Incomplete(dependency)
    requires GetDependencyUpdateInfo(dependency, project, info, alternatives).Success?
    ensures var u := GetDependencyUpdateInfo(dependency, project, info, alternatives).value;
      var d := dependency.value;
      var before := if info.latest.Some?
        then LatestHealth(ParseVersion(d.version).value, info.latest.value, u.releaseDateInstalled, u.releaseDateLatest)
        else Unknown;
      && (info.latest.Some? ==> ParseVersion(d.version).Some?)
      && (Mismatch(d, project) ==> u.health == (if before == Red then Red else Orange))
      && (!Mismatch(d, project) ==> u.health == before)
  {
    var d := dependency.value;
    var u := GetDependencyUpdateInfo(dependency, project, info, alternatives).value;
    var assessed := Assessment(d, info, u.releaseDateInstalled, u.releaseDateLatest).value;
    EngineCheckMeaning(d, project, assessed.0, assessed.1);
  }

  /** Without a latest version the message says why: the lookup failed, or the
      registry lists no versions (or no message when it lists some). */
  lemma {:induction false} NoLatestMessage(dependency: Option<Dependency>, project: Option<SupportedRange>,
                                           info: PackageInfo, alternatives: Option<seq<Alternative>>)
    requires !Incomplete(dependency) && info.latest.None? && !Mismatch(dependency.value, project)
    requires GetDependencyUpdateInfo(dependency, project, info, alternatives).Success?
    ensures var u := GetDependencyUpdateInfo(dependency, project, info, alternatives).value;
      && u.health == Unknown
      && (Truthy(info.error) ==> u.nodeCompatibilityMessage == Some(NotFoundMessage(dependency.value.name)))
      && (!Truthy(info.error) ==>
            info.versions.Some? &&
            u.nodeCompatibilityMessage ==
              (if |info.versions.value| == 0 then Some(NoVersionsMessage(dependency.value.name)) else None))
  {
    var d := dependency.value;
    var u := GetDependencyUpdateInfo(dependency, project, info, alternatives).value;
    var assessed := Assessment(d, info, u.releaseDateInstalled, u.releaseDateLatest).value;
    EngineCheckMeaning(d, project, assessed.0, assessed.1);
  }
}
