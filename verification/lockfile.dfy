/** Dependency records (`LockfileDependency`) and how they are read from a parsed
    `package-lock.json` (`getLockfileDependencies`). */
module Lockfile {
  import opened Wrappers
  import opened Text

  /** One installed dependency. `hasPackageJson` says whether its installed
      `package.json` was read; `engineNode` is that file's `engines.node`. */
  datatype Dependency = Dependency(
    name: string,
    version: string,
    path: string,
    isDev: bool,
    isOptional: bool,
    dependencies: map<string, string>,
    optionalDependencies: map<string, string>,
    resolved: Option<string>,
    integrity: Option<string>,
    isRoot: bool,
    hasPackageJson: bool,
    engineNode: Option<string>,
    license: Option<string>)

  /** A keyed record of dependencies, in the key order of the JavaScript object. */
  datatype Entry = Entry(key: string, dep: Dependency)

  type DependencyTable = seq<Entry>

  /** One value of the lockfile's `packages` object; `dev`/`optional` record
      whether the field is exactly `true`. */
  datatype PackageData = PackageData(
    name: Option<string>,
    version: Option<string>,
    dev: bool,
    optional: bool,
    dependencies: map<string, string>,
    peerDependencies: map<string, string>,
    optionalDependencies: map<string, string>,
    resolved: Option<string>,
    integrity: Option<string>)

  /** A parsed lockfile; `packages` is absent in lockfiles too old to have it. */
  datatype LockfileJson = LockfileJson(packages: Option<seq<(string, PackageData)>>)

  const NodeModulesPrefix: string := "node_modules/"

  /** The text before the first `/`. */
  function FirstSegment(s: string): string {
    s[..IndexOf(s, '/')]
  }

  /** The package name a `node_modules/...` key stands for: its first path
      segment, or its first two for a scoped `@scope/name`. A scope with nothing
      after it yields `@scope/undefined`, as JavaScript's string template does. */
  function NameFromPath(key: string): string
    requires StartsWith(key, NodeModulesPrefix)
  {
    var rest := key[|NodeModulesPrefix|..];
    var first := FirstSegment(rest);
    var i := IndexOf(rest, '/');
    if |first| > 0 && first[0] == '@' then
      first + "/" + (if i < |rest| then FirstSegment(rest[i + 1..]) else "undefined")
    else first
  }

  /** `rootDevDependencies[name]` is truthy; `None` stands for an unreadable root
      `package.json`. */
  predicate InRootDev(rootDev: Option<map<string, string>>, name: string) {
    rootDev.Some? && name in rootDev.value && rootDev.value[name] != ""
  }

  /** The record the lockfile entry at `key` becomes, if any. */
  function EntryFor(key: string, data: PackageData, rootDev: Option<map<string, string>>,
                    projectBaseName: string): (r: Option<Entry>)
    ensures r.Some? <==> key == "" || (StartsWith(key, NodeModulesPrefix) && Truthy(data.version))
    ensures r.Some? ==> (r.value.key == "/" <==> key == "") && r.value.dep.isRoot == (key == "")
    ensures r.Some? && key != "" ==>
      && r.value.key == key && r.value.dep.path == key
      && r.value.dep.version == data.version.value
      && (r.value.dep.isDev <==> data.dev || InRootDev(rootDev, r.value.dep.name))
      && (r.value.dep.isOptional <==> data.optional)
    ensures r.Some? && key != "" && StartsWith(key, NodeModulesPrefix) ==>
      r.value.dep.name == (if Truthy(data.name) then data.name.value else NameFromPath(key))
    ensures r.Some? && key == "" ==>
      && r.value.dep.path == "/" && !r.value.dep.isDev && !r.value.dep.isOptional
      && r.value.dep.name == (if Truthy(data.name) then data.name.value else projectBaseName)
      && r.value.dep.version == (if Truthy(data.version) then data.version.value else "N/A")
    ensures r.Some? ==> !r.value.dep.hasPackageJson && r.value.dep.engineNode.None?
  {
    if key == "" then
      Some(Entry("/", Dependency(
        if Truthy(data.name) then data.name.value else projectBaseName,
        if Truthy(data.version) then data.version.value else "N/A",
        "/", false, false,
        data.dependencies + data.peerDependencies, data.optionalDependencies,
        None, None, true, false, None, None)))
    else if !StartsWith(key, NodeModulesPrefix) || !Truthy(data.version) then None
    else
      var name := if Truthy(data.name) then data.name.value else NameFromPath(key);
      Some(Entry(key, Dependency(
        name, data.version.value, key,
        data.dev || InRootDev(rootDev, name), data.optional,
        data.dependencies + data.peerDependencies, data.optionalDependencies,
        data.resolved, data.integrity, false, false, None, None)))
  }

  /** The records of a sequence of lockfile entries, in order. */
  function Records(packages: seq<(string, PackageData)>, rootDev: Option<map<string, string>>,
                   projectBaseName: string): (r: DependencyTable)
    ensures |r| <= |packages|
    ensures forall i :: 0 <= i < |packages| && EntryFor(packages[i].0, packages[i].1, rootDev, projectBaseName).Some? ==>
              EntryFor(packages[i].0, packages[i].1, rootDev, projectBaseName).value in r
    ensures forall e :: e in r ==>
              exists i :: 0 <= i < |packages| && EntryFor(packages[i].0, packages[i].1, rootDev, projectBaseName) == Some(e)
  {
    if |packages| == 0 then []
    else
      var rest := Records(packages[1..], rootDev, projectBaseName);
      assert forall i :: 1 <= i < |packages| ==> packages[i] == packages[1..][i - 1];
      match EntryFor(packages[0].0, packages[0].1, rootDev, projectBaseName)
      case Some(e) => [e] + rest
      case None => rest
  }

  /** Records come out in lockfile order: reading a concatenation concatenates
      the records of its parts. */
  lemma {:induction false} RecordsAppend(a: seq<(string, PackageData)>, b: seq<(string, PackageData)>,
                                         rootDev: Option<map<string, string>>, projectBaseName: string)
    ensures Records(a + b, rootDev, projectBaseName) ==
      Records(a, rootDev, projectBaseName) + Records(b, rootDev, projectBaseName)
  {
    if |a| > 0 {
      assert (a + b)[1..] == a[1..] + b;
      RecordsAppend(a[1..], b, rootDev, projectBaseName);
    } else {
      assert a + b == b;
    }
  }

  /** `getLockfileDependencies` on an already-read lockfile: `None` for a missing
      or unreadable lockfile or one without `packages`. The `lockfileVersion` test
      in the source has no effect, so it is not modelled. */
  function GetLockfileDependencies(lockfile: Option<LockfileJson>, rootDev: Option<map<string, string>>,
                                   projectBaseName: string): (r: Option<DependencyTable>)
    ensures r.Some? <==> lockfile.Some? && lockfile.value.packages.Some?
    ensures r.Some? ==> forall e :: e in r.value ==>
      (e.key == "/" && e.dep.isRoot) || (StartsWith(e.key, NodeModulesPrefix) && !e.dep.isRoot && e.dep.path == e.key)
  {
    match lockfile
    case None => None
    case Some(json) =>
      match json.packages
      case None => None
      case Some(packages) => Some(Records(packages, rootDev, projectBaseName))
  }

  /** The name derived from a `node_modules/` key keeps the `@scope/` prefix. */
  lemma {:induction false} ScopedNameFromPath(scope: string, name: string, tail: string)
    requires |scope| > 0 && scope[0] == '@' && '/' !in scope && '/' !in name
    requires tail == "" || tail[0] == '/'
    ensures NameFromPath(NodeModulesPrefix + scope + "/" + name + tail) == scope + "/" + name
  {
    var key := NodeModulesPrefix + scope + "/" + name + tail;
    var rest := key[|NodeModulesPrefix|..];
    assert rest == scope + ['/'] + (name + tail);
    IndexOfSeparator(scope, '/', name + tail);
    assert rest[..|scope|] == scope;
    assert rest[|scope| + 1..] == name + tail;
    if tail == "" {
      IndexOfAbsent(name, '/');
      assert (name + tail)[..|name|] == name;
    } else {
      assert name + tail == name + ['/'] + tail[1..];
      IndexOfSeparator(name, '/', tail[1..]);
      assert (name + tail)[..|name|] == name;
    }
  }

  /** An unscoped package is named by its first path segment; for a package nested
      under another one's `node_modules`, that is the outer package's name. */
  lemma {:induction false} PlainNameFromPath(name: string, tail: string)
    requires |name| > 0 && name[0] != '@' && '/' !in name
    requires tail == "" || tail[0] == '/'
    ensures NameFromPath(NodeModulesPrefix + name + tail) == name
  {
    var key := NodeModulesPrefix + name + tail;
    var rest := key[|NodeModulesPrefix|..];
    assert rest == name + tail;
    if tail == "" {
      IndexOfAbsent(name, '/');
      assert rest[..|name|] == name;
    } else {
      assert rest == name + ['/'] + tail[1..];
      IndexOfSeparator(name, '/', tail[1..]);
      assert rest[..|name|] == name;
    }
  }
}
