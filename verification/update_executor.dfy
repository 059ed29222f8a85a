/** The manifest mutator of packman: which manifest section a package lives in,
    the two edits of `package.json`, the npm commands, and the update and
    replacement queues as a state machine over an abstract two-file store.
    The file system, JSON text and npm are parameters: a codec for the JSON
    text, and an environment that answers whether each write succeeds and what
    each command does. */
module UpdateExecutor {
  import opened Wrappers
  import opened Lockfile

  // ----- dependency types -----

  datatype DepType = Prod | Dev | Optional

  /** The manifest section a dependency type names. */
  function SectionName(t: DepType): string {
    match t
    case Prod => "dependencies"
    case Dev => "devDependencies"
    case Optional => "optionalDependencies"
  }

  /** The type a lockfile record stands for; `isDev` wins over `isOptional`. */
  function TypeOf(d: Dependency): DepType {
    if d.isDev then Dev else if d.isOptional then Optional else Prod
  }

  /** `e` is a non-root record of the package `name`. */
  predicate Names(e: Entry, name: string) {
    e.dep.name == name && !e.dep.isRoot
  }

  /** packman/src/lib/update-executor.js lines 27-37: the type of the first non-root
      record named `name`, in key order, and `dependencies` when there is none. */
  function GetDependencyType(name: string, table: DependencyTable): DepType {
    if |table| == 0 then Prod
    else if Names(table[0], name) then TypeOf(table[0].dep)
    else GetDependencyType(name, table[1..])
  }

  /** The type is decided by the first matching record, and is `dependencies`
      when no record matches. */
  lemma {:induction false} GetDependencyTypeMeaning(name: string, table: DependencyTable)
    ensures (forall i :: 0 <= i < |table| ==> !Names(table[i], name)) ==> GetDependencyType(name, table) == Prod
    ensures forall i :: 0 <= i < |table| && Names(table[i], name) && (forall j :: 0 <= j < i ==> !Names(table[j], name)) ==>
      GetDependencyType(name, table) == TypeOf(table[i].dep)
  {
    if |table| > 0 {
      GetDependencyTypeMeaning(name, table[1..]);
      if !Names(table[0], name) {
        forall i | 0 <= i < |table| && Names(table[i], name) && (forall j :: 0 <= j < i ==> !Names(table[j], name))
          ensures GetDependencyType(name, table) == TypeOf(table[i].dep)
        {
          assert table[1..][i - 1] == table[i];
          forall j | 0 <= j < i - 1 ensures !Names(table[1..][j], name) {
            assert table[1..][j] == table[j + 1];
          }
        }
        forall i | 0 <= i < |table| - 1 ensures !Names(table[1..][i], name) || exists k :: 0 <= k < |table| && Names(table[k], name) {
          assert table[1..][i] == table[i + 1];
        }
      }
    }
  }

  // ----- manifest edits -----

  /** One section of `package.json`: package name to version text. */
  type Section = map<string, string>

  /** The sections of `package.json` that the edits touch, by name. */
  type Manifest = map<string, Section>

  /** The manifest's section `sec` lists `name` with a non-empty version, the
      JavaScript test `packageJson[sec] && packageJson[sec][name]`. */
  predicate Lists(m: Manifest, sec: string, name: string) {
    sec in m && name in m[sec] && m[sec][name] != ""
  }

  /** packman/src/lib/update-executor.js lines 42-43: set `name` to `target` in its
      section, only when listed there. */
  function UpdateEdit(m: Manifest, name: string, target: string, t: DepType): (r: Option<Manifest>)
    ensures r.Some? <==> Lists(m, SectionName(t), name)
    ensures r.Some? ==>
      && r.value.Keys == m.Keys
      && r.value[SectionName(t)].Keys == m[SectionName(t)].Keys
      && r.value[SectionName(t)][name] == target
    ensures r.Some? ==> forall s {:trigger s in m} :: s in m && s != SectionName(t) ==> r.value[s] == m[s]
    ensures r.Some? ==> forall n {:trigger n in m[SectionName(t)]} ::
      n in m[SectionName(t)] && n != name ==> r.value[SectionName(t)][n] == m[SectionName(t)][n]
  {
    var sec := SectionName(t);
    if Lists(m, sec, name) then Some(m[sec := m[sec][name := target]]) else None
  }

  /** packman/src/lib/update-executor.js lines 56-62: drop the original from its section
      when listed there, create `dependencies` when missing, and list the alternative
      there. */
  function ReplaceEdit(m: Manifest, original: string, alternative: string, version: string, t: DepType): (r: Manifest)
    ensures "dependencies" in r && alternative in r["dependencies"] && r["dependencies"][alternative] == version
    ensures r.Keys == m.Keys + {"dependencies"}
    ensures forall s {:trigger s in m} :: s in m && s != SectionName(t) && s != "dependencies" ==> r[s] == m[s]
    ensures SectionName(t) in m && (SectionName(t) != "dependencies" || original != alternative)
      && (original in m[SectionName(t)] ==> m[SectionName(t)][original] != "")
      ==> original !in r[SectionName(t)]
    ensures forall n {:trigger n in m[SectionName(t)]} ::
      SectionName(t) in m && n in m[SectionName(t)] && n != original && (SectionName(t) == "dependencies" ==> n != alternative)
      ==> n in r[SectionName(t)] && r[SectionName(t)][n] == m[SectionName(t)][n]
    ensures forall n {:trigger n in m["dependencies"]} ::
      "dependencies" in m && n in m["dependencies"] && n != alternative && (SectionName(t) == "dependencies" ==> n != original)
      ==> n in r["dependencies"] && r["dependencies"][n] == m["dependencies"][n]
    ensures SectionName(t) in m && SectionName(t) != "dependencies" ==>
      r[SectionName(t)].Keys == m[SectionName(t)].Keys - (if Lists(m, SectionName(t), original) then {original} else {})
    ensures r["dependencies"].Keys ==
      (if "dependencies" in m then m["dependencies"].Keys else {})
      - (if SectionName(t) == "dependencies" && Lists(m, "dependencies", original) then {original} else {})
      + {alternative}
  {
    var sec := SectionName(t);
    var m1 := if Lists(m, sec, original) then m[sec := m[sec] - {original}] else m;
    var deps := if "dependencies" in m1 then m1["dependencies"] else map[];
    m1["dependencies" := deps[alternative := version]]
  }

  // ----- indent detection -----

  /** JavaScript's `\s`: white space and line terminators. */
  predicate IsSpace(c: char) {
    || c == '\t' || c == '\n' || c == '\U{000B}' || c == '\U{000C}' || c == '\r' || c == ' '
    || c == '\U{00A0}' || c == '\U{1680}' || ('\U{2000}' <= c <= '\U{200A}')
    || c == '\U{2028}' || c == '\U{2029}' || c == '\U{202F}' || c == '\U{205F}'
    || c == '\U{3000}' || c == '\U{FEFF}'
  }

  predicate IsLineTerminator(c: char) {
    c == '\n' || c == '\r' || c == '\U{2028}' || c == '\U{2029}'
  }

  /** Where `^` matches in multiline mode. */
  predicate LineStart(s: string, p: nat) {
    p == 0 || (0 < p <= |s| && IsLineTerminator(s[p - 1]))
  }

  const NameKey: string := "\"name\":"

  /** The end of the run of spaces that starts at `p`. */
  function SpaceRun(s: string, p: nat): (e: nat)
    requires p <= |s|
    ensures p <= e <= |s|
    ensures forall i :: p <= i < e ==> IsSpace(s[i])
    ensures e < |s| ==> !IsSpace(s[e])
    decreases |s| - p
  {
    if p < |s| && IsSpace(s[p]) then SpaceRun(s, p + 1) else p
  }

  /** The indent the pattern `^(\s+)"name":` captures at `p`, if it matches there. */
  function IndentAt(s: string, p: nat): Option<nat>
    requires p <= |s|
  {
    if !LineStart(s, p) then None
    else
      var e := SpaceRun(s, p);
      if e > p && NameKey <= s[e..] then Some(e - p) else None
  }

  /** Where the pattern first matches and the indent it captures there. */
  datatype Capture = Capture(at: nat, indent: nat)

  /** The first match at or after `p`. */
  function FirstIndent(s: string, p: nat): Option<Capture>
    requires p <= |s|
    decreases |s| - p
  {
    match IndentAt(s, p)
    case Some(n) => Some(Capture(p, n))
    case None => if p == |s| then None else FirstIndent(s, p + 1)
  }

  /** packman/src/lib/update-executor.js lines 44 and 63: the captured indent's length,
      2 when nothing matches. */
  function DetectIndent(s: string): nat {
    match FirstIndent(s, 0)
    case Some(c) => c.indent
    case None => 2
  }

  /** The pattern matches at `p` with `k` spaces before `"name":`. */
  predicate Matches(s: string, p: nat, k: nat) {
    && LineStart(s, p) && k >= 1 && p + k <= |s|
    && (forall i :: p <= i < p + k ==> IsSpace(s[i]))
    && NameKey <= s[p + k..]
  }

  /** At each position the pattern captures at most one indent, the one
      `IndentAt` finds. */
  lemma {:induction false} IndentAtMeaning(s: string, p: nat, k: nat)
    requires p <= |s|
    ensures Matches(s, p, k) <==> IndentAt(s, p) == Some(k)
  {
    var e := SpaceRun(s, p);
    if Matches(s, p, k) {
      assert s[p + k..][0] == NameKey[0] == '"';
      assert !IsSpace(s[p + k]);
    }
  }

  /** The indent is the one captured at the first position where the pattern
      matches, or 2 when it matches nowhere; it is never 0. */
  lemma {:induction false} DetectIndentMeaning(s: string)
    ensures DetectIndent(s) >= 1
    ensures (forall p, k :: !Matches(s, p, k)) ==> DetectIndent(s) == 2
    ensures (exists p, k :: Matches(s, p, k)) ==>
      exists p :: Matches(s, p, DetectIndent(s)) && forall q, k :: q < p ==> !Matches(s, q, k)
  {
    FirstIndentMeaning(s, 0);
    match FirstIndent(s, 0)
    case None =>
      forall p: nat, k: nat | Matches(s, p, k) ensures false {
        IndentAtMeaning(s, p, k);
      }
    case Some(c) =>
      IndentAtMeaning(s, c.at, c.indent);
      forall q: nat, k: nat | q < c.at ensures !Matches(s, q, k) {
        IndentAtMeaning(s, q, k);
        assert IndentAt(s, q).None?;
      }
      assert Matches(s, c.at, DetectIndent(s));
  }

  /** No position in `p..e` captures an indent. */
  ghost predicate NoneBetween(s: string, p: nat, e: nat) {
    forall q :: p <= q < e && q <= |s| ==> IndentAt(s, q).None?
  }

  /** The scan finds the first position at or after `p` where `IndentAt`
      captures an indent. */
  lemma {:induction false} FirstIndentMeaning(s: string, p: nat)
    requires p <= |s|
    ensures FirstIndent(s, p).None? <==> NoneBetween(s, p, |s| + 1)
    ensures FirstIndent(s, p).Some? ==>
      var c := FirstIndent(s, p).value;
      && p <= c.at <= |s| && IndentAt(s, c.at) == Some(c.indent)
      && NoneBetween(s, p, c.at)
    decreases |s| - p
  {
    if IndentAt(s, p).None? && p < |s| {
      FirstIndentMeaning(s, p + 1);
      var r := FirstIndent(s, p + 1);
      assert FirstIndent(s, p) == r;
      if r.None? {
        assert NoneBetween(s, p, |s| + 1);
      } else {
        assert NoneBetween(s, p, r.value.at);
      }
    }
  }

  // ----- the edits on the manifest text -----

  /** `JSON.parse` and `JSON.stringify(_, null, indent)` on the sections the
      edits touch; `parse` is `None` when the text is not a JSON object. */
  datatype Codec = Codec(parse: string -> Option<Manifest>, stringify: (Manifest, nat) -> string)

  /** The codec reads back whatever it prints. */
  ghost predicate ReadsBack(codec: Codec) {
    forall m, n :: codec.parse(codec.stringify(m, n)) == Some(m)
  }

  /** packman/src/lib/update-executor.js lines 39-51: the update edit on the text;
      `None` is the `null` result. */
  function ModifyForUpdate(codec: Codec, content: string, name: string, target: string, t: DepType): Option<string> {
    match codec.parse(content)
    case None => None
    case Some(m) =>
      match UpdateEdit(m, name, target, t)
      case None => None
      case Some(edited) => Some(codec.stringify(edited, DetectIndent(content)))
  }

  /** packman/src/lib/update-executor.js lines 53-68: the replacement edit on the text;
      it fails only when the text does not parse. */
  function ModifyForReplacement(codec: Codec, content: string, original: string, alternative: string,
                                version: string, t: DepType): Option<string> {
    match codec.parse(content)
    case None => None
    case Some(m) => Some(codec.stringify(ReplaceEdit(m, original, alternative, version, t), DetectIndent(content)))
  }

  /** The update edit gives a text exactly when the text parses and lists the
      package in its section; with a codec that reads back what it prints, the
      new text reads as the manifest with only that entry changed. */
  lemma {:induction false} ModifyForUpdateMeaning(codec: Codec, content: string, name: string, target: string, t: DepType)
    requires ReadsBack(codec)
    ensures ModifyForUpdate(codec, content, name, target, t).Some? <==>
      codec.parse(content).Some? && Lists(codec.parse(content).value, SectionName(t), name)
    ensures ModifyForUpdate(codec, content, name, target, t).Some? ==>
      codec.parse(ModifyForUpdate(codec, content, name, target, t).value) == UpdateEdit(codec.parse(content).value, name, target, t)
  {
  }

  /** The replacement edit never fails for a text that parses, whether or not
      the original is listed; the new text reads as the edited manifest. */
  lemma {:induction false} ModifyForReplacementMeaning(codec: Codec, content: string, original: string, alternative: string,
                                                       version: string, t: DepType)
    requires ReadsBack(codec)
    ensures ModifyForReplacement(codec, content, original, alternative, version, t).Some? <==> codec.parse(content).Some?
    ensures ModifyForReplacement(codec, content, original, alternative, version, t).Some? ==>
      codec.parse(ModifyForReplacement(codec, content, original, alternative, version, t).value)
        == Some(ReplaceEdit(codec.parse(content).value, original, alternative, version, t))
  {
  }

  // ----- npm commands -----

  function InstallFlag(t: DepType): string {
    match t
    case Prod => " --save"
    case Dev => " --save-dev"
    case Optional => " --save-optional"
  }

  function UninstallFlag(t: DepType): string {
    match t
    case Prod => ""
    case Dev => " --save-dev"
    case Optional => " --save-optional"
  }

  /** packman/src/lib/update-executor.js lines 106-109 and 176. */
  function InstallCommand(name: string, version: string, t: DepType): string {
    "npm install " + name + "@" + version + InstallFlag(t)
  }

  /** packman/src/lib/update-executor.js lines 168-170. */
  function UninstallCommand(name: string, t: DepType): string {
    "npm uninstall " + name + UninstallFlag(t)
  }

  lemma SuffixOfConcat(a: string, b: string, c: string)
    requires a + b == a + c
    ensures b == c
  {
    assert (a + b)[|a|..] == b;
    assert (a + c)[|a|..] == c;
  }

  /** The flags tell the three dependency types apart: a command determines the
      type it was built for. */
  lemma {:induction false} CommandsDetermineType(name: string, version: string, t1: DepType, t2: DepType)
    ensures InstallCommand(name, version, t1) == InstallCommand(name, version, t2) <==> t1 == t2
    ensures UninstallCommand(name, t1) == UninstallCommand(name, t2) <==> t1 == t2
  {
    if InstallCommand(name, version, t1) == InstallCommand(name, version, t2) {
      SuffixOfConcat("npm install " + name + "@" + version, InstallFlag(t1), InstallFlag(t2));
    }
    if UninstallCommand(name, t1) == UninstallCommand(name, t2) {
      SuffixOfConcat("npm uninstall " + name, UninstallFlag(t1), UninstallFlag(t2));
    }
  }

  // ----- the store, the environment and the trace -----

  /** `package.json` and `package-lock.json`; `None` is a file that does not exist. */
  datatype Store = Store(manifest: Option<string>, lockfile: Option<string>)

  /** The effects an operation attempts, in order. */
  datatype Event = WriteManifest(content: string) | WriteLockfile(content: string) | Run(command: string)

  /** What a command did: whether it succeeded, and the files it left. */
  datatype Outcome = Outcome(ok: bool, store: Store)

  /** The world outside the model: whether the write attempted as the `i`-th
      event succeeds; what a file that held `before` holds after the `i`-th
      event, a write of `content`, failed (`fs.writeFileSync` truncates before
      it writes, so the answer may be the old text, nothing, or part of
      `content`); and what the command run as the `i`-th event does. */
  datatype Env = Env(
    writeOk: nat -> bool,
    afterFailedWrite: (nat, Option<string>, string) -> Option<string>,
    run: (nat, string, Store) -> Outcome)

  /** The files and every effect attempted so far. */
  datatype Exec = Exec(store: Store, trace: seq<Event>)

  /** Why an operation failed. */
  datatype Reason = ManifestMissing | EditRejected | WriteFailed | CommandFailed(command: string)

  /** The state after one operation, and its failure if it failed. */
  datatype Step = Step(exec: Exec, failure: Option<Reason>)

  /** The run event of each command, in order. */
  function Runs(commands: seq<string>): (r: seq<Event>)
    ensures |r| == |commands| && forall i :: 0 <= i < |r| ==> r[i] == Run(commands[i])
  {
    seq(|commands|, i requires 0 <= i < |commands| => Run(commands[i]))
  }

  /** The state after a list of commands, and the position of the one that
      failed, if one did. */
  datatype Ran = Ran(exec: Exec, failedAt: Option<nat>)

  /** packman/src/lib/update-executor.js lines 112 and 173-178: the commands in order,
      up to the first that fails. */
  function RunCommands(env: Env, x: Exec, commands: seq<string>): (r: Ran)
    ensures r.failedAt.Some? ==> r.failedAt.value < |commands|
    decreases |commands|
  {
    if |commands| == 0 then Ran(x, None)
    else
      var o := env.run(|x.trace|, commands[0], x.store);
      var x1 := Exec(o.store, x.trace + [Run(commands[0])]);
      if !o.ok then Ran(x1, Some(0))
      else
        var rest := RunCommands(env, x1, commands[1..]);
        Ran(rest.exec, if rest.failedAt.Some? then Some(rest.failedAt.value + 1) else None)
  }

  /** The run events of a prefix are the first command's followed by those of
      the rest's prefix. */
  lemma {:induction false} RunsCons(commands: seq<string>, n: nat)
    requires 0 < n <= |commands|
    ensures Runs(commands[..n]) == [Run(commands[0])] + Runs(commands[1..][..n - 1])
  {
    assert commands[..n] == [commands[0]] + commands[1..][..n - 1];
  }

  /** The commands run in order and none after the first failure: the trace
      grows by the run events of all commands, or of those up to and including
      the one that failed. */
  lemma {:induction false} RunCommandsTrace(env: Env, x: Exec, commands: seq<string>)
    ensures var r := RunCommands(env, x, commands);
      && (r.failedAt.None? ==> r.exec.trace == x.trace + Runs(commands))
      && (r.failedAt.Some? ==> r.failedAt.value < |commands| && r.exec.trace == x.trace + Runs(commands[..r.failedAt.value + 1]))
  {
    var r := RunCommands(env, x, commands);
    if r.failedAt.None? {
      CompletedTrace(env, x, commands);
    } else {
      StoppedTrace(env, x, commands, r.failedAt.value);
    }
  }

  lemma {:induction false} CompletedTrace(env: Env, x: Exec, commands: seq<string>)
    requires RunCommands(env, x, commands).failedAt.None?
    ensures RunCommands(env, x, commands).exec.trace == x.trace + Runs(commands)
    decreases |commands|
  {
    if |commands| > 0 {
      var o := env.run(|x.trace|, commands[0], x.store);
      var x1 := Exec(o.store, x.trace + [Run(commands[0])]);
      CompletedTrace(env, x1, commands[1..]);
      assert Runs(commands) == [Run(commands[0])] + Runs(commands[1..]);
    }
  }

  lemma {:induction false} StoppedTrace(env: Env, x: Exec, commands: seq<string>, k: nat)
    requires RunCommands(env, x, commands).failedAt == Some(k)
    ensures k < |commands| && RunCommands(env, x, commands).exec.trace == x.trace + Runs(commands[..k + 1])
    decreases |commands|
  {
    var o := env.run(|x.trace|, commands[0], x.store);
    var x1 := Exec(o.store, x.trace + [Run(commands[0])]);
    if !o.ok {
      assert Runs(commands[..1]) == [Run(commands[0])];
    } else {
      StoppedTrace(env, x1, commands[1..], k - 1);
      RunsCons(commands, k + 1);
    }
  }

  /** packman/src/lib/update-executor.js lines 120-127 and 186-192: write the manifest
      snapshot back, then the lockfile snapshot (`''` when there was none) when it is
      non-empty or a lockfile now exists; the first write that fails ends the rollback. */
  function Rollback(env: Env, x: Exec, snapshot: Store): Exec
    requires snapshot.manifest.Some?
  {
    var x1 := Exec(x.store, x.trace + [WriteManifest(snapshot.manifest.value)]);
    if !env.writeOk(|x.trace|) then
      Exec(x.store.(manifest := env.afterFailedWrite(|x.trace|, x.store.manifest, snapshot.manifest.value)), x1.trace)
    else
      var x2 := Exec(x.store.(manifest := snapshot.manifest), x1.trace);
      var lock := snapshot.lockfile.GetOr("");
      if lock != "" || x2.store.lockfile.Some? then
        var x3 := Exec(x2.store, x2.trace + [WriteLockfile(lock)]);
        if env.writeOk(|x2.trace|) then Exec(x3.store.(lockfile := Some(lock)), x3.trace)
        else Exec(x3.store.(lockfile := env.afterFailedWrite(|x2.trace|, x2.store.lockfile, lock)), x3.trace)
      else x2
  }

  /** One operation after the manifest has been read: write the edited text,
      run the commands, and roll back if one fails. */
  function Attempt(env: Env, x: Exec, edited: Option<string>, commands: seq<string>): Step
    requires x.store.manifest.Some?
  {
    match edited
    case None => Step(x, Some(EditRejected))
    case Some(text) =>
      var x1 := Exec(x.store, x.trace + [WriteManifest(text)]);
      if !env.writeOk(|x.trace|) then
        Step(Exec(x.store.(manifest := env.afterFailedWrite(|x.trace|, x.store.manifest, text)), x1.trace), Some(WriteFailed))
      else
        var ran := RunCommands(env, Exec(x.store.(manifest := edited), x1.trace), commands);
        match ran.failedAt
        case None => Step(ran.exec, None)
        case Some(k) =>
          Step(Rollback(env, ran.exec, x.store), Some(CommandFailed(commands[k])))
  }

  /** The number of writes among the events. */
  function Writes(events: seq<Event>): nat {
    if |events| == 0 then 0
    else (if events[0].Run? then 0 else 1) + Writes(events[1..])
  }

  lemma {:induction false} WritesAppend(a: seq<Event>, b: seq<Event>)
    ensures Writes(a + b) == Writes(a) + Writes(b)
  {
    if |a| > 0 {
      assert (a + b)[1..] == a[1..] + b;
      WritesAppend(a[1..], b);
    } else {
      assert a + b == b;
    }
  }

  lemma {:induction false} WritesOfRuns(commands: seq<string>)
    ensures Writes(Runs(commands)) == 0
  {
    if |commands| > 0 {
      assert Runs(commands)[1..] == Runs(commands[1..]);
      WritesOfRuns(commands[1..]);
    }
  }

  /** A successful operation writes the manifest once, with the edited text,
      runs every command, and writes nothing else. */
  lemma {:induction false} AttemptSucceeds(env: Env, x: Exec, edited: Option<string>, commands: seq<string>)
    requires x.store.manifest.Some?
    requires Attempt(env, x, edited, commands).failure.None?
    ensures edited.Some?
    ensures Attempt(env, x, edited, commands).exec.trace == x.trace + [WriteManifest(edited.value)] + Runs(commands)
    ensures Writes(Attempt(env, x, edited, commands).exec.trace) == Writes(x.trace) + 1
  {
    var x1 := Exec(x.store.(manifest := edited), x.trace + [WriteManifest(edited.value)]);
    RunCommandsTrace(env, x1, commands);
    WritesAppend(x.trace, [WriteManifest(edited.value)]);
    WritesAppend(x.trace + [WriteManifest(edited.value)], Runs(commands));
    WritesOfRuns(commands);
    assert Writes([WriteManifest(edited.value)]) == 1;
  }

  /** An operation that fails before its manifest write has succeeded rolls
      nothing back and runs nothing: a rejected edit attempts nothing at all;
      a failed write is the last event, the lockfile is untouched, and the
      manifest holds whatever the failed write left, which is the old text
      only when the environment says the write left it intact. */
  lemma {:induction false} AttemptFailsBeforeWrite(env: Env, x: Exec, edited: Option<string>, commands: seq<string>)
    requires x.store.manifest.Some?
    requires edited.None? || !env.writeOk(|x.trace|)
    ensures Attempt(env, x, edited, commands).failure == Some(if edited.None? then EditRejected else WriteFailed)
    ensures edited.None? ==> Attempt(env, x, edited, commands).exec == x
    ensures edited.Some? ==>
      && Attempt(env, x, edited, commands).exec.trace == x.trace + [WriteManifest(edited.value)]
      && Attempt(env, x, edited, commands).exec.store.lockfile == x.store.lockfile
      && Attempt(env, x, edited, commands).exec.store.manifest
         == env.afterFailedWrite(|x.trace|, x.store.manifest, edited.value)
  {
  }

  /** A command failure after the manifest write rolls back: when the rollback
      writes succeed, the manifest is the snapshot again, a lockfile that was
      there with content is restored, one that was there empty stays as the
      commands left it or is emptied, and one that the commands created is
      emptied rather than removed. */
  lemma {:induction false} AttemptRollsBack(env: Env, x: Exec, edited: Option<string>, commands: seq<string>)
    requires x.store.manifest.Some? && edited.Some? && env.writeOk(|x.trace|)
    requires Attempt(env, x, edited, commands).failure.Some?
    requires forall i :: |x.trace| < i ==> env.writeOk(i)
    ensures Attempt(env, x, edited, commands).failure.value.CommandFailed?
    ensures var after := Attempt(env, x, edited, commands).exec.store;
      && after.manifest == x.store.manifest
      && (x.store.lockfile.Some? && x.store.lockfile.value != "" ==> after.lockfile == x.store.lockfile)
    ensures var left := RunCommands(env, Exec(x.store.(manifest := edited), x.trace + [WriteManifest(edited.value)]), commands).exec;
      var after := Attempt(env, x, edited, commands).exec.store;
      x.store.lockfile.GetOr("") == "" ==> after.lockfile == (if left.store.lockfile.Some? then Some("") else None)
  {
    var x1 := Exec(x.store.(manifest := edited), x.trace + [WriteManifest(edited.value)]);
    RunCommandsTrace(env, x1, commands);
    assert |RunCommands(env, x1, commands).exec.trace| > |x.trace|;
  }

  /** A failed rollback write is not a second failure: the operation reports
      the command that failed, whatever the rollback writes do. */
  lemma {:induction false} RollbackReportsCommand(env: Env, x: Exec, edited: Option<string>, commands: seq<string>)
    requires x.store.manifest.Some? && edited.Some? && env.writeOk(|x.trace|)
    requires Attempt(env, x, edited, commands).failure.Some?
    ensures exists c :: c in commands && Attempt(env, x, edited, commands).failure == Some(CommandFailed(c))
  {
    var x1 := Exec(x.store.(manifest := edited), x.trace + [WriteManifest(edited.value)]);
    RunCommandsTrace(env, x1, commands);
    var k := RunCommands(env, x1, commands).failedAt.value;
    assert commands[k] in commands;
  }

  // ----- the two operations -----

  datatype Update = Update(name: string, currentVersion: string, targetVersion: string)

  datatype Replacement = Replacement(originalName: string, originalVersion: string,
                                     alternativeName: string, alternativeVersion: string, reason: string)

  /** packman/src/lib/update-executor.js lines 89-116: one update. A missing
      manifest fails it before anything is attempted, and only a missing
      manifest fails it for that reason. */
  function ApplyUpdate(env: Env, codec: Codec, table: DependencyTable, x: Exec, u: Update): (r: Step)
    ensures x.store.manifest.None? ==> r == Step(x, Some(ManifestMissing))
    ensures r.failure == Some(ManifestMissing) <==> x.store.manifest.None?
  {
    match x.store.manifest
    case None => Step(x, Some(ManifestMissing))
    case Some(original) =>
      var t := GetDependencyType(u.name, table);
      Attempt(env, x, ModifyForUpdate(codec, original, u.name, u.targetVersion, t),
              [InstallCommand(u.name, u.targetVersion, t)])
  }

  /** packman/src/lib/update-executor.js lines 148-182: one replacement; the alternative
      is always installed as a production dependency. A missing manifest fails
      it before anything is attempted, and only a missing manifest fails it
      for that reason. */
  function ApplyReplacement(env: Env, codec: Codec, table: DependencyTable, x: Exec, r: Replacement): (s: Step)
    ensures x.store.manifest.None? ==> s == Step(x, Some(ManifestMissing))
    ensures s.failure == Some(ManifestMissing) <==> x.store.manifest.None?
  {
    match x.store.manifest
    case None => Step(x, Some(ManifestMissing))
    case Some(original) =>
      var t := GetDependencyType(r.originalName, table);
      Attempt(env, x, ModifyForReplacement(codec, original, r.originalName, r.alternativeName, r.alternativeVersion, t),
              [UninstallCommand(r.originalName, t), InstallCommand(r.alternativeName, r.alternativeVersion, Prod)])
  }

  // ----- the queues -----

  /** The files and effects after a queue, the operations that succeeded and
      those that failed with their reasons. */
  datatype Report<T> = Report(exec: Exec, successful: seq<T>, failed: seq<(T, Reason)>)

  /** packman/src/lib/update-executor.js lines 89-138 and 148-203: the operations in
      order, stopping at the first that fails. */
  function RunQueue<T>(step: (Exec, T) -> Step, x: Exec, ops: seq<T>): Report<T>
    decreases |ops|
  {
    if |ops| == 0 then Report(x, [], [])
    else
      var s := step(x, ops[0]);
      if s.failure.Some? then Report(s.exec, [], [(ops[0], s.failure.value)])
      else
        var rest := RunQueue(step, s.exec, ops[1..]);
        Report(rest.exec, [ops[0]] + rest.successful, rest.failed)
  }

  /** The queue halts at the first failure: the successful operations are a
      prefix of the input, at most one fails, and it is the next one. */
  lemma {:induction false} QueueHalts<T>(step: (Exec, T) -> Step, x: Exec, ops: seq<T>)
    ensures var r := RunQueue(step, x, ops);
      && |r.successful| <= |ops| && r.successful == ops[..|r.successful|]
      && |r.failed| <= 1
      && (r.failed == [] <==> r.successful == ops)
      && (r.failed != [] ==> |r.successful| < |ops| && r.failed[0].0 == ops[|r.successful|])
    decreases |ops|
  {
    if |ops| > 0 {
      var s := step(x, ops[0]);
      if s.failure.None? {
        QueueHalts(step, s.exec, ops[1..]);
        var rest := RunQueue(step, s.exec, ops[1..]);
        var n := |rest.successful|;
        assert ops[1..][..n] == ops[1..n + 1];
        assert ops[..n + 1] == [ops[0]] + ops[1..][..n];
      }
    }
  }

  /** Nothing after the failing operation is attempted: the queue cut just
      after it gives the same report, and the reason is what that operation's
      step reported on the files the successful prefix left behind. */
  lemma {:induction false} QueueStops<T>(step: (Exec, T) -> Step, x: Exec, ops: seq<T>)
    ensures var r := RunQueue(step, x, ops);
      r.failed != [] ==>
        && |r.successful| < |ops|
        && RunQueue(step, x, ops[..|r.successful| + 1]) == r
        && Some(r.failed[0].1) == step(RunQueue(step, x, ops[..|r.successful|]).exec, ops[|r.successful|]).failure
    decreases |ops|
  {
    QueueHalts(step, x, ops);
    if |ops| > 0 {
      var s := step(x, ops[0]);
      if s.failure.Some? {
        assert ops[..1] == [ops[0]];
        assert ops[..0] == [];
      } else {
        QueueStops(step, s.exec, ops[1..]);
        var rest := RunQueue(step, s.exec, ops[1..]);
        var n := |rest.successful|;
        if rest.failed != [] {
          assert ops[..n + 2][1..] == ops[1..][..n + 1];
          assert ops[..n + 1][1..] == ops[1..][..n];
        }
      }
    }
  }

  /** A queue whose operations each write once when they succeed writes once
      per operation when all of them succeed. */
  lemma {:induction false} QueueWrites<T>(step: (Exec, T) -> Step, x: Exec, ops: seq<T>)
    requires forall y, o :: step(y, o).failure.None? ==> Writes(step(y, o).exec.trace) == Writes(y.trace) + 1
    ensures RunQueue(step, x, ops).failed == [] ==> Writes(RunQueue(step, x, ops).exec.trace) == Writes(x.trace) + |ops|
    decreases |ops|
  {
    if |ops| > 0 && step(x, ops[0]).failure.None? {
      QueueWrites(step, step(x, ops[0]).exec, ops[1..]);
    }
  }

  function UpdateStep(env: Env, codec: Codec, table: DependencyTable): (Exec, Update) -> Step {
    (x, u) => ApplyUpdate(env, codec, table, x, u)
  }

  function ReplacementStep(env: Env, codec: Codec, table: DependencyTable): (Exec, Replacement) -> Step {
    (x, r) => ApplyReplacement(env, codec, table, x, r)
  }

  /** `applyUpdates` from the given files. */
  function ApplyUpdates(env: Env, codec: Codec, table: DependencyTable, store: Store, updates: seq<Update>): Report<Update> {
    RunQueue(UpdateStep(env, codec, table), Exec(store, []), updates)
  }

  /** `applyReplacements` from the given files. */
  function ApplyReplacements(env: Env, codec: Codec, table: DependencyTable, store: Store,
                             replacements: seq<Replacement>): Report<Replacement> {
    RunQueue(ReplacementStep(env, codec, table), Exec(store, []), replacements)
  }

  /** A successful update or replacement writes the manifest once and nothing
      else. */
  lemma {:induction false} StepsWriteOnce(env: Env, codec: Codec, table: DependencyTable)
    ensures forall y, u :: UpdateStep(env, codec, table)(y, u).failure.None? ==>
      Writes(UpdateStep(env, codec, table)(y, u).exec.trace) == Writes(y.trace) + 1
    ensures forall y, r :: ReplacementStep(env, codec, table)(y, r).failure.None? ==>
      Writes(ReplacementStep(env, codec, table)(y, r).exec.trace) == Writes(y.trace) + 1
  {
    forall y, u | UpdateStep(env, codec, table)(y, u).failure.None?
      ensures Writes(UpdateStep(env, codec, table)(y, u).exec.trace) == Writes(y.trace) + 1
    {
      var t := GetDependencyType(u.name, table);
      AttemptSucceeds(env, y, ModifyForUpdate(codec, y.store.manifest.value, u.name, u.targetVersion, t),
                      [InstallCommand(u.name, u.targetVersion, t)]);
    }
    forall y, r | ReplacementStep(env, codec, table)(y, r).failure.None?
      ensures Writes(ReplacementStep(env, codec, table)(y, r).exec.trace) == Writes(y.trace) + 1
    {
      var t := GetDependencyType(r.originalName, table);
      AttemptSucceeds(env, y, ModifyForReplacement(codec, y.store.manifest.value, r.originalName, r.alternativeName, r.alternativeVersion, t),
                      [UninstallCommand(r.originalName, t), InstallCommand(r.alternativeName, r.alternativeVersion, Prod)]);
    }
  }

  /** `applyUpdates` halts at the first failure, and when every update succeeds
      it has written the manifest once per update and the lockfile never. */
  lemma {:induction false} ApplyUpdatesMeaning(env: Env, codec: Codec, table: DependencyTable, store: Store, updates: seq<Update>)
    ensures var r := ApplyUpdates(env, codec, table, store, updates);
      && |r.successful| <= |updates| && r.successful == updates[..|r.successful|] && |r.failed| <= 1
      && (r.failed == [] <==> r.successful == updates)
      && (r.failed != [] ==> r.failed[0].0 == updates[|r.successful|])
      && (r.failed == [] ==> Writes(r.exec.trace) == |updates|)
  {
    QueueHalts(UpdateStep(env, codec, table), Exec(store, []), updates);
    StepsWriteOnce(env, codec, table);
    QueueWrites(UpdateStep(env, codec, table), Exec(store, []), updates);
  }

  /** `applyReplacements` halts at the first failure, and when every
      replacement succeeds it has written the manifest once per replacement. */
  lemma {:induction false} ApplyReplacementsMeaning(env: Env, codec: Codec, table: DependencyTable, store: Store,
                                                    replacements: seq<Replacement>)
    ensures var r := ApplyReplacements(env, codec, table, store, replacements);
      && |r.successful| <= |replacements| && r.successful == replacements[..|r.successful|] && |r.failed| <= 1
      && (r.failed == [] <==> r.successful == replacements)
      && (r.failed != [] ==> r.failed[0].0 == replacements[|r.successful|])
      && (r.failed == [] ==> Writes(r.exec.trace) == |replacements|)
  {
    QueueHalts(ReplacementStep(env, codec, table), Exec(store, []), replacements);
    StepsWriteOnce(env, codec, table);
    QueueWrites(ReplacementStep(env, codec, table), Exec(store, []), replacements);
  }
}
