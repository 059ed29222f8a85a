/** The cases of packman's executor test suite, stated against the model. */
module ExecutorExamples {
  import opened Wrappers
  import opened Lockfile
  import opened UpdateExecutor
  import CliDisplay

  /** packman/tests/update-executor.test.js lines 27-30: a production record
      gives `dependencies`. */
  lemma ProductionType()
    ensures GetDependencyType("prod-pkg", [Entry("node_modules/prod-pkg", CliDisplay.Record("prod-pkg", false, false, false))]) == Prod
  {
  }

  /** packman/tests/update-executor.test.js lines 36-40: the update edit sets the listed
      version. */
  lemma UpdateSetsVersion()
    ensures var m := map["dependencies" := map["pkg-a" := "1.0.0"]];
      UpdateEdit(m, "pkg-a", "1.1.0", Prod) == Some(map["dependencies" := map["pkg-a" := "1.1.0"]])
  {
    var m := map["dependencies" := map["pkg-a" := "1.0.0"]];
    var r := UpdateEdit(m, "pkg-a", "1.1.0", Prod);
    assert Lists(m, "dependencies", "pkg-a");
    assert m.Keys == {"dependencies"} && m["dependencies"].Keys == {"pkg-a"};
    assert r.value["dependencies"] == map["pkg-a" := "1.1.0"];
    assert r.value == map["dependencies" := map["pkg-a" := "1.1.0"]];
  }

  /** packman/tests/update-executor.test.js lines 46-52: the replacement edit drops the
      old name and lists the new one. */
  lemma ReplacementSwapsNames()
    ensures var m := map["dependencies" := map["old-pkg" := "1.0.0"]];
      var r := ReplaceEdit(m, "old-pkg", "new-pkg", "2.0.0", Prod);
      "old-pkg" !in r["dependencies"] && r["dependencies"]["new-pkg"] == "2.0.0"
  {
    var m := map["dependencies" := map["old-pkg" := "1.0.0"]];
    assert Lists(m, "dependencies", "old-pkg");
  }

  /** packman/tests/update-executor.test.js lines 70-78: an optional record is installed
      with `--save-optional`. */
  lemma OptionalInstall()
    ensures var table := [Entry("node_modules/opt-pkg", CliDisplay.Record("opt-pkg", false, true, false))];
      InstallCommand("opt-pkg", "1.1.0", GetDependencyType("opt-pkg", table)) ==
      "npm install opt-pkg@1.1.0 --save-optional"
  {
  }

  /** packman/tests/update-executor.test.js lines 115-131: replacing an optional record
      uninstalls it with `--save-optional` and installs the alternative with `--save`. */
  lemma OptionalReplacementCommands()
    ensures var table := [Entry("node_modules/old-opt-pkg", CliDisplay.Record("old-opt-pkg", false, true, false))];
      var t := GetDependencyType("old-opt-pkg", table);
      && UninstallCommand("old-opt-pkg", t) == "npm uninstall old-opt-pkg --save-optional"
      && InstallCommand("new-pkg", "2.0.0", Prod) == "npm install new-pkg@2.0.0 --save"
  {
  }

  /** Every write succeeds and every command succeeds, creating the lockfile. */
  function Cooperative(): Env {
    Env(i => true, (i: nat, before: Option<string>, c: string) => before,
        (i: nat, c: string, s: Store) => Outcome(true, s.(lockfile := Some("created"))))
  }

  /** The one production record of the update and replacement suites. */
  function ProdTable(name: string): DependencyTable {
    [Entry("node_modules/" + name, CliDisplay.Record(name, false, false, false))]
  }

  /** The trace writes `package.json` first and never writes the lockfile. */
  predicate ManifestOnly(trace: seq<Event>) {
    |trace| > 0 && trace[0].WriteManifest? && forall e :: e in trace ==> !e.WriteLockfile?
  }

  /** With every write and command succeeding, an attempt whose edit is
      accepted succeeds. */
  lemma CooperativeAttempt(x: Exec, text: string, commands: seq<string>)
    requires x.store.manifest.Some?
    ensures Attempt(Cooperative(), x, Some(text), commands).failure.None?
  {
    var x1 := Exec(x.store.(manifest := Some(text)), x.trace + [WriteManifest(text)]);
    CooperativeRuns(x1, commands);
  }

  lemma {:induction false} CooperativeRuns(x: Exec, commands: seq<string>)
    ensures RunCommands(Cooperative(), x, commands).failedAt.None?
    decreases |commands|
  {
    if |commands| > 0 {
      var o := Cooperative().run(|x.trace|, commands[0], x.store);
      CooperativeRuns(Exec(o.store, x.trace + [Run(commands[0])]), commands[1..]);
    }
  }

  /** packman/tests/update-executor.test.js lines 80-91: with no lockfile, a
      successful update writes `package.json`, once, and nothing else. */
  lemma NoLockfileUpdate(codec: Codec, text: string)
    requires codec.parse(text) == Some(map["dependencies" := map["pkg-a" := "1.0.0"]])
    ensures var r := ApplyUpdates(Cooperative(), codec, ProdTable("pkg-a"), Store(Some(text), None),
                                  [Update("pkg-a", "1.0.0", "1.1.0")]);
      r.failed == [] && Writes(r.exec.trace) == 1 && ManifestOnly(r.exec.trace)
  {
    var u := Update("pkg-a", "1.0.0", "1.1.0");
    var x := Exec(Store(Some(text), None), []);
    var table := ProdTable("pkg-a");
    assert GetDependencyType("pkg-a", table) == Prod;
    assert Lists(map["dependencies" := map["pkg-a" := "1.0.0"]], "dependencies", "pkg-a");
    var edited := ModifyForUpdate(codec, text, "pkg-a", "1.1.0", Prod);
    assert edited.Some?;
    var commands := [InstallCommand("pkg-a", "1.1.0", Prod)];
    CooperativeAttempt(x, edited.value, commands);
    AttemptSucceeds(Cooperative(), x, edited, commands);
    assert UpdateStep(Cooperative(), codec, table)(x, u).exec.trace == [WriteManifest(edited.value)] + Runs(commands);
    ApplyUpdatesMeaning(Cooperative(), codec, table, x.store, [u]);
  }

  /** packman/tests/update-executor.test.js lines 133-143: with no lockfile, a
      successful replacement writes `package.json`, once, and nothing else. */
  lemma NoLockfileReplacement(codec: Codec, text: string)
    requires codec.parse(text) == Some(map["dependencies" := map["old-pkg" := "1.0.0"]])
    ensures var r := ApplyReplacements(Cooperative(), codec, ProdTable("old-pkg"), Store(Some(text), None),
                                       [Replacement("old-pkg", "1.0.0", "new-pkg", "2.0.0", "test reason")]);
      r.failed == [] && Writes(r.exec.trace) == 1 && ManifestOnly(r.exec.trace)
  {
    var p := Replacement("old-pkg", "1.0.0", "new-pkg", "2.0.0", "test reason");
    var x := Exec(Store(Some(text), None), []);
    var table := ProdTable("old-pkg");
    assert GetDependencyType("old-pkg", table) == Prod;
    var edited := ModifyForReplacement(codec, text, "old-pkg", "new-pkg", "2.0.0", Prod);
    assert edited.Some?;
    var commands := [UninstallCommand("old-pkg", Prod), InstallCommand("new-pkg", "2.0.0", Prod)];
    CooperativeAttempt(x, edited.value, commands);
    AttemptSucceeds(Cooperative(), x, edited, commands);
    assert ReplacementStep(Cooperative(), codec, table)(x, p).exec.trace == [WriteManifest(edited.value)] + Runs(commands);
    ApplyReplacementsMeaning(Cooperative(), codec, table, x.store, [p]);
  }
}
