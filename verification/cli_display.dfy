/** The dependency-type filter of the interactive prompt
    (`filterDependenciesByType`): which enriched records are offered once the
    user has picked the sections they care about. */
module CliDisplay {
  import opened Wrappers
  import opened Lockfile
  import opened UpdateExecutor

  /** The filter's test on one record: never the root; a production record
      when `dependencies` is picked, a dev record when `devDependencies` is,
      an optional record when `optionalDependencies` is. A record flagged both
      dev and optional passes under either of those two. */
  predicate Selected(selected: seq<string>, d: Dependency) {
    && !d.isRoot
    && (|| ("dependencies" in selected && !d.isDev && !d.isOptional)
        || ("devDependencies" in selected && d.isDev)
        || ("optionalDependencies" in selected && d.isOptional))
  }

  /** The records of `table` that pass, in their original order. */
  function Filter(table: DependencyTable, selected: seq<string>): (r: DependencyTable)
    ensures |r| <= |table|
    ensures forall e {:trigger e in r} :: e in r <==> e in table && Selected(selected, e.dep)
  {
    if |table| == 0 then []
    else
      assert table == [table[0]] + table[1..];
      var rest := Filter(table[1..], selected);
      if Selected(selected, table[0].dep) then [table[0]] + rest else rest
  }

  /** src/lib/cli-display.js lines 80-98: no table gives the empty object; otherwise the
      passing records, keyed as before, in key order. */
  function FilterDependenciesByType(enriched: Option<DependencyTable>, selected: seq<string>): (r: DependencyTable)
    ensures enriched.None? ==> r == []
    ensures forall e {:trigger e in r} :: e in r <==> enriched.Some? && e in enriched.value && Selected(selected, e.dep)
  {
    match enriched
    case None => []
    case Some(table) => Filter(table, selected)
  }

  // ----- properties -----

  /** For a non-root record that is not flagged both ways, the filter keeps it
      exactly when the section its manifest type names was picked; a record
      flagged both ways is kept when either flagged section was picked. */
  lemma SelectedMeaning(selected: seq<string>, d: Dependency)
    ensures d.isRoot ==> !Selected(selected, d)
    ensures !d.isRoot && !(d.isDev && d.isOptional) ==>
      (Selected(selected, d) <==> SectionName(TypeOf(d)) in selected)
    ensures !d.isRoot && d.isDev && d.isOptional ==>
      (Selected(selected, d) <==> SectionName(Dev) in selected || SectionName(Optional) in selected)
  {
  }

  /** Filtering works piece by piece, so it keeps the relative order of the
      records it keeps. */
  lemma {:induction false} FilterAppend(a: DependencyTable, b: DependencyTable, selected: seq<string>)
    ensures Filter(a + b, selected) == Filter(a, selected) + Filter(b, selected)
  {
    if |a| > 0 {
      assert (a + b)[1..] == a[1..] + b;
      FilterAppend(a[1..], b, selected);
    } else {
      assert a + b == b;
    }
  }

  /** Filtering twice with the same selection changes nothing. */
  lemma {:induction false} FilterIdempotent(table: DependencyTable, selected: seq<string>)
    ensures Filter(Filter(table, selected), selected) == Filter(table, selected)
  {
    if |table| > 0 {
      FilterIdempotent(table[1..], selected);
    }
  }

  /** Picking more sections keeps more: the result for a smaller selection is
      the result for a larger one filtered again by the smaller one. */
  lemma {:induction false} FilterMonotone(table: DependencyTable, fewer: seq<string>, more: seq<string>)
    requires forall t :: t in fewer ==> t in more
    ensures Filter(Filter(table, more), fewer) == Filter(table, fewer)
  {
    if |table| > 0 {
      FilterMonotone(table[1..], fewer, more);
    }
  }

  /** Picking nothing keeps nothing; picking all three sections keeps exactly
      the non-root records. */
  lemma SelectionExtremes(d: Dependency)
    ensures !Selected([], d)
    ensures Selected(["dependencies", "devDependencies", "optionalDependencies"], d) <==> !d.isRoot
  {
  }

  // ----- the example of the test suite -----

  /** A record with only the fields the filter reads set. */
  function Record(name: string, isDev: bool, isOptional: bool, isRoot: bool): Dependency {
    Dependency(name, "", "", isDev, isOptional, map[], map[], None, None, isRoot, false, None, None)
  }

  /** tests/cli-display.test.js lines 81-88: a production record and the root;
      picking `dependencies` keeps only the production record's key. */
  lemma ProductionOnly()
    ensures var prod := Entry("node_modules/prod-a", Record("prod-a", false, false, false));
      var root := Entry("/", Record("root", false, false, true));
      FilterDependenciesByType(Some([prod, root]), ["dependencies"]) == [prod]
  {
    var prod := Entry("node_modules/prod-a", Record("prod-a", false, false, false));
    var root := Entry("/", Record("root", false, false, true));
    assert [prod, root][1..] == [root];
    assert [root][1..] == [];
  }
}
