/** The resolver scenarios of the node-env test suite, worked out on the
    model. Each scenario is proved for any constraint texts that read as the
    scenario's comparators, then instantiated with the texts themselves. */
module NodeEnvExamples {
  import opened Wrappers
  import opened SemVer
  import opened Comparators
  import opened RangeText
  import opened VersionLists
  import opened Lockfile
  import opened Text
  import opened NodeEnv
  import opened NodeEnvFixtures

  // ----- calculateSupportedNodeVersions -----

  /** A lower and an upper bound, both listed, resolve to themselves. */
  lemma {:induction false} BoundsResolve(candidates: seq<Version>, a: string, b: string, lo: Version, hi: Version)
    requires Reads(a, [Comparator(Ge, lo)]) && Reads(b, [Comparator(Le, hi)])
    requires lo in candidates && hi in candidates && LessEq(lo, hi)
    ensures Resolve(candidates, [a, b]) == SupportedRange(Some(lo), Some(hi), Some(RangeExpression(lo, hi)))
  {
    BoundsAdmit(lo, a, b, lo, hi);
    BoundsAdmit(hi, a, b, lo, hi);
    forall v | v in candidates && Admits(v, [a, b]) ensures LessEq(lo, v) && LessEq(v, hi) {
      BoundsAdmit(v, a, b, lo, hi);
    }
    assert IsLeast(lo, candidates, [a, b]);
    assert IsGreatest(hi, candidates, [a, b]);
    assert a in [a, b] && Valid(a);
    ResolveIs(candidates, [a, b], lo, hi);
  }

  /** The versions a lower and an upper bound admit together. */
  lemma {:induction false} BoundsAdmit(v: Version, a: string, b: string, lo: Version, hi: Version)
    requires Reads(a, [Comparator(Ge, lo)]) && Reads(b, [Comparator(Le, hi)])
    ensures Valid(a) && (Admits(v, [a, b]) <==> LessEq(lo, v) && LessEq(v, hi))
  {
    AdmitsTwo(v, a, b);
    SatisfiesOne(v, a, Comparator(Ge, lo));
    SatisfiesOne(v, b, Comparator(Le, hi));
  }

  /** With the real candidate table, `>=18.0.0` and `<=18.19.1` resolve to
      `18.0.0` .. `18.19.1`. */
  lemma {:induction false} SimpleOverlap(t: seq<Version>)
    requires RealTable(t)
    ensures Resolve(t, [">=18.0.0", "<=18.19.1"])
      == SupportedRange(Some(V18), Some(V18_19_1), Some(">=18.0.0 <=18.19.1"))
  {
    ReadsGe18();
    ReadsLe18_19_1();
    assert Synthesized(V18) && KnownRelease(V18_19_1);
    assert LessEq(V18, V18_19_1);
    BoundsResolve(t, ">=18.0.0", "<=18.19.1", V18, V18_19_1);
    PrintedOverlap();
  }

  /** A constraint below 16.0.0 and one above 18.0.0 leave nothing. */
  lemma {:induction false} DisjointBounds(candidates: seq<Version>, a: string, b: string)
    requires Reads(a, [Comparator(Lt, V16)]) && Reads(b, [Comparator(Gt, V18)])
    ensures Resolve(candidates, [a, b]) == NoRange
  {
    ResolveMeaning(candidates, [a, b]);
    forall v ensures !Admits(v, [a, b]) {
      AdmitsTwo(v, a, b);
      assert Satisfies(v, a) ==> Holds(v, [Comparator(Lt, V16)][0]);
      assert Satisfies(v, b) ==> Holds(v, [Comparator(Gt, V18)][0]);
      if Less(V18, v) {
        LessTransitive(V16, V18, v);
        LessAsymmetric(V16, v);
      }
    }
  }

  /** `<16.0.0` and `>18.0.0` admit no common version, so every candidate table
      gives the all-`None` answer (an object of nulls, not `null` itself). */
  lemma {:induction false} NoOverlap(candidates: seq<Version>)
    ensures Resolve(candidates, ["<16.0.0", ">18.0.0"]) == NoRange
  {
    ReadsLt16();
    ReadsGt18();
    DisjointBounds(candidates, "<16.0.0", ">18.0.0");
  }

  /** No constraints, or only unreadable ones, give the all-`None` answer. */
  lemma {:induction false} EmptyOrInvalid(candidates: seq<Version>)
    ensures Resolve(candidates, []) == NoRange
    ensures Resolve(candidates, ["invalid", ">"]) == NoRange
  {
    InvalidWord();
    InvalidOperatorOnly();
    assert !HasValid(["invalid", ">"]);
  }

  /** A word without dots is not a version. */
  lemma {:induction false} InvalidWord() ensures !Valid("invalid") {
    NoSpaceOneComparator("invalid");
    assert SplitOp("invalid") == (Eq, "invalid");
    NoDotNoVersion("invalid");
  }

  /** A non-empty word with no dot and no space, not starting with an
      operator, is not a constraint. */
  lemma {:induction false} WordWithoutDot(s: string)
    requires s != "" && '.' !in s && ' ' !in s && s[0] !in "<>="
    ensures !Valid(s)
  {
    NoDotNoVersion(s);
    assert SplitOp(s) == (Eq, s);
    NoSpaceOneComparator(s);
  }

  lemma {:induction false} NoDotNoVersion(s: string)
    requires '.' !in s
    ensures ParseVersion(s).None?
  {
    IndexOfAbsent(s, '.');
  }

  lemma {:induction false} NoSpaceOneComparator(s: string)
    requires s != "" && ' ' !in s
    ensures ParseConstraint(s) == if ParseComparator(s).Some? then Some([ParseComparator(s).value]) else None
  {
    IndexOfAbsent(s, ' ');
  }

  /** An operator with no version after it is not a comparator. */
  lemma {:induction false} InvalidOperatorOnly() ensures !Valid(">") {
    NoSpaceOneComparator(">");
    assert SplitOp(">") == (Gt, "");
    assert ParseVersion("").None?;
  }
}
