/** Versions, constraint texts and candidate tables shared by the node-env
    scenarios, with what the model reads from each text. */
module NodeEnvFixtures {
  import opened Wrappers
  import opened SemVer
  import opened Comparators
  import opened RangeText
  import opened VersionLists
  import opened Lockfile
  import opened Text
  import opened NodeEnv

  const V16: Version := Release(16, 0, 0)
  const V18: Version := Release(18, 0, 0)
  const V18_4: Version := Release(18, 4, 0)
  const V18_9_9: Version := Release(18, 9, 9)
  const V18_18: Version := Release(18, 18, 0)
  const V18_19_1: Version := Release(18, 19, 1)
  const V20: Version := Release(20, 0, 0)
  const V22: Version := Release(22, 0, 0)

  /** `text` reads as exactly the comparators `cs`. */
  predicate Reads(text: string, cs: seq<Comparator>) {
    ParseConstraint(text) == Some(cs)
  }

  /** A text that formats `cs` reads as `cs`. */
  lemma {:induction false} Printed(text: string, cs: seq<Comparator>)
    requires FormatConstraint(cs) == text
    ensures Reads(text, cs)
  {
    ParseFormatConstraint(cs);
  }

  /** A text that formats the single comparator `c` reads as `[c]`. */
  lemma {:induction false} ReadsOne(text: string, c: Comparator)
    requires FormatComparator(c) == text
    ensures Reads(text, [c])
  {
    assert FormatConstraint([c]) == FormatComparator([c][0]);
    Printed(text, [c]);
  }

  /** A text that formats `c`, a space and `d` reads as `[c, d]`. */
  lemma {:induction false} ReadsTwo(text: string, c: Comparator, d: Comparator)
    requires FormatComparator(c) + " " + FormatComparator(d) == text
    ensures Reads(text, [c, d])
  {
    assert [c, d][1..] == [d];
    assert FormatConstraint([d]) == FormatComparator(d);
    assert FormatConstraint([c, d]) == FormatComparator(c) + " " + FormatConstraint([d]);
    Printed(text, [c, d]);
  }

  /** The comparator with operator `op` on a version printed as `vt`. */
  lemma {:induction false} ComparatorText(op: Op, v: Version, vt: string)
    requires FormatVersion(v) == vt
    ensures FormatComparator(Comparator(op, v)) == OpText(op) + vt
  {
  }

  /** A release printed from the texts of its three numbers. */
  lemma {:induction false} ReleaseText(a: nat, b: nat, c: nat, ta: string, tb: string, tc: string)
    requires NatToString(a) == ta && NatToString(b) == tb && NatToString(c) == tc
    ensures FormatVersion(Release(a, b, c)) == ta + "." + tb + "." + tc
  {
    assert FormatPatch(c, None) == tc;
  }

  lemma {:induction false} Text16() ensures FormatVersion(V16) == "16.0.0" {
    assert NatToString(16) == "16";
    assert NatToString(0) == "0";
    ReleaseText(16, 0, 0, "16", "0", "0");
  }

  lemma {:induction false} Text18() ensures FormatVersion(V18) == "18.0.0" {
    assert NatToString(18) == "18";
    assert NatToString(0) == "0";
    ReleaseText(18, 0, 0, "18", "0", "0");
  }

  lemma {:induction false} Text18_9_9() ensures FormatVersion(V18_9_9) == "18.9.9" {
    assert NatToString(18) == "18";
    assert NatToString(9) == "9";
    ReleaseText(18, 9, 9, "18", "9", "9");
  }

  lemma {:induction false} Text18_19_1() ensures FormatVersion(V18_19_1) == "18.19.1" {
    assert NatToString(18) == "18";
    assert NatToString(19) == "19";
    assert NatToString(1) == "1";
    ReleaseText(18, 19, 1, "18", "19", "1");
  }

  lemma {:induction false} Text20() ensures FormatVersion(V20) == "20.0.0" {
    assert NatToString(20) == "20";
    assert NatToString(0) == "0";
    ReleaseText(20, 0, 0, "20", "0", "0");
  }

  lemma {:induction false} Text22() ensures FormatVersion(V22) == "22.0.0" {
    assert NatToString(22) == "22";
    assert NatToString(0) == "0";
    ReleaseText(22, 0, 0, "22", "0", "0");
  }

  lemma {:induction false} FormatGe18() ensures FormatComparator(Comparator(Ge, V18)) == ">=18.0.0" {
    Text18();
    assert OpText(Ge) == ">=";
    ComparatorText(Ge, V18, "18.0.0");
  }

  lemma {:induction false} ReadsGe18() ensures Reads(">=18.0.0", [Comparator(Ge, V18)]) {
    FormatGe18();
    ReadsOne(">=18.0.0", Comparator(Ge, V18));
  }

  lemma {:induction false} FormatGt18() ensures FormatComparator(Comparator(Gt, V18)) == ">18.0.0" {
    Text18();
    assert OpText(Gt) == ">";
    ComparatorText(Gt, V18, "18.0.0");
  }

  lemma {:induction false} ReadsGt18() ensures Reads(">18.0.0", [Comparator(Gt, V18)]) {
    FormatGt18();
    ReadsOne(">18.0.0", Comparator(Gt, V18));
  }

  lemma {:induction false} FormatLt16() ensures FormatComparator(Comparator(Lt, V16)) == "<16.0.0" {
    Text16();
    assert OpText(Lt) == "<";
    ComparatorText(Lt, V16, "16.0.0");
  }

  lemma {:induction false} ReadsLt16() ensures Reads("<16.0.0", [Comparator(Lt, V16)]) {
    FormatLt16();
    ReadsOne("<16.0.0", Comparator(Lt, V16));
  }

  lemma {:induction false} FormatLe18_19_1() ensures FormatComparator(Comparator(Le, V18_19_1)) == "<=18.19.1" {
    Text18_19_1();
    assert OpText(Le) == "<=";
    ComparatorText(Le, V18_19_1, "18.19.1");
  }

  lemma {:induction false} ReadsLe18_19_1() ensures Reads("<=18.19.1", [Comparator(Le, V18_19_1)]) {
    FormatLe18_19_1();
    ReadsOne("<=18.19.1", Comparator(Le, V18_19_1));
  }

  lemma {:induction false} FormatLe18_9_9() ensures FormatComparator(Comparator(Le, V18_9_9)) == "<=18.9.9" {
    Text18_9_9();
    assert OpText(Le) == "<=";
    ComparatorText(Le, V18_9_9, "18.9.9");
  }

  lemma {:induction false} ReadsLe18_9_9() ensures Reads("<=18.9.9", [Comparator(Le, V18_9_9)]) {
    FormatLe18_9_9();
    ReadsOne("<=18.9.9", Comparator(Le, V18_9_9));
  }

  lemma {:induction false} ReadsRoot() ensures Reads(">=16.0.0 <=22.0.0", [Comparator(Ge, V16), Comparator(Le, V22)]) {
    Text16();
    Text22();
    ComparatorText(Ge, V16, "16.0.0");
    ComparatorText(Le, V22, "22.0.0");
    ReadsTwo(">=16.0.0 <=22.0.0", Comparator(Ge, V16), Comparator(Le, V22));
  }

  lemma {:induction false} ReadsConforming() ensures Reads(">=16.0.0 <=20.0.0", [Comparator(Ge, V16), Comparator(Le, V20)]) {
    Text16();
    Text20();
    ComparatorText(Ge, V16, "16.0.0");
    ComparatorText(Le, V20, "20.0.0");
    ReadsTwo(">=16.0.0 <=20.0.0", Comparator(Ge, V16), Comparator(Le, V20));
  }

  /** `Admits` over a list of two, spelled out. */
  lemma {:induction false} AdmitsTwo(v: Version, a: string, b: string)
    ensures Admits(v, [a, b]) <==> (Valid(a) ==> Satisfies(v, a)) && (Valid(b) ==> Satisfies(v, b))
  {
    assert [a, b] == [a] + [b] && [b] == [b] + [];
    AdmitsCons(v, a, [b]);
    AdmitsCons(v, b, []);
  }

  /** `Admits` over a list of three, spelled out. */
  lemma {:induction false} AdmitsThree(v: Version, a: string, b: string, c: string)
    ensures Admits(v, [a, b, c]) <==>
      (Valid(a) ==> Satisfies(v, a)) && (Valid(b) ==> Satisfies(v, b)) && (Valid(c) ==> Satisfies(v, c))
  {
    assert [a, b, c] == [a] + [b, c];
    AdmitsCons(v, a, [b, c]);
    AdmitsTwo(v, b, c);
  }

  /** `Admits` over a list of four, spelled out. */
  lemma {:induction false} AdmitsFour(v: Version, a: string, b: string, c: string, d: string)
    ensures Admits(v, [a, b, c, d]) <==>
      (Valid(a) ==> Satisfies(v, a)) && (Valid(b) ==> Satisfies(v, b))
      && (Valid(c) ==> Satisfies(v, c)) && (Valid(d) ==> Satisfies(v, d))
  {
    assert [a, b, c, d] == [a] + [b, c, d];
    AdmitsCons(v, a, [b, c, d]);
    AdmitsThree(v, b, c, d);
  }

  /** `Admits` on a list with one more constraint in front. */
  lemma {:induction false} AdmitsCons(v: Version, a: string, rest: seq<string>)
    ensures Admits(v, [a] + rest) <==> (Valid(a) ==> Satisfies(v, a)) && Admits(v, rest)
  {
    var cs := [a] + rest;
    assert a in cs;
    forall c | c in rest ensures c in cs {
    }
  }

  lemma {:induction false} PrintedOverlap() ensures RangeExpression(V18, V18_19_1) == ">=18.0.0 <=18.19.1" {
    FormatGe18();
    FormatLe18_19_1();
    assert V18 != V18_19_1;
    assert RangeExpression(V18, V18_19_1)
      == FormatComparator(Comparator(Ge, V18)) + " " + FormatComparator(Comparator(Le, V18_19_1));
  }

  /** The versions the candidate table synthesizes: `major.minor.0` for majors
      16 to 22 and minors 0 to 4. */
  predicate Synthesized(v: Version) {
    16 <= v.major <= 22 && v.minor <= 4 && v.patch == 0 && v.pre.None?
  }

  /** The LTS releases the candidate table always lists, as in `KnownLts`. */
  predicate KnownRelease(v: Version) {
    v == Release(16, 20, 2) || v == V18_18 || v == V18_19_1 || v == Release(20, 9, 0)
    || v == Release(20, 10, 0) || v == Release(20, 11, 0) || v == V22
  }

  /** A list with the members of the candidate table, such as
      `TestNodeVersions()`; the resolver only sees its members. */
  ghost predicate RealTable(t: seq<Version>) {
    forall v {:trigger v in t} :: v in t <==> KnownRelease(v) || Synthesized(v)
  }

  lemma {:induction false} TestNodeVersionsIsRealTable()
    ensures RealTable(TestNodeVersions())
  {
    forall v ensures v in KnownLts <==> KnownRelease(v) {
    }
    forall v ensures v in SynthesizedVersions() <==> Synthesized(v) {
    }
  }
}
