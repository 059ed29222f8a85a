/** The textual forms of versions and constraints: what `semver.valid`,
    `semver.validRange` and `semver.satisfies` read, restricted to the
    comparator language of module Comparators.

    Grammar: a version is `N.N.N` or `N.N.N-N` with canonical numerals; a
    comparator is an optional operator (`>=`, `<=`, `>`, `<`, `=`) followed by a
    version, a bare version meaning `=`; a constraint is comparators separated
    by single spaces, and the empty text is the empty conjunction (semver reads
    it as `*`). */
module RangeText {
  import opened Wrappers
  import opened Text
  import opened SemVer
  import opened Comparators

  function FormatVersion(v: Version): string {
    NatToString(v.major) + "." + NatToString(v.minor) + "." + FormatPatch(v.patch, v.pre)
  }

  /** The text after the second dot: the patch number and any prerelease part. */
  function FormatPatch(patch: nat, pre: Option<nat>): string {
    match pre
    case Some(n) => NatToString(patch) + "-" + NatToString(n)
    case None => NatToString(patch)
  }

  /** Cuts `t` at the first `c`: the text before it and the text after it. */
  function SplitAt(t: string, c: char): (r: Option<(string, string)>)
    ensures r.Some? ==> |r.value.1| < |t|
  {
    var i := IndexOf(t, c);
    if i == |t| then None else Some((t[..i], t[i + 1..]))
  }

  function ParsePatch(r: string): Option<(nat, Option<nat>)> {
    match SplitAt(r, '-')
    case None =>
      var patch :- ParseNat(r);
      Some((patch, None))
    case Some(parts) =>
      var patch :- ParseNat(parts.0);
      var pre :- ParseNat(parts.1);
      Some((patch, Some(pre)))
  }

  function ParseVersion(t: string): Option<Version> {
    var p :- SplitAt(t, '.');
    var major :- ParseNat(p.0);
    var q :- SplitAt(p.1, '.');
    var minor :- ParseNat(q.0);
    var r :- ParsePatch(q.1);
    Some(Version(major, minor, r.0, r.1))
  }

  lemma {:induction false} SplitAtJoin(a: string, c: char, b: string)
    requires c !in a
    ensures SplitAt(a + [c] + b, c) == Some((a, b))
  {
    IndexOfSeparator(a, c, b);
    var t := a + [c] + b;
    assert t[..|a|] == a;
    assert t[|a| + 1..] == b;
  }

  lemma {:induction false} SplitAtParts(t: string, c: char)
    requires SplitAt(t, c).Some?
    ensures t == SplitAt(t, c).value.0 + [c] + SplitAt(t, c).value.1
  {
    var i := IndexOf(t, c);
    assert t == t[..i] + [t[i]] + t[i + 1..];
  }

  lemma {:induction false} DigitsExclude(s: string, c: char)
    requires AllDigits(s) && !IsDigit(c)
    ensures c !in s
  {
  }

  lemma {:induction false} ParseFormatPatch(patch: nat, pre: Option<nat>)
    ensures ParsePatch(FormatPatch(patch, pre)) == Some((patch, pre))
  {
    var c := NatToString(patch);
    DigitsExclude(c, '-');
    ParseNatToString(patch);
    match pre
    case None =>
      IndexOfAbsent(c, '-');
    case Some(n) =>
      assert FormatPatch(patch, pre) == c + ['-'] + NatToString(n);
      SplitAtJoin(c, '-', NatToString(n));
      ParseNatToString(n);
  }

  /** Printing a version and reading it back gives the same version. */
  lemma {:induction false} ParseFormatVersion(v: Version)
    ensures ParseVersion(FormatVersion(v)) == Some(v)
  {
    var a, b := NatToString(v.major), NatToString(v.minor);
    var r := FormatPatch(v.patch, v.pre);
    assert FormatVersion(v) == a + ['.'] + (b + ['.'] + r);
    DigitsExclude(a, '.');
    DigitsExclude(b, '.');
    SplitAtJoin(a, '.', b + ['.'] + r);
    SplitAtJoin(b, '.', r);
    ParseNatToString(v.major);
    ParseNatToString(v.minor);
    ParseFormatPatch(v.patch, v.pre);
  }

  lemma {:induction false} FormatParsePatch(r: string)
    requires ParsePatch(r).Some?
    ensures FormatPatch(ParsePatch(r).value.0, ParsePatch(r).value.1) == r
  {
    match SplitAt(r, '-')
    case None =>
      NatToStringOfParseNat(r);
    case Some(parts) =>
      SplitAtParts(r, '-');
      NatToStringOfParseNat(parts.0);
      NatToStringOfParseNat(parts.1);
  }

  /** Reading a version and printing it gives the same text: every version has
      exactly one textual form. */
  lemma {:induction false} FormatParseVersion(t: string)
    requires ParseVersion(t).Some?
    ensures FormatVersion(ParseVersion(t).value) == t
  {
    var p := SplitAt(t, '.').value;
    var q := SplitAt(p.1, '.').value;
    var v := ParseVersion(t).value;
    VersionFields(t);
    SplitAtParts(t, '.');
    SplitAtParts(p.1, '.');
    NatToStringOfParseNat(p.0);
    NatToStringOfParseNat(q.0);
    FormatParsePatch(q.1);
    assert FormatVersion(v) == p.0 + "." + q.0 + "." + q.1;
    DottedJoin(t, p.0, p.1, q.0, q.1);
  }

  lemma {:induction false} DottedJoin(t: string, a: string, mid: string, b: string, c: string)
    requires t == a + ['.'] + mid && mid == b + ['.'] + c
    ensures t == a + "." + b + "." + c
  {
  }

  /** The fields of a version read from text, by the text's three parts. */
  lemma {:induction false} VersionFields(t: string)
    requires ParseVersion(t).Some?
    ensures var p := SplitAt(t, '.').value;
      var q := SplitAt(p.1, '.').value;
      var r := ParsePatch(q.1).value;
      ParseVersion(t).value == Version(ParseNat(p.0).value, ParseNat(q.0).value, r.0, r.1)
  {
  }

  function OpText(op: Op): string {
    match op
    case Ge => ">="
    case Le => "<="
    case Gt => ">"
    case Lt => "<"
    case Eq => ""
  }

  /** Splits a comparator into its operator and the version text after it. */
  function SplitOp(t: string): (Op, string) {
    if |t| >= 2 && t[0] == '>' && t[1] == '=' then (Ge, t[2..])
    else if |t| >= 2 && t[0] == '<' && t[1] == '=' then (Le, t[2..])
    else if |t| >= 1 && t[0] == '>' then (Gt, t[1..])
    else if |t| >= 1 && t[0] == '<' then (Lt, t[1..])
    else if |t| >= 1 && t[0] == '=' then (Eq, t[1..])
    else (Eq, t)
  }

  function ParseComparator(t: string): Option<Comparator> {
    var (op, rest) := SplitOp(t);
    var v :- ParseVersion(rest);
    Some(Comparator(op, v))
  }

  function FormatComparator(c: Comparator): string {
    OpText(c.op) + FormatVersion(c.version)
  }

  /** Parses space-separated comparators; decreases on the text consumed. */
  function ParseConjunction(s: string): Option<seq<Comparator>>
    decreases |s|
  {
    match SplitAt(s, ' ')
    case None =>
      var c :- ParseComparator(s);
      Some([c])
    case Some(parts) =>
      var c :- ParseComparator(parts.0);
      var rest :- ParseConjunction(parts.1);
      Some([c] + rest)
  }

  /** semver's `validRange` followed by reading the comparators: `None` for text
      outside the language. */
  function ParseConstraint(s: string): Option<seq<Comparator>> {
    if s == "" then Some([]) else ParseConjunction(s)
  }

  function FormatConstraint(cs: seq<Comparator>): string {
    if |cs| == 0 then ""
    else if |cs| == 1 then FormatComparator(cs[0])
    else FormatComparator(cs[0]) + " " + FormatConstraint(cs[1..])
  }

  /** `semver.validRange(s)` is truthy. */
  predicate Valid(s: string) {
    ParseConstraint(s).Some?
  }

  /** `semver.satisfies(v, s, {includePrerelease: true})`: false for invalid text. */
  predicate Satisfies(v: Version, s: string) {
    match ParseConstraint(s)
    case Some(cs) => SatisfiesAll(v, cs)
    case None => false
  }

  /** `semver.intersects(a, b)`; `None` where semver throws on an invalid range. */
  function IntersectsText(a: string, b: string): Option<bool> {
    var ca :- ParseConstraint(a);
    var cb :- ParseConstraint(b);
    Some(Intersects(ca, cb))
  }

  /** A text that parses is valid, and satisfied exactly where its comparators all hold. */
  lemma {:induction false} SatisfiesParsed(v: Version, s: string, cs: seq<Comparator>)
    requires ParseConstraint(s) == Some(cs)
    ensures Valid(s) && (Satisfies(v, s) <==> SatisfiesAll(v, cs))
  {
  }

  /** A text read as one comparator holds where the comparator does. */
  lemma {:induction false} SatisfiesOne(v: Version, text: string, c: Comparator)
    requires ParseConstraint(text) == Some([c])
    ensures Valid(text) && (Satisfies(v, text) <==> Holds(v, c))
  {
    SatisfiesParsed(v, text, [c]);
    assert SatisfiesAll(v, [c]) <==> Holds(v, [c][0]);
  }

  /** A text read as two comparators holds where both do. */
  lemma {:induction false} SatisfiesTwo(v: Version, text: string, c: Comparator, d: Comparator)
    requires ParseConstraint(text) == Some([c, d])
    ensures Valid(text) && (Satisfies(v, text) <==> Holds(v, c) && Holds(v, d))
  {
    SatisfiesParsed(v, text, [c, d]);
    assert SatisfiesAll(v, [c, d]) <==> Holds(v, [c, d][0]) && Holds(v, [c, d][1]);
  }

  lemma {:induction false} FormatVersionChars(v: Version)
    ensures |FormatVersion(v)| > 0 && IsDigit(FormatVersion(v)[0])
    ensures ' ' !in FormatVersion(v)
  {
    var a, b, r := NatToString(v.major), NatToString(v.minor), FormatPatch(v.patch, v.pre);
    assert FormatVersion(v) == a + ['.'] + b + ['.'] + r;
    assert FormatVersion(v)[0] == a[0];
    assert ' ' !in r by {
      match v.pre
      case None =>
      case Some(n) => assert r == NatToString(v.patch) + ['-'] + NatToString(n);
    }
  }

  lemma {:induction false} SplitOpText(op: Op, f: string)
    requires |f| > 0 && IsDigit(f[0])
    ensures SplitOp(OpText(op) + f) == (op, f)
  {
    var t := OpText(op) + f;
    match op
    case Ge => assert t[2..] == f;
    case Le => assert t[2..] == f;
    case Gt => assert t[1..] == f;
    case Lt => assert t[1..] == f;
    case Eq => assert t == f;
  }

  lemma {:induction false} NoSpaceAfterOp(op: Op, f: string)
    requires ' ' !in f
    ensures ' ' !in OpText(op) + f
  {
    var t := OpText(op) + f;
    forall i | 0 <= i < |t|
      ensures t[i] != ' '
    {
      if i >= |OpText(op)| {
        assert t[i] == f[i - |OpText(op)|];
      }
    }
  }

  lemma {:induction false} ParseFormatComparator(c: Comparator)
    ensures ParseComparator(FormatComparator(c)) == Some(c)
    ensures ' ' !in FormatComparator(c) && |FormatComparator(c)| > 0
  {
    var f := FormatVersion(c.version);
    FormatVersionChars(c.version);
    ParseFormatVersion(c.version);
    SplitOpText(c.op, f);
    NoSpaceAfterOp(c.op, f);
  }

  lemma {:induction false} ParseConjunctionSingle(head: string, c: Comparator)
    requires ParseComparator(head) == Some(c) && ' ' !in head
    ensures ParseConjunction(head) == Some([c])
  {
    IndexOfAbsent(head, ' ');
  }

  lemma {:induction false} ParseConjunctionCons(head: string, rest: string, c: Comparator, cs: seq<Comparator>)
    requires ParseComparator(head) == Some(c) && ' ' !in head
    requires ParseConjunction(rest) == Some(cs)
    ensures ParseConjunction(head + [' '] + rest) == Some([c] + cs)
  {
    SplitAtJoin(head, ' ', rest);
  }

  lemma {:induction false} FormatConstraintCons(cs: seq<Comparator>)
    requires |cs| > 1
    ensures FormatConstraint(cs) == FormatComparator(cs[0]) + [' '] + FormatConstraint(cs[1..])
  {
  }

  lemma {:induction false} ParseFormatConjunction(cs: seq<Comparator>)
    requires |cs| > 0
    ensures ParseConjunction(FormatConstraint(cs)) == Some(cs)
    ensures FormatConstraint(cs) != ""
  {
    ParseFormatComparator(cs[0]);
    if |cs| == 1 {
      ParseConjunctionSingle(FormatComparator(cs[0]), cs[0]);
      assert [cs[0]] == cs;
    } else {
      ParseFormatConjunction(cs[1..]);
      FormatConstraintCons(cs);
      ParseConjunctionCons(FormatComparator(cs[0]), FormatConstraint(cs[1..]), cs[0], cs[1..]);
      assert [cs[0]] + cs[1..] == cs;
    }
  }

  /** Printing a conjunction and reading it back gives the same comparators. */
  lemma {:induction false} ParseFormatConstraint(cs: seq<Comparator>)
    ensures ParseConstraint(FormatConstraint(cs)) == Some(cs)
  {
    if |cs| > 0 {
      ParseFormatConjunction(cs);
    }
  }

  /** `intersects` answers exactly when both ranges are valid, and answers true
      exactly when some version satisfies both. */
  lemma {:induction false} IntersectsTextMeaning(a: string, b: string)
    ensures IntersectsText(a, b).Some? <==> Valid(a) && Valid(b)
    ensures IntersectsText(a, b) == Some(true)
        <==> Valid(a) && Valid(b) && exists v :: Satisfies(v, a) && Satisfies(v, b)
  {
    if Valid(a) && Valid(b) {
      var ca, cb := ParseConstraint(a).value, ParseConstraint(b).value;
      IntersectsSound(ca, cb);
      if w :| Satisfies(w, a) && Satisfies(w, b) {
        assert SatisfiesAll(w, ca) && SatisfiesAll(w, cb);
      }
      if Intersects(ca, cb) {
        var v :| SatisfiesAll(v, ca) && SatisfiesAll(v, cb);
        assert Satisfies(v, a) && Satisfies(v, b);
      }
    }
  }

  /** The range expression the resolver prints for a non-empty result: the
      version alone when both ends coincide, `>=min <=max` otherwise. */
  function RangeExpression(lo: Version, hi: Version): string {
    if lo == hi then FormatVersion(lo)
    else ">=" + FormatVersion(lo) + " <=" + FormatVersion(hi)
  }

  /** A printed range reads back as a valid constraint admitting exactly the
      versions from `lo` to `hi`. */
  lemma {:induction false} RangeExpressionMeaning(lo: Version, hi: Version)
    requires LessEq(lo, hi)
    ensures Valid(RangeExpression(lo, hi))
    ensures forall v :: Satisfies(v, RangeExpression(lo, hi)) <==> LessEq(lo, v) && LessEq(v, hi)
  {
    if lo == hi {
      var cs := [Comparator(Eq, lo)];
      assert FormatConstraint(cs) == RangeExpression(lo, hi);
      ParseFormatConstraint(cs);
      forall v | LessEq(lo, v) && LessEq(v, hi)
        ensures v == lo
      {
        if v != lo {
          LessAsymmetric(lo, v);
        }
      }
    } else {
      var cs := [Comparator(Ge, lo), Comparator(Le, hi)];
      assert FormatConstraint(cs) == RangeExpression(lo, hi);
      ParseFormatConstraint(cs);
    }
  }
}
