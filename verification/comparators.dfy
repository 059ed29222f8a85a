/** The comparator language engine constraints are written in: a constraint is a
    conjunction of comparators `>=v`, `<=v`, `>v`, `<v`, `=v`. */
module Comparators {
  import opened SemVer

  datatype Op = Ge | Le | Gt | Lt | Eq

  datatype Comparator = Comparator(op: Op, version: Version)

  /** `v` satisfies one comparator. Prereleases compare like any other version,
      as semver does under `includePrerelease`. */
  predicate Holds(v: Version, c: Comparator) {
    match c.op
    case Ge => LessEq(c.version, v)
    case Le => LessEq(v, c.version)
    case Gt => Less(c.version, v)
    case Lt => Less(v, c.version)
    case Eq => v == c.version
  }

  /** `v` satisfies every comparator of a conjunction. */
  predicate SatisfiesAll(v: Version, cs: seq<Comparator>) {
    forall i :: 0 <= i < |cs| ==> Holds(v, cs[i])
  }

  /** The least version a comparator admits when it only bounds from below
      (and `Bottom` for comparators that bound only from above). */
  function LowerWitness(c: Comparator): Version {
    match c.op
    case Ge => c.version
    case Eq => c.version
    case Gt => Succ(c.version)
    case Le => Bottom
    case Lt => Bottom
  }

  function Max(a: Version, b: Version): (m: Version)
    ensures LessEq(a, m) && LessEq(b, m)
    ensures m == a || m == b
  {
    if Less(a, b) then b else a
  }

  /** The greatest lower witness of a conjunction: the least version that can
      satisfy it, if any does. */
  function MaxLower(cs: seq<Comparator>): (m: Version)
    ensures forall i :: 0 <= i < |cs| ==> LessEq(LowerWitness(cs[i]), m)
    ensures m == Bottom || exists i :: 0 <= i < |cs| && m == LowerWitness(cs[i])
  {
    if |cs| == 0 then Bottom else Max(LowerWitness(cs[0]), MaxLower(cs[1..]))
  }

  /** Decides whether two conjunctions share a satisfying version (semver's
      `intersects`), by testing the one candidate that can witness it. */
  predicate Intersects(a: seq<Comparator>, b: seq<Comparator>) {
    SatisfiesAll(MaxLower(a + b), a + b)
  }

  /** Every version that satisfies a comparator lies above its lower witness. */
  lemma {:induction false} LowerWitnessBelow(v: Version, c: Comparator)
    requires Holds(v, c)
    ensures LessEq(LowerWitness(c), v)
  {
    BottomIsLeast(v);
  }

  /** The least satisfying version: whenever some version satisfies a conjunction,
      so does `MaxLower`, and it lies below every satisfying version. */
  lemma {:induction false} MaxLowerSatisfies(cs: seq<Comparator>, v: Version)
    requires SatisfiesAll(v, cs)
    ensures SatisfiesAll(MaxLower(cs), cs)
    ensures LessEq(MaxLower(cs), v)
  {
    var m := MaxLower(cs);
    if m == Bottom {
      BottomIsLeast(v);
    } else {
      var k :| 0 <= k < |cs| && m == LowerWitness(cs[k]);
      LowerWitnessBelow(v, cs[k]);
    }
    forall i | 0 <= i < |cs|
      ensures Holds(m, cs[i])
    {
      var c := cs[i];
      assert LessEq(LowerWitness(c), m);
      assert Holds(v, c);
      match c.op
      case Ge =>
      case Gt =>
        assert Less(c.version, Succ(c.version));
        if Less(Succ(c.version), m) {
          LessTransitive(c.version, Succ(c.version), m);
        }
      case Eq =>
        if m != v {
          LessAsymmetric(m, v);
        }
      case Le =>
        if Less(m, v) && Less(v, c.version) {
          LessTransitive(m, v, c.version);
        }
      case Lt =>
        if Less(m, v) {
          LessTransitive(m, v, c.version);
        }
    }
  }

  lemma {:induction false} SatisfiesAllAppend(v: Version, a: seq<Comparator>, b: seq<Comparator>)
    ensures SatisfiesAll(v, a + b) <==> SatisfiesAll(v, a) && SatisfiesAll(v, b)
  {
    if SatisfiesAll(v, a) && SatisfiesAll(v, b) {
      forall i | 0 <= i < |a + b|
        ensures Holds(v, (a + b)[i])
      {
        if i >= |a| {
          assert (a + b)[i] == b[i - |a|];
        }
      }
    }
    if SatisfiesAll(v, a + b) {
      forall i | 0 <= i < |a|
        ensures Holds(v, a[i])
      {
        assert (a + b)[i] == a[i];
      }
      forall i | 0 <= i < |b|
        ensures Holds(v, b[i])
      {
        assert (a + b)[|a| + i] == b[i];
      }
    }
  }

  /** `Intersects` decides exactly "some version satisfies both conjunctions". */
  lemma {:induction false} IntersectsSound(a: seq<Comparator>, b: seq<Comparator>)
    ensures Intersects(a, b) <==> exists v :: SatisfiesAll(v, a) && SatisfiesAll(v, b)
  {
    var m := MaxLower(a + b);
    if Intersects(a, b) {
      SatisfiesAllAppend(m, a, b);
    }
    if v :| SatisfiesAll(v, a) && SatisfiesAll(v, b) {
      SatisfiesAllAppend(v, a, b);
      MaxLowerSatisfies(a + b, v);
    }
  }
}
