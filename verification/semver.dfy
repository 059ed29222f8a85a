/** Runtime and package versions and their precedence order.

    A version is `major.minor.patch`, optionally a prerelease `-N` of it. Versions
    are ordered lexicographically on (major, minor, patch); a prerelease sorts
    below its release, and prereleases of one release by their number. */
module SemVer {
  import opened Wrappers

  datatype Version = Version(major: nat, minor: nat, patch: nat, pre: Option<nat>)

  /** The release `major.minor.patch` (no prerelease part). */
  function Release(major: nat, minor: nat, patch: nat): Version {
    Version(major, minor, patch, None)
  }

  predicate PreLess(p: Option<nat>, q: Option<nat>) {
    p.Some? && (q.None? || p.value < q.value)
  }

  /** Strict precedence: `a` comes before `b`. */
  predicate Less(a: Version, b: Version) {
    if a.major != b.major then a.major < b.major
    else if a.minor != b.minor then a.minor < b.minor
    else if a.patch != b.patch then a.patch < b.patch
    else PreLess(a.pre, b.pre)
  }

  predicate LessEq(a: Version, b: Version) {
    Less(a, b) || a == b
  }

  lemma {:induction false} LessIrreflexive(a: Version)
    ensures !Less(a, a)
  {
  }

  lemma {:induction false} LessTransitive(a: Version, b: Version, c: Version)
    requires Less(a, b) && Less(b, c)
    ensures Less(a, c)
  {
  }

  /** Any two versions are comparable: the order is total. */
  lemma {:induction false} LessTotal(a: Version, b: Version)
    ensures Less(a, b) || a == b || Less(b, a)
  {
  }

  lemma {:induction false} LessAsymmetric(a: Version, b: Version)
    requires Less(a, b)
    ensures !Less(b, a) && a != b
  {
  }

  /** Not at most `b` is the same as above `b`. */
  lemma {:induction false} NotLessEq(a: Version, b: Version)
    ensures !LessEq(a, b) <==> Less(b, a)
  {
    LessTotal(a, b);
    if Less(b, a) {
      LessAsymmetric(b, a);
    }
  }

  /** The least version of all, `0.0.0-0`. */
  const Bottom: Version := Version(0, 0, 0, Some(0))

  lemma {:induction false} BottomIsLeast(v: Version)
    ensures LessEq(Bottom, v)
  {
  }

  /** The next version after `v` in precedence order: nothing lies strictly between. */
  function Succ(v: Version): (s: Version)
    ensures Less(v, s)
    ensures forall w :: Less(v, w) ==> LessEq(s, w)
  {
    match v.pre
    case Some(n) => Version(v.major, v.minor, v.patch, Some(n + 1))
    case None => Version(v.major, v.minor, v.patch + 1, Some(0))
  }

  /** What `semver.diff` reports for two versions of different precedence. */
  datatype DiffKind = Major | Minor | Patch | PreMajor | PreMinor | PrePatch | Prerelease

  /** semver's `diff`: nothing for equal versions; otherwise the most significant
      component that differs, prefixed with "pre" when the higher version is a
      prerelease, with special cases when only the lower one is a prerelease. */
  function Diff(v1: Version, v2: Version): Option<DiffKind> {
    if v1 == v2 then None
    else
      var high := if Less(v2, v1) then v1 else v2;
      var low := if Less(v2, v1) then v2 else v1;
      if low.pre.Some? && high.pre.None? && low.patch == 0 && low.minor == 0 then Some(Major)
      else if low.pre.Some? && high.pre.None? && low.major == high.major
              && low.minor == high.minor && low.patch == high.patch then
        Some(if low.minor != 0 && low.patch == 0 then Minor else Patch)
      else if v1.major != v2.major then Some(if high.pre.Some? then PreMajor else Major)
      else if v1.minor != v2.minor then Some(if high.pre.Some? then PreMinor else Minor)
      else if v1.patch != v2.patch then Some(if high.pre.Some? then PrePatch else Patch)
      else Some(Prerelease)
  }

  /** Between two releases, diff names the most significant component that differs,
      whichever of the two is higher. */
  lemma {:induction false} DiffOfReleases(v1: Version, v2: Version)
    requires v1.pre.None? && v2.pre.None? && v1 != v2
    ensures Diff(v1, v2) == Diff(v2, v1)
    ensures Diff(v1, v2) == Some(Major) <==> v1.major != v2.major
    ensures Diff(v1, v2) == Some(Minor) <==> v1.major == v2.major && v1.minor != v2.minor
    ensures Diff(v1, v2) == Some(Patch) <==> v1.major == v2.major && v1.minor == v2.minor
  {
  }

  /** Diff is defined exactly for versions of different precedence. */
  lemma {:induction false} DiffDefined(v1: Version, v2: Version)
    ensures Diff(v1, v2).None? <==> v1 == v2
  {
  }
}
