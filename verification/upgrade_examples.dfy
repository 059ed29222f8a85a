/** The upgrade-option scenario of the node-env test suite, worked out on the model. */
module UpgradeExamples {
  import opened Wrappers
  import opened SemVer
  import opened Comparators
  import opened RangeText
  import opened VersionLists
  import opened Lockfile
  import opened Text
  import opened NodeEnv
  import opened NodeEnvFixtures

  // ----- getAvailableUpgradeOptions -----

  /** Nothing above the range's maximum passes the filter. */
  lemma {:induction false} NoneAbove(cur: Version, lo: Version, hi: Version, above: seq<Version>)
    requires forall v :: v in above ==> Less(hi, v)
    ensures UpgradeCandidates(cur, lo, Some(hi), above) == []
  {
    var r := UpgradeCandidates(cur, lo, Some(hi), above);
    if |r| > 0 {
      assert r[0] in r;
      LessAsymmetric(hi, r[0]);
    }
  }

  /** Below the range, the range's two ends, then only versions above it: the
      filter keeps the two ends. */
  lemma {:induction false} KeepsEnds(cur: Version, x: Version, lo: Version, hi: Version, above: seq<Version>)
    requires Less(x, lo) && Less(cur, lo) && Less(lo, hi)
    requires forall v :: v in above ==> Less(hi, v)
    ensures UpgradeCandidates(cur, lo, Some(hi), [x, lo, hi] + above) == [lo, hi]
  {
    var all := [x, lo, hi] + above;
    NoneAbove(cur, lo, hi, above);
    assert all[1..] == [lo, hi] + above;
    assert all[1..][1..] == [hi] + above;
    assert all[1..][1..][1..] == above;
    LessTransitive(cur, lo, hi);
    LessAsymmetric(x, lo);
    LessAsymmetric(cur, hi);
    LessAsymmetric(cur, lo);
    assert UpgradeCandidates(cur, lo, Some(hi), all[1..][1..]) == [hi];
    assert UpgradeCandidates(cur, lo, Some(hi), all[1..]) == [lo, hi];
  }

  /** The filter step keeps 18.18.0 and 18.19.1 of the LTS list. */
  lemma {:induction false} TightCandidates()
    ensures UpgradeCandidates(Release(16, 18, 0), V18_18, Some(V18_19_1), KnownLts) == [V18_18, V18_19_1]
  {
    var above := [Release(20, 9, 0), Release(20, 10, 0), Release(20, 11, 0), V22];
    assert KnownLts == [Release(16, 20, 2), V18_18, V18_19_1] + above;
    KeepsEnds(Release(16, 18, 0), Release(16, 20, 2), V18_18, V18_19_1, above);
  }

  /** From 16.18.0 with the range 18.18.0 .. 18.19.1, the LTS upgrade options are
      exactly 18.18.0 and 18.19.1. */
  lemma {:induction false} TightUpgradeOptions()
    ensures AvailableUpgradeOptions(Release(16, 18, 0), Some(SupportedRange(Some(V18_18), Some(V18_19_1), None)), KnownLts)
      == [V18_18, V18_19_1]
  {
    TightCandidates();
    assert Insert(V18_19_1, []) == [V18_19_1];
    assert SortAsc([V18_18, V18_19_1]) == [V18_18, V18_19_1] by {
      assert [V18_18, V18_19_1][1..] == [V18_19_1];
      assert SortAsc([V18_19_1]) == [V18_19_1];
    }
  }
}
