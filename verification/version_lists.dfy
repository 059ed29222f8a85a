/** Sorting lists of versions as `Array.prototype.sort` with `semver.compare`
    (ascending) or `semver.rcompare` (descending) does, and de-duplication as a
    JavaScript `Set` does. */
module VersionLists {
  import opened SemVer

  predicate Ascending(s: seq<Version>) {
    forall i, j :: 0 <= i < j < |s| ==> LessEq(s[i], s[j])
  }

  predicate StrictlyAscending(s: seq<Version>) {
    forall i, j :: 0 <= i < j < |s| ==> Less(s[i], s[j])
  }

  predicate Descending(s: seq<Version>) {
    forall i, j :: 0 <= i < j < |s| ==> LessEq(s[j], s[i])
  }

  lemma {:induction false} LessEqTransitive(a: Version, b: Version, c: Version)
    requires LessEq(a, b) && LessEq(b, c)
    ensures LessEq(a, c)
  {
    if a != b && b != c {
      LessTransitive(a, b, c);
    }
  }

  /** Inserts `x` into an ascending list, keeping it ascending. */
  function Insert(x: Version, s: seq<Version>): (r: seq<Version>)
    requires Ascending(s)
    ensures Ascending(r)
    ensures multiset(r) == multiset(s) + multiset{x}
  {
    if |s| == 0 then [x]
    else if LessEq(x, s[0]) then
      InsertFrontAscending(x, s);
      [x] + s
    else
      assert s == [s[0]] + s[1..];
      var tail := Insert(x, s[1..]);
      LessTotal(x, s[0]);
      InsertConsAscending(s[0], x, s[1..], tail);
      [s[0]] + tail
  }

  lemma {:induction false} InsertFrontAscending(x: Version, s: seq<Version>)
    requires Ascending(s) && |s| > 0 && LessEq(x, s[0])
    ensures Ascending([x] + s)
  {
    var r := [x] + s;
    forall i, j | 0 <= i < j < |r|
      ensures LessEq(r[i], r[j])
    {
      if i == 0 {
        assert r[j] == s[j - 1];
        LessEqTransitive(x, s[0], s[j - 1]);
      }
    }
  }

  lemma {:induction false} InsertConsAscending(h: Version, x: Version, rest: seq<Version>, tail: seq<Version>)
    requires Ascending([h] + rest) && Less(h, x)
    requires Ascending(tail) && multiset(tail) == multiset(rest) + multiset{x}
    ensures Ascending([h] + tail)
  {
    var r := [h] + tail;
    forall i, j | 0 <= i < j < |r|
      ensures LessEq(r[i], r[j])
    {
      if i == 0 {
        var y := tail[j - 1];
        assert y in multiset(tail);
        if y != x {
          assert y in multiset(rest);
          var k :| 0 <= k < |rest| && rest[k] == y;
          var hr := [h] + rest;
          assert hr[0] == h && hr[k + 1] == y;
          assert LessEq(hr[0], hr[k + 1]);
        }
      } else {
        assert r[i] == tail[i - 1] && r[j] == tail[j - 1];
      }
    }
  }

  /** The ascending sort of a list: same elements, same multiplicities. */
  function SortAsc(s: seq<Version>): (r: seq<Version>)
    ensures Ascending(r)
    ensures multiset(r) == multiset(s)
  {
    if |s| == 0 then []
    else
      assert s == [s[0]] + s[1..];
      Insert(s[0], SortAsc(s[1..]))
  }

  function Reverse(s: seq<Version>): (r: seq<Version>)
    ensures |r| == |s|
    ensures forall i :: 0 <= i < |s| ==> r[i] == s[|s| - 1 - i]
    ensures multiset(r) == multiset(s)
  {
    if |s| == 0 then []
    else
      assert s == s[..|s| - 1] + [s[|s| - 1]];
      [s[|s| - 1]] + Reverse(s[..|s| - 1])
  }

  /** The descending sort of a list: same elements, same multiplicities. */
  function SortDesc(s: seq<Version>): (r: seq<Version>)
    ensures Descending(r)
    ensures multiset(r) == multiset(s)
  {
    var a := SortAsc(s);
    var r := Reverse(a);
    ReverseDescending(a, r);
    r
  }

  lemma {:induction false} ReverseDescending(a: seq<Version>, r: seq<Version>)
    requires Ascending(a) && |r| == |a|
    requires forall i :: 0 <= i < |a| ==> r[i] == a[|a| - 1 - i]
    ensures Descending(r)
  {
    forall i, j | 0 <= i < j < |r|
      ensures LessEq(r[j], r[i])
    {
      assert r[i] == a[|a| - 1 - i] && r[j] == a[|a| - 1 - j];
    }
  }

  /** Drops repeated versions from an ascending list, leaving it strictly
      ascending with the same elements. */
  function Dedup(s: seq<Version>): (r: seq<Version>)
    requires Ascending(s)
    ensures StrictlyAscending(r)
    ensures forall x :: x in r <==> x in s
  {
    if |s| <= 1 then s
    else if s[0] == s[1] then
      assert forall x :: x in s <==> x in s[1..];
      Dedup(s[1..])
    else
      var tail := Dedup(s[1..]);
      DedupConsStrict(s, tail);
      [s[0]] + tail
  }

  lemma {:induction false} DedupConsStrict(s: seq<Version>, tail: seq<Version>)
    requires |s| > 1 && Ascending(s) && s[0] != s[1]
    requires StrictlyAscending(tail) && forall x :: x in tail <==> x in s[1..]
    ensures StrictlyAscending([s[0]] + tail)
  {
    var r := [s[0]] + tail;
    forall i, j | 0 <= i < j < |r|
      ensures Less(r[i], r[j])
    {
      if i == 0 {
        var y := tail[j - 1];
        assert y in s[1..];
        var k :| 1 <= k < |s| && s[k] == y;
        assert Less(s[0], s[1]) && LessEq(s[1], s[k]);
        if s[1] != s[k] {
          LessTransitive(s[0], s[1], s[k]);
        }
      } else {
        assert r[i] == tail[i - 1] && r[j] == tail[j - 1];
      }
    }
  }

  /** The first element of a non-empty ascending list is its least. */
  lemma {:induction false} AscendingBounds(s: seq<Version>)
    requires Ascending(s) && |s| > 0
    ensures forall x :: x in s ==> LessEq(s[0], x) && LessEq(x, s[|s| - 1])
  {
    forall x | x in s
      ensures LessEq(s[0], x) && LessEq(x, s[|s| - 1])
    {
      var k :| 0 <= k < |s| && s[k] == x;
    }
  }

  predicate StrictlyDescending(s: seq<Version>) {
    forall i, j :: 0 <= i < j < |s| ==> Less(s[j], s[i])
  }

  /** No version occurs twice. */
  predicate Distinct(s: seq<Version>) {
    forall i, j :: 0 <= i < j < |s| ==> s[i] != s[j]
  }

  /** A list without repetitions holds each version at most once. */
  lemma {:induction false} DistinctCount(s: seq<Version>)
    requires Distinct(s)
    ensures forall x :: multiset(s)[x] <= 1
    decreases |s|
  {
    if |s| > 0 {
      assert s == [s[0]] + s[1..];
      assert Distinct(s[1..]) by {
        forall i, j | 0 <= i < j < |s| - 1 ensures s[1..][i] != s[1..][j] {
          assert s[1..][i] == s[i + 1] && s[1..][j] == s[j + 1];
        }
      }
      DistinctCount(s[1..]);
      assert s[0] !in s[1..] by {
        forall k | 0 <= k < |s| - 1 ensures s[1..][k] != s[0] {
          assert s[1..][k] == s[k + 1];
        }
      }
    }
  }

  /** A list that holds each version at most once has no repetitions. */
  lemma {:induction false} CountDistinct(s: seq<Version>)
    requires forall x :: multiset(s)[x] <= 1
    ensures Distinct(s)
  {
    forall i, j | 0 <= i < j < |s| ensures s[i] != s[j] {
      assert s == s[..j] + s[j..];
      assert s[..j][i] == s[i] && s[j..][0] == s[j];
      assert multiset(s)[s[i]] == multiset(s[..j])[s[i]] + multiset(s[j..])[s[i]];
      assert s[i] in multiset(s[..j]) && s[j] in multiset(s[j..]);
    }
  }

  /** Sorting a list without repetitions in descending order gives a strictly
      descending list. */
  lemma {:induction false} SortDescStrict(s: seq<Version>)
    requires Distinct(s)
    ensures StrictlyDescending(SortDesc(s))
  {
    var r := SortDesc(s);
    DistinctCount(s);
    CountDistinct(r);
    forall i, j | 0 <= i < j < |r| ensures Less(r[j], r[i]) {
      assert LessEq(r[j], r[i]) && r[i] != r[j];
    }
  }
}
