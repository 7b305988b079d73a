/** Normalising the list of repository indexes given to the runner. */
module RepositoryIndexes {
  import opened Basics

  ghost predicate Sorted(s: seq<nat>) {
    forall i, j :: 0 <= i < j < |s| ==> s[i] <= s[j]
  }

  ghost predicate Increasing(s: seq<nat>) {
    forall i, j :: 0 <= i < j < |s| ==> s[i] < s[j]
  }

  /** Sorting: its result is determined, so how the library sorts is not. */
  function Insert(s: seq<nat>, x: nat): (r: seq<nat>)
    ensures forall y :: y in r <==> y in s || y == x
    ensures Sorted(s) ==> Sorted(r)
  {
    if s == [] || s[|s| - 1] <= x then s + [x]
    else
      var r := Insert(s[..|s| - 1], x);
      assert forall i :: 0 <= i < |r| ==> r[i] in r;
      r + [s[|s| - 1]]
  }

  function Sort(s: seq<nat>): (r: seq<nat>)
    ensures forall y :: y in r <==> y in s
    ensures Sorted(r)
  {
    if s == [] then [] else Insert(Sort(s[..|s| - 1]), s[|s| - 1])
  }

  lemma AppendLarger(s: seq<nat>, x: nat)
    requires Increasing(s) && (s != [] ==> s[|s| - 1] < x)
    ensures Increasing(s + [x])
  {
  }

  /** Sort, then drop every element equal to the one kept before it. */
  method Normalize(indexes: seq<nat>) returns (normal: seq<nat>)
    ensures Increasing(normal)
    ensures forall x :: x in normal <==> x in indexes
  {
    var sorted := Sort(indexes);
    normal := [];
    for i := 0 to |sorted|
      invariant Increasing(normal)
      invariant forall x :: x in normal <==> x in sorted[..i]
      invariant i == 0 ==> normal == []
      invariant i > 0 ==> normal != [] && normal[|normal| - 1] == sorted[i - 1]
    {
      assert sorted[..i + 1] == sorted[..i] + [sorted[i]];
      assert i > 0 ==> sorted[i - 1] <= sorted[i];
      if normal == [] || normal[|normal| - 1] != sorted[i] {
        AppendLarger(normal, sorted[i]);
        normal := normal + [sorted[i]];
      } else {
        assert normal[|normal| - 1] in normal;
      }
    }
    assert sorted[..|sorted|] == sorted;
  }

  /** The normal form depends only on which indexes are given. */
  lemma {:induction false} NormalFormIsUnique(a: seq<nat>, b: seq<nat>)
    requires Increasing(a) && Increasing(b) && forall x :: x in a <==> x in b
    ensures a == b
  {
    assert b != [] ==> b[0] in a;
    if a != [] {
      assert a[|a| - 1] in b;
      var last := b[|b| - 1];
      assert last in a;
      var a', b' := a[..|a| - 1], b[..|b| - 1];
      forall x ensures x in a' <==> x in b' {
        assert x in a' ==> x in a && x != a[|a| - 1];
        assert x in b' ==> x in b && x != last;
      }
      NormalFormIsUnique(a', b');
    }
  }
}
