/** Result types and sequence helpers shared by the other modules. */
module Basics {

  datatype Option<+T> = None | Some(value: T) {
    function GetOr(default: T): T {
      if Some? then value else default
    }
  }

  datatype Result<+T, +E> = Ok(value: T) | Err(error: E)

  predicate StartsWith(s: string, prefix: string) {
    prefix <= s
  }

  predicate EndsWith(s: string, suffix: string) {
    |suffix| <= |s| && s[|s| - |suffix|..] == suffix
  }

  /** The part of a text before the first c, or all of it. */
  function UpTo(s: string, c: char): string {
    if s == "" || s[0] == c then "" else [s[0]] + UpTo(s[1..], c)
  }

  lemma {:induction false} UpToStops(front: string, rest: string, c: char)
    requires c !in front && (rest != "" ==> rest[0] == c)
    ensures UpTo(front + rest, c) == front
  {
    if front != "" {
      assert (front + rest)[1..] == front[1..] + rest;
      UpToStops(front[1..], rest, c);
    } else {
      assert front + rest == rest;
    }
  }

  predicate OccursAt(s: string, part: string, k: nat) {
    k + |part| <= |s| && s[k..k + |part|] == part
  }

  ghost predicate Contains(s: string, part: string) {
    exists k: nat :: OccursAt(s, part, k)
  }

  ghost predicate NoRepeats<T>(s: seq<T>) {
    forall i, j :: 0 <= i < j < |s| ==> s[i] != s[j]
  }

  function ToSet<T>(s: seq<T>): set<T> {
    set x | x in s
  }

  function Filter<T(!new)>(s: seq<T>, keep: T -> bool): (r: seq<T>)
    ensures forall x :: x in r <==> x in s && keep(x)
    ensures NoRepeats(s) ==> NoRepeats(r)
  {
    if s == [] then []
    else
      var init := Filter(s[..|s| - 1], keep);
      assert s == s[..|s| - 1] + [s[|s| - 1]];
      if keep(s[|s| - 1]) then init + [s[|s| - 1]] else init
  }

  // ----- what is kept, said by positions

  ghost predicate Increasing(at: seq<nat>) {
    forall a, b :: 0 <= a < b < |at| ==> at[a] < at[b]
  }

  /** A list holds what stands at the given positions of another. */
  ghost predicate TakenAt<T>(taken: seq<T>, s: seq<T>, at: seq<nat>) {
    |taken| == |at| && forall k :: 0 <= k < |at| ==> at[k] < |s| && taken[k] == s[at[k]]
  }

  lemma IncreasingLonger(at: seq<nat>, n: nat)
    requires Increasing(at) && forall i :: i in at ==> i < n
    ensures Increasing(at + [n])
    ensures forall i :: i in at + [n] <==> i in at || i == n
  {
    forall a | 0 <= a < |at| ensures at[a] < n {
      assert at[a] in at;
    }
  }

  /** Filtering keeps just the wanted entries, each once and in order. */
  lemma {:induction false} FilterExactly<T(!new)>(s: seq<T>, keep: T -> bool) returns (at: seq<nat>)
    ensures Increasing(at) && TakenAt(Filter(s, keep), s, at)
    ensures forall i :: i in at <==> 0 <= i < |s| && keep(s[i])
  {
    if s == [] {
      at := [];
    } else {
      var n := |s| - 1;
      at := FilterExactly(s[..n], keep);
      if keep(s[n]) {
        IncreasingLonger(at, n);
        at := at + [n];
      }
    }
  }

  /** An increasing list of the given positions. */
  ghost predicate ListsPositions(at: seq<nat>, positions: set<nat>) {
    Increasing(at) && forall i :: i in at <==> i in positions
  }

  lemma ListWithoutLast(at: seq<nat>, positions: set<nat>, n: nat)
    requires ListsPositions(at, positions) && n in positions && forall i :: i in positions ==> i <= n
    ensures at != [] && at == at[..|at| - 1] + [n]
    ensures ListsPositions(at[..|at| - 1], positions - {n})
  {
    var k :| 0 <= k < |at| && at[k] == n;
    var last := |at| - 1;
    assert at[last] in at && k == last;
    forall i | i in positions - {n} ensures i in at[..last] {
      var a :| 0 <= a < |at| && at[a] == i;
      assert at[..last][a] == i;
    }
    forall i | i in at[..last] ensures i in positions - {n} {
      var a :| 0 <= a < last && at[a] == i;
      assert at[a] in at;
    }
  }

  lemma ListedIsThere(at: seq<nat>, positions: set<nat>)
    requires ListsPositions(at, positions)
    ensures at != [] ==> positions != {}
  {
    if at != [] { assert at[0] in positions; }
  }

  lemma TakenOneMore<T>(taken: seq<T>, s: seq<T>, at: seq<nat>, n: nat)
    requires TakenAt(taken, s, at) && n < |s|
    ensures TakenAt(taken + [s[n]], s, at + [n])
  {
  }

  lemma LastIsGreatest(at: seq<nat>, positions: set<nat>)
    requires ListsPositions(at, positions) && at != []
    ensures at[|at| - 1] in positions && forall i :: i in positions ==> i <= at[|at| - 1]
  {
    assert at[|at| - 1] in at;
    forall i | i in positions ensures i <= at[|at| - 1] {
      var a :| 0 <= a < |at| && at[a] == i;
    }
  }

  /** Positions can be listed in one way only. */
  lemma {:induction false} ListIsUnique(a: seq<nat>, b: seq<nat>, positions: set<nat>)
    requires ListsPositions(a, positions) && ListsPositions(b, positions)
    ensures a == b
  {
    ListedIsThere(a, positions);
    ListedIsThere(b, positions);
    if a != [] {
      var n := a[|a| - 1];
      LastIsGreatest(a, positions);
      ListWithoutLast(a, positions, n);
      ListWithoutLast(b, positions, n);
      ListIsUnique(a[..|a| - 1], b[..|b| - 1], positions - {n});
    } else if i :| i in positions {
      assert i in a;
    }
  }

  lemma FilterOneMore<T(!new)>(s: seq<T>, x: T, keep: T -> bool)
    ensures Filter(s + [x], keep) == Filter(s, keep) + if keep(x) then [x] else []
  {
    assert (s + [x])[..|s|] == s;
  }

  lemma {:induction false} FilterTwice<T(!new)>(s: seq<T>, p: T -> bool, q: T -> bool, both: T -> bool)
    requires forall x :: both(x) <==> p(x) && q(x)
    ensures Filter(Filter(s, p), q) == Filter(s, both)
  {
    if s != [] {
      var n := |s| - 1;
      FilterTwice(s[..n], p, q, both);
      FilterOneMore(Filter(s[..n], p), s[n], q);
    }
  }

  lemma FilterTwiceExactly<T(!new)>(s: seq<T>, p: T -> bool, q: T -> bool) returns (at: seq<nat>)
    ensures Increasing(at) && TakenAt(Filter(Filter(s, p), q), s, at)
    ensures forall i :: i in at <==> 0 <= i < |s| && p(s[i]) && q(s[i])
  {
    var both := (x: T) => p(x) && q(x);
    FilterTwice(s, p, q, both);
    at := FilterExactly(s, both);
  }
}
