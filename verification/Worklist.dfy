/** Chasing requirements through a possibly cyclic graph of arguments. */
module Worklist {
  import opened Basics
  import opened Grammar

  function NeedsOf(byKey: map<string, Arg>, key: string): seq<string> {
    if key in byKey then byKey[key].needs else []
  }

  /** A set holds the base and everything needed by a start key or by itself. */
  ghost predicate IsClosed(byKey: map<string, Arg>, start: set<string>, base: set<string>, keys: set<string>) {
    && base <= keys
    && forall k, d :: (k in start || k in keys) && d in NeedsOf(byKey, k) ==> d in keys
  }

  ghost predicate IsLeastClosed(byKey: map<string, Arg>, start: set<string>, base: set<string>, keys: set<string>) {
    && IsClosed(byKey, start, base, keys)
    && forall other :: IsClosed(byKey, start, base, other) ==> keys <= other
  }

  /** Adding to an insertion-ordered set. */
  function AddAll(s: seq<string>, more: seq<string>): (r: seq<string>)
    ensures forall x :: x in r <==> x in s || x in more
    ensures NoRepeats(s) ==> NoRepeats(r)
    ensures s <= r
  {
    if more == [] then s
    else
      var r := AddAll(s, more[..|more| - 1]);
      assert more == more[..|more| - 1] + [more[|more| - 1]];
      if more[|more| - 1] in r then r else r + [more[|more| - 1]]
  }

  lemma {:induction false} AddAllTwice(s: seq<string>, more: seq<string>, last: seq<string>)
    ensures AddAll(s, more + last) == AddAll(AddAll(s, more), last)
  {
    if last == [] {
      assert more + last == more;
    } else {
      assert (more + last)[..|more + last| - 1] == more + last[..|last| - 1];
      AddAllTwice(s, more, last[..|last| - 1]);
    }
  }

  /** A text at a place of a list is new: not in the old list, and not before. */
  predicate NewAt(known: seq<string>, more: seq<string>, i: nat) {
    i < |more| && more[i] !in known && more[i] !in more[..i]
  }

  /** What is added stands behind the old entries: every new entry once, where it
      comes first. */
  lemma {:induction false} AddedExactly(s: seq<string>, more: seq<string>, n: nat) returns (at: seq<nat>)
    requires n <= |more|
    ensures Increasing(at) && (forall i :: i in at <==> 0 <= i < n && NewAt(s, more, i))
    ensures s <= AddAll(s, more[..n]) && TakenAt(AddAll(s, more[..n])[|s|..], more, at)
  {
    at := [];
    if n > 0 {
      at := AddedExactly(s, more, n - 1);
      assert more[..n][..n - 1] == more[..n - 1];
      if NewAt(s, more, n - 1) {
        IncreasingLonger(at, n - 1);
        var before := AddAll(s, more[..n - 1]);
        assert (before + [more[n - 1]])[|s|..] == before[|s|..] + [more[n - 1]];
        TakenOneMore(before[|s|..], more, at, n - 1);
        at := at + [n - 1];
      }
    }
  }

  /** The pending keys once the first n of them were looked at: a key seen for the
      first time brings in what it needs, behind all others. */
  function Pending(byKey: map<string, Arg>, initial: seq<string>, n: nat): (pending: seq<string>)
    ensures initial <= pending
  {
    if n == 0 then initial
    else
      var before := Pending(byKey, initial, n - 1);
      if NewAt([], before, n - 1) then before + NeedsOf(byKey, before[n - 1]) else before
  }

  /** Keys in the order in which they are found: first the base, then what pending
      keys bring in, breadth first, until all of them were looked at. */
  ghost predicate FoundInOrder(byKey: map<string, Arg>, start: seq<string>, base: seq<string>, required: seq<string>, n: nat) {
    var pending := Pending(byKey, start + base, n);
    |pending| <= n && required == AddAll(base, pending[|start + base|..])
  }

  /** The state once the first n pending keys were looked at. */
  ghost predicate LookedAt(byKey: map<string, Arg>, initial: seq<string>, base: seq<string>,
                           pending: seq<string>, required: seq<string>, n: nat) {
    pending == Pending(byKey, initial, n) && required == AddAll(base, pending[|initial|..])
  }

  lemma FoundNext(initial: seq<string>, base: seq<string>, pending: seq<string>, more: seq<string>)
    requires initial <= pending
    ensures AddAll(base, (pending + more)[|initial|..]) == AddAll(AddAll(base, pending[|initial|..]), more)
  {
    assert (pending + more)[|initial|..] == pending[|initial|..] + more;
    AddAllTwice(base, pending[|initial|..], more);
  }

  lemma LookAtNext(byKey: map<string, Arg>, initial: seq<string>, base: seq<string>,
                   pending: seq<string>, required: seq<string>, n: nat)
    requires LookedAt(byKey, initial, base, pending, required, n) && n < |pending|
    ensures var more := NeedsOf(byKey, pending[n]);
            if pending[n] in pending[..n] then LookedAt(byKey, initial, base, pending, required, n + 1)
            else LookedAt(byKey, initial, base, pending + more, AddAll(required, more), n + 1)
  {
    FoundNext(initial, base, pending, NeedsOf(byKey, pending[n]));
  }

  /** What holds between two visits: pending keys are the start keys and the
      required ones, whatever visited keys need is required, and nothing is
      required without reason. */
  ghost predicate Progress(byKey: map<string, Arg>, start: set<string>, base: set<string>,
                           pending: set<string>, visited: set<string>, required: set<string>) {
    && base <= required && pending == start + required && visited <= pending
    && (forall k, d :: k in visited && d in NeedsOf(byKey, k) ==> d in required)
    && (forall other :: IsClosed(byKey, start, base, other) ==> required <= other)
  }

  lemma VisitKeepsProgress(byKey: map<string, Arg>, start: set<string>, base: set<string>,
                           pending: set<string>, visited: set<string>, required: set<string>, key: string)
    requires Progress(byKey, start, base, pending, visited, required) && key in pending
    ensures var more := ToSet(NeedsOf(byKey, key));
            Progress(byKey, start, base, pending + more, visited + {key}, required + more)
  {
    var more := ToSet(NeedsOf(byKey, key));
    forall other | IsClosed(byKey, start, base, other) ensures required + more <= other {
      assert key in start || key in other;
    }
  }

  lemma ProgressEnds(byKey: map<string, Arg>, start: set<string>, base: set<string>,
                     pending: set<string>, required: set<string>)
    requires Progress(byKey, start, base, pending, pending, required)
    ensures IsLeastClosed(byKey, start, base, required)
  {
  }

  /** Add the direct needs of a key to both collections. */
  method Visit(byKey: map<string, Arg>, key: string, pending: seq<string>, required: seq<string>)
    returns (pending': seq<string>, required': seq<string>)
    ensures pending' == pending + NeedsOf(byKey, key)
    ensures required' == AddAll(required, NeedsOf(byKey, key))
  {
    var dependencies := NeedsOf(byKey, key);
    pending', required' := pending, required;
    for d := 0 to |dependencies|
      invariant required' == AddAll(required, dependencies[..d])
      invariant pending' == pending + dependencies[..d]
    {
      assert dependencies[..d + 1] == dependencies[..d] + [dependencies[d]];
      required' := if dependencies[d] in required' then required' else required' + [dependencies[d]];
      pending' := pending' + [dependencies[d]];
    }
    assert dependencies[..|dependencies|] == dependencies;
  }

  lemma SetOfOneMore(s: seq<string>, i: nat)
    requires i < |s|
    ensures ToSet(s[..i + 1]) == ToSet(s[..i]) + {s[i]}
  {
    assert s[..i + 1] == s[..i] + [s[i]];
  }

  lemma SetsAfterVisit(pending: seq<string>, required: seq<string>, more: seq<string>)
    ensures ToSet(pending + more) == ToSet(pending) + ToSet(more)
    ensures ToSet(AddAll(required, more)) == ToSet(required) + ToSet(more)
  {
  }

  lemma FewerToVisit(keys: set<string>, visited: set<string>, key: string)
    requires key !in visited
    ensures if key in keys then keys - (visited + {key}) < keys - visited
            else keys - (visited + {key}) == keys - visited
  {
    assert key in keys ==> key in keys - visited && key !in keys - (visited + {key});
  }

  /** The loop's invariant: the state behind the first n visits. */
  ghost predicate Chasing(byKey: map<string, Arg>, start: seq<string>, base: seq<string>, pending: seq<string>,
                          visited: set<string>, required: seq<string>, n: nat) {
    && n <= |pending| && visited == ToSet(pending[..n])
    && NoRepeats(required) && base <= required
    && LookedAt(byKey, start + base, base, pending, required, n)
    && Progress(byKey, ToSet(start), ToSet(base), ToSet(pending), visited, ToSet(required))
  }

  lemma ChaseSkips(byKey: map<string, Arg>, start: seq<string>, base: seq<string>, pending: seq<string>,
                   visited: set<string>, required: seq<string>, n: nat)
    requires Chasing(byKey, start, base, pending, visited, required, n) && n < |pending| && pending[n] in visited
    ensures Chasing(byKey, start, base, pending, visited, required, n + 1)
  {
    SetOfOneMore(pending, n);
    LookAtNext(byKey, start + base, base, pending, required, n);
  }

  lemma ChaseVisits(byKey: map<string, Arg>, start: seq<string>, base: seq<string>, pending: seq<string>,
                    visited: set<string>, required: seq<string>, n: nat)
    requires Chasing(byKey, start, base, pending, visited, required, n) && n < |pending| && pending[n] !in visited
    ensures var more := NeedsOf(byKey, pending[n]);
            Chasing(byKey, start, base, pending + more, visited + {pending[n]}, AddAll(required, more), n + 1)
  {
    var more := NeedsOf(byKey, pending[n]);
    SetOfOneMore(pending, n);
    assert (pending + more)[..n + 1] == pending[..n + 1];
    VisitKeepsProgress(byKey, ToSet(start), ToSet(base), ToSet(pending), visited, ToSet(required), pending[n]);
    SetsAfterVisit(pending, required, more);
    LookAtNext(byKey, start + base, base, pending, required, n);
  }

  lemma ChaseEnds(byKey: map<string, Arg>, start: seq<string>, base: seq<string>, pending: seq<string>,
                  visited: set<string>, required: seq<string>)
    requires Chasing(byKey, start, base, pending, visited, required, |pending|)
    ensures IsLeastClosed(byKey, ToSet(start), ToSet(base), ToSet(required))
    ensures FoundInOrder(byKey, start, base, required, |pending|)
  {
    assert pending[..|pending|] == pending;
    ProgressEnds(byKey, ToSet(start), ToSet(base), ToSet(pending), ToSet(required));
  }

  lemma ChaseStarts(byKey: map<string, Arg>, start: seq<string>, base: seq<string>)
    requires NoRepeats(base)
    ensures Chasing(byKey, start, base, start + base, {}, base, 0)
  {
    assert (start + base)[|start + base|..] == [];
  }

  /** The worklist: from the pending keys, collect what they need and what that
      needs, until no pending key is left unvisited. */
  method Chase(byKey: map<string, Arg>, start: seq<string>, base: seq<string>) returns (required: seq<string>)
    requires NoRepeats(base)
    ensures NoRepeats(required) && base <= required
    ensures IsLeastClosed(byKey, ToSet(start), ToSet(base), ToSet(required))
    ensures exists n :: FoundInOrder(byKey, start, base, required, n)
  {
    required := base;
    var pending := start + base;
    var visited: set<string> := {};
    var index := 0;
    ChaseStarts(byKey, start, base);
    while index < |pending|
      invariant index <= |pending|
      invariant Chasing(byKey, start, base, pending, visited, required, index)
      decreases byKey.Keys - visited, |pending| - index
    {
      var key := pending[index];
      if key in visited {
        ChaseSkips(byKey, start, base, pending, visited, required, index);
      } else {
        ChaseVisits(byKey, start, base, pending, visited, required, index);
        pending, required := Visit(byKey, key, pending, required);
        FewerToVisit(byKey.Keys, visited, key);
        visited := visited + {key};
      }
      index := index + 1;
    }
    ChaseEnds(byKey, start, base, pending, visited, required);
  }

  /** Chasing a second time from a closure enlarged by extra keys finds nothing
      new exactly when the extra keys need nothing new. */
  lemma SecondChase(byKey: map<string, Arg>, start: set<string>, base: set<string>, closure: set<string>,
                    extra: set<string>, required: set<string>, again: set<string>)
    requires IsLeastClosed(byKey, start, base, closure) && required == closure + extra
    requires IsLeastClosed(byKey, start + required, required, again)
    ensures again == required <==> forall u, d :: u in extra && d in NeedsOf(byKey, u) ==> d in required
  {
    if forall u, d :: u in extra && d in NeedsOf(byKey, u) ==> d in required {
      assert IsClosed(byKey, start + required, required, required);
    }
  }
}
