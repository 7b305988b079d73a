/** The greedy character matching behind the similarity score, as a function,
    and what it computes: the unique stable matching of the two texts, which is
    also a maximum one. Characters are of any type: nothing depends on them. */
module Matching {

  /** How far apart two positions may be and still be matched. */
  function Distance(n: nat, m: nat): nat {
    var longest := if n >= m then n else m;
    if longest / 2 >= 1 then longest / 2 - 1 else 0
  }

  /** Position i of the left text may be matched with position j of the right. */
  predicate Edge<T(==)>(left: seq<T>, right: seq<T>, i: nat, j: nat) {
    && i < |left| && j < |right| && left[i] == right[j]
    && i <= j + Distance(|left|, |right|) && j <= i + Distance(|left|, |right|)
  }

  /** Two positions may be matched when they are the same, or when one more than
      their distance, doubled, fits into the longer text. */
  lemma WindowExactly<T>(left: seq<T>, right: seq<T>, i: nat, j: nat)
    requires i < |left| && j < |right|
    ensures Edge(left, right, i, j) <==>
            && left[i] == right[j]
            && var apart := if i <= j then j - i else i - j;
               apart == 0 || 2 * (apart + 1) <= |left| || 2 * (apart + 1) <= |right|
  {
  }

  /** A pairing of left with right positions: the partner of each matched left
      position, and the partner of each matched right position. */
  datatype Pairing = Pairing(forth: map<nat, nat>, back: map<nat, nat>) {

    ghost predicate Consistent() {
      && (forall i :: i in forth ==> forth[i] in back && back[forth[i]] == i)
      && (forall j :: j in back ==> back[j] in forth && forth[back[j]] == j)
    }

    function Flip(): Pairing {
      Pairing(back, forth)
    }

    function Add(i: nat, j: nat): Pairing {
      Pairing(forth[i := j], back[j := i])
    }

    /** Remove left position i with its partner. */
    function Remove(i: nat): Pairing
      requires i in forth
    {
      Pairing(forth - {i}, back - {forth[i]})
    }
  }

  ghost predicate IsMatching<T>(left: seq<T>, right: seq<T>, p: Pairing) {
    p.Consistent() && forall i :: i in p.forth ==> Edge(left, right, i, p.forth[i])
  }

  /** Positions i and j would not both do better with each other, when every
      position prefers the smallest partner. */
  predicate Settled(p: Pairing, i: nat, j: nat) {
    (i in p.forth && p.forth[i] <= j) || (j in p.back && p.back[j] <= i)
  }

  /** No pair could both do better; only left positions below n are considered. */
  ghost predicate StableBelow<T>(left: seq<T>, right: seq<T>, p: Pairing, n: nat) {
    forall i: nat, j: nat :: i < n && Edge(left, right, i, j) ==> Settled(p, i, j)
  }

  ghost predicate IsStable<T>(left: seq<T>, right: seq<T>, p: Pairing) {
    IsMatching(left, right, p) && StableBelow(left, right, p, |left|)
  }

  // ----- the greedy choice

  /** The smallest unused right position from j on that may be matched with i,
      or |right| when there is none. */
  function FirstFree<T(==)>(left: seq<T>, right: seq<T>, used: set<nat>, i: nat, j: nat): (r: nat)
    requires j <= |right|
    ensures j <= r <= |right|
    ensures r < |right| ==> r !in used && Edge(left, right, i, r)
    ensures forall k :: j <= k < r ==> k in used || !Edge(left, right, i, k)
    decreases |right| - j
  {
    if j == |right| || (j !in used && Edge(left, right, i, j)) then j
    else FirstFree(left, right, used, i, j + 1)
  }

  /** The choice of left position i, made after all smaller ones. */
  function Choose<T(==)>(left: seq<T>, right: seq<T>, before: Pairing, i: nat): Pairing {
    var j := FirstFree(left, right, before.back.Keys, i, 0);
    if j < |right| then before.Add(i, j) else before
  }

  /** The pairing after the first n left positions have chosen. */
  function Greedy<T(==)>(left: seq<T>, right: seq<T>, n: nat): Pairing
    requires n <= |left|
  {
    if n == 0 then Pairing(map[], map[]) else Choose(left, right, Greedy(left, right, n - 1), n - 1)
  }

  /** The full greedy pairing. */
  function Pairs<T(==)>(left: seq<T>, right: seq<T>): Pairing {
    Greedy(left, right, |left|)
  }

  lemma AddKeepsMatching<T>(left: seq<T>, right: seq<T>, p: Pairing, i: nat, j: nat)
    requires IsMatching(left, right, p) && i !in p.forth && j !in p.back && Edge(left, right, i, j)
    ensures IsMatching(left, right, p.Add(i, j))
  {
  }

  lemma RemoveKeepsMatching<T>(left: seq<T>, right: seq<T>, p: Pairing, i: nat)
    requires IsMatching(left, right, p) && i in p.forth
    ensures IsMatching(left, right, p.Remove(i))
  {
  }

  /** Only left positions below n are matched. */
  ghost predicate KeysBelow(p: Pairing, n: nat) {
    forall i :: i in p.forth ==> i < n
  }

  lemma ChoiceKeepsMatching<T>(left: seq<T>, right: seq<T>, before: Pairing, i: nat)
    requires IsMatching(left, right, before) && i !in before.forth
    ensures IsMatching(left, right, Choose(left, right, before, i))
  {
    var chosen := FirstFree(left, right, before.back.Keys, i, 0);
    if chosen < |right| {
      AddKeepsMatching(left, right, before, i, chosen);
    }
  }

  lemma ChoiceSettles<T>(left: seq<T>, right: seq<T>, before: Pairing, i: nat, k: nat, j: nat)
    requires before.Consistent() && KeysBelow(before, i) && Edge(left, right, k, j)
    requires k == i || Settled(before, k, j)
    ensures Settled(Choose(left, right, before, i), k, j)
  {
  }

  lemma {:induction false} GreedyIsMatching<T>(left: seq<T>, right: seq<T>, n: nat)
    requires n <= |left|
    ensures IsMatching(left, right, Greedy(left, right, n)) && KeysBelow(Greedy(left, right, n), n)
  {
    if n > 0 {
      GreedyIsMatching(left, right, n - 1);
      ChoiceKeepsMatching(left, right, Greedy(left, right, n - 1), n - 1);
    }
  }

  lemma {:induction false} GreedySettles<T>(left: seq<T>, right: seq<T>, n: nat, i: nat, j: nat)
    requires i < n <= |left| && Edge(left, right, i, j)
    ensures Settled(Greedy(left, right, n), i, j)
  {
    var before := Greedy(left, right, n - 1);
    assert before.Consistent() && KeysBelow(before, n - 1) by { GreedyIsMatching(left, right, n - 1); }
    if i < n - 1 {
      GreedySettles(left, right, n - 1, i, j);
    }
    ChoiceSettles(left, right, before, n - 1, i, j);
  }

  lemma PairsAreStable<T>(left: seq<T>, right: seq<T>)
    ensures IsStable(left, right, Pairs(left, right))
  {
    GreedyIsMatching(left, right, |left|);
    forall i: nat, j: nat | Edge(left, right, i, j) ensures Settled(Pairs(left, right), i, j) {
      GreedySettles(left, right, |left|, i, j);
    }
  }

  // ----- uniqueness and symmetry

  /** Two pairings treat the left positions below n alike. */
  ghost predicate AgreeBelow(p: Pairing, q: Pairing, n: nat) {
    forall i :: 0 <= i < n ==> (i in p.forth <==> i in q.forth) && (i in p.forth ==> p.forth[i] == q.forth[i])
  }

  /** A position is never better off in some matching than in a stable pairing
      that agrees with it on all smaller left positions. */
  lemma NoBetterPartner<T>(left: seq<T>, right: seq<T>, p: Pairing, q: Pairing, i: nat)
    requires IsMatching(left, right, p) && IsStable(left, right, q) && AgreeBelow(p, q, i)
    requires i in p.forth
    ensures i in q.forth && q.forth[i] <= p.forth[i]
  {
    assert Edge(left, right, i, p.forth[i]);
    assert Settled(q, i, p.forth[i]);
  }

  lemma StablePairingsAgreeNext<T>(left: seq<T>, right: seq<T>, p: Pairing, q: Pairing, i: nat)
    requires IsStable(left, right, p) && IsStable(left, right, q) && AgreeBelow(p, q, i) && AgreeBelow(q, p, i)
    ensures i in p.forth <==> i in q.forth
    ensures i in p.forth ==> p.forth[i] == q.forth[i]
  {
    if i in p.forth { NoBetterPartner(left, right, p, q, i); }
    if i in q.forth { NoBetterPartner(left, right, q, p, i); }
  }

  lemma AgreeOnNext(p: Pairing, q: Pairing, i: nat)
    requires AgreeBelow(p, q, i) && (i in p.forth <==> i in q.forth) && (i in p.forth ==> p.forth[i] == q.forth[i])
    ensures AgreeBelow(p, q, i + 1) && AgreeBelow(q, p, i + 1)
  {
  }

  lemma {:induction false} StablePairingsAgree<T>(left: seq<T>, right: seq<T>, p: Pairing, q: Pairing, n: nat)
    requires IsStable(left, right, p) && IsStable(left, right, q)
    ensures AgreeBelow(p, q, n) && AgreeBelow(q, p, n)
  {
    if n > 0 {
      StablePairingsAgree(left, right, p, q, n - 1);
      StablePairingsAgreeNext(left, right, p, q, n - 1);
      AgreeOnNext(p, q, n - 1);
    }
  }

  lemma AgreementIsEquality<T>(left: seq<T>, right: seq<T>, p: Pairing, q: Pairing)
    requires IsMatching(left, right, p) && IsMatching(left, right, q) && AgreeBelow(p, q, |left|)
    ensures p == q
  {
    forall i ensures i in p.forth <==> i in q.forth {
      assert i in p.forth ==> Edge(left, right, i, p.forth[i]);
      assert i in q.forth ==> Edge(left, right, i, q.forth[i]);
    }
    assert p.forth == q.forth;
    forall j ensures j in p.back <==> j in q.back {
      assert j in p.back ==> p.back[j] in q.forth && q.forth[p.back[j]] == j;
      assert j in q.back ==> q.back[j] in p.forth && p.forth[q.back[j]] == j;
    }
    assert p.back == q.back;
  }

  /** The greedy pairing is the only stable one. */
  lemma StablePairingIsUnique<T>(left: seq<T>, right: seq<T>, p: Pairing)
    ensures IsStable(left, right, p) <==> p == Pairs(left, right)
  {
    PairsAreStable(left, right);
    if IsStable(left, right, p) {
      StablePairingsAgree(left, right, p, Pairs(left, right), |left|);
      AgreementIsEquality(left, right, p, Pairs(left, right));
    }
  }

  lemma FlippedIsStable<T>(left: seq<T>, right: seq<T>, p: Pairing)
    requires IsStable(left, right, p)
    ensures IsStable(right, left, p.Flip())
  {
    forall j | j in p.back ensures Edge(right, left, j, p.back[j]) {
      assert Edge(left, right, p.back[j], j);
    }
    forall j: nat, i: nat | Edge(right, left, j, i) ensures Settled(p.Flip(), j, i) {
      assert Edge(left, right, i, j);
      assert Settled(p, i, j);
    }
  }

  /** Greedily matching in the other direction gives the very same pairs. */
  lemma PairsAreSymmetric<T>(left: seq<T>, right: seq<T>)
    ensures Pairs(right, left) == Pairs(left, right).Flip()
  {
    PairsAreStable(left, right);
    FlippedIsStable(left, right, Pairs(left, right));
    StablePairingIsUnique(right, left, Pairs(left, right).Flip());
  }

  // ----- maximality

  /** Positions i and k of the left text exchange their partners. */
  ghost function Swapped(p: Pairing, i: nat, k: nat): Pairing
    requires i in p.forth && k in p.forth && i != k
  {
    p.Remove(i).Remove(k).Add(i, p.forth[k]).Add(k, p.forth[i])
  }

  /** Crossing partners can be swapped: the window has the same width everywhere. */
  lemma SwappedIsMatching<T>(left: seq<T>, right: seq<T>, p: Pairing, i: nat, k: nat)
    requires IsMatching(left, right, p)
    requires i < k && i in p.forth && k in p.forth && p.forth[k] < p.forth[i] && Edge(left, right, i, p.forth[k])
    ensures IsMatching(left, right, Swapped(p, i, k))
  {
    assert Edge(left, right, i, p.forth[i]) && Edge(left, right, k, p.forth[k]);
    RemoveKeepsMatching(left, right, p, i);
    RemoveKeepsMatching(left, right, p.Remove(i), k);
    var rest := p.Remove(i).Remove(k);
    AddKeepsMatching(left, right, rest, i, p.forth[k]);
    AddKeepsMatching(left, right, rest.Add(i, p.forth[k]), k, p.forth[i]);
  }

  lemma SwappedPartners(p: Pairing, i: nat, k: nat)
    requires i in p.forth && k in p.forth && i != k
    ensures Swapped(p, i, k).forth == p.forth[i := p.forth[k]][k := p.forth[i]]
    ensures Swapped(p, i, k).forth.Keys == p.forth.Keys
  {
  }

  lemma Swap<T>(left: seq<T>, right: seq<T>, p: Pairing, i: nat, k: nat) returns (q: Pairing)
    requires IsMatching(left, right, p)
    requires i < k && i in p.forth && k in p.forth && p.forth[k] < p.forth[i] && Edge(left, right, i, p.forth[k])
    ensures IsMatching(left, right, q) && |q.forth.Keys| >= |p.forth.Keys|
    ensures AgreeBelow(q, p, i) && i in q.forth && q.forth[i] == p.forth[k]
  {
    q := Swapped(p, i, k);
    SwappedIsMatching(left, right, p, i, k);
    SwappedPartners(p, i, k);
  }

  /** A partner can be moved from a matched position to an unmatched one. */
  lemma Move<T>(left: seq<T>, right: seq<T>, p: Pairing, i: nat, k: nat) returns (q: Pairing)
    requires IsMatching(left, right, p)
    requires i < k && i !in p.forth && k in p.forth && Edge(left, right, i, p.forth[k])
    ensures IsMatching(left, right, q) && |q.forth.Keys| >= |p.forth.Keys|
    ensures AgreeBelow(q, p, i) && i in q.forth && q.forth[i] == p.forth[k]
  {
    RemoveKeepsMatching(left, right, p, k);
    AddKeepsMatching(left, right, p.Remove(k), i, p.forth[k]);
    q := p.Remove(k).Add(i, p.forth[k]);
    assert q.forth.Keys == p.forth.Keys - {k} + {i};
  }

  /** A free right position can be given to any left position. */
  lemma Give<T>(left: seq<T>, right: seq<T>, p: Pairing, i: nat, j: nat) returns (q: Pairing)
    requires IsMatching(left, right, p)
    requires j !in p.back && Edge(left, right, i, j)
    ensures IsMatching(left, right, q) && |q.forth.Keys| >= |p.forth.Keys|
    ensures AgreeBelow(q, p, i) && i in q.forth && q.forth[i] == j
  {
    if i in p.forth {
      RemoveKeepsMatching(left, right, p, i);
      q := Free(left, right, p.Remove(i), i, j);
    } else {
      q := Free(left, right, p, i, j);
    }
    UpdatedAt(q, p, i, j);
  }

  lemma UpdatedAt(q: Pairing, p: Pairing, i: nat, j: nat)
    requires q.forth == (p.forth - {i})[i := j]
    ensures AgreeBelow(q, p, i) && i in q.forth && q.forth[i] == j && |q.forth.Keys| >= |p.forth.Keys|
  {
    assert q.forth.Keys == p.forth.Keys + {i};
  }

  lemma Free<T>(left: seq<T>, right: seq<T>, p: Pairing, i: nat, j: nat) returns (q: Pairing)
    requires IsMatching(left, right, p) && i !in p.forth && j !in p.back && Edge(left, right, i, j)
    ensures q.forth == (p.forth - {i})[i := j] && IsMatching(left, right, q)
  {
    AddKeepsMatching(left, right, p, i, j);
    q := p.Add(i, j);
  }

  lemma AgreeOnOneMore(r: Pairing, p: Pairing, q: Pairing, i: nat)
    requires AgreeBelow(r, p, i) && AgreeBelow(p, q, i)
    requires i in r.forth && i in q.forth && r.forth[i] == q.forth[i]
    ensures AgreeBelow(r, q, i + 1)
  {
  }

  /** Left position i takes over right position j, which is free or held by a
      later position. */
  lemma TakeOver<T>(left: seq<T>, right: seq<T>, p: Pairing, i: nat, j: nat) returns (r: Pairing)
    requires IsMatching(left, right, p) && Edge(left, right, i, j)
    requires j in p.back ==> p.back[j] > i
    requires i in p.forth ==> j < p.forth[i]
    ensures IsMatching(left, right, r) && |r.forth.Keys| >= |p.forth.Keys|
    ensures AgreeBelow(r, p, i) && i in r.forth && r.forth[i] == j
  {
    if j !in p.back {
      r := Give(left, right, p, i, j);
    } else if i in p.forth {
      r := Swap(left, right, p, i, p.back[j]);
    } else {
      r := Move(left, right, p, i, p.back[j]);
    }
  }

  /** Any matching can be changed, without getting smaller, to agree with the
      stable pairing on one more left position. */
  lemma Exchange<T>(left: seq<T>, right: seq<T>, p: Pairing, q: Pairing, i: nat) returns (r: Pairing)
    requires IsMatching(left, right, p) && IsStable(left, right, q) && AgreeBelow(p, q, i)
    ensures IsMatching(left, right, r) && AgreeBelow(r, q, i + 1) && |r.forth.Keys| >= |p.forth.Keys|
  {
    r := p;
    if i in p.forth {
      NoBetterPartner(left, right, p, q, i);
    }
    if i in q.forth && !(i in p.forth && p.forth[i] == q.forth[i]) {
      var j := q.forth[i];
      assert Edge(left, right, i, j);
      r := TakeOver(left, right, p, i, j);
      AgreeOnOneMore(r, p, q, i);
    }
  }

  lemma {:induction false} ExchangeAll<T>(left: seq<T>, right: seq<T>, p: Pairing, q: Pairing, n: nat) returns (r: Pairing)
    requires IsMatching(left, right, p) && IsStable(left, right, q)
    ensures IsMatching(left, right, r) && AgreeBelow(r, q, n) && |r.forth.Keys| >= |p.forth.Keys|
  {
    r := p;
    if n > 0 {
      r := ExchangeAll(left, right, p, q, n - 1);
      r := Exchange(left, right, r, q, n - 1);
    }
  }

  /** No matching of equal characters within the window has more pairs. */
  lemma PairsAreMaximum<T>(left: seq<T>, right: seq<T>, p: Pairing)
    requires IsMatching(left, right, p)
    ensures |p.forth.Keys| <= |Pairs(left, right).forth.Keys|
  {
    PairsAreStable(left, right);
    var r := ExchangeAll(left, right, p, Pairs(left, right), |left|);
    AgreementIsEquality(left, right, r, Pairs(left, right));
  }
}
