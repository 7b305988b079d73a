/** The similarity score between two texts and the ranking of suggestions. */
module Similarity {
  import opened Basics
  import opened Matching

  /** The characters of the first n positions that are used, in text order. */
  function Picks<T>(text: seq<T>, used: set<nat>, n: nat): (picked: seq<T>)
    requires n <= |text|
    ensures |picked| <= n
  {
    if n == 0 then []
    else if n - 1 in used then Picks(text, used, n - 1) + [text[n - 1]]
    else Picks(text, used, n - 1)
  }

  /** Three parts of the score, each a fraction of one. */
  function Average(matches: nat, kept: int, n: nat, m: nat): real
    requires matches > 0 && n > 0 && m > 0
  {
    (matches as real / n as real + matches as real / m as real + kept as real / matches as real) / 3.0
  }

  /** How many positions of a hold another character than b, or lie beyond b. */
  function Mismatches<T(==)>(a: seq<T>, b: seq<T>): (count: nat)
    ensures count <= |a|
  {
    if a == [] then 0
    else
      var last := |a| - 1;
      Mismatches(a[..last], b) + if last < |b| && a[last] == b[last] then 0 else 1
  }

  /** The matched characters of the left text. */
  function PicksLeft<T>(left: seq<T>, p: Pairing): seq<T> {
    Picks(left, p.forth.Keys, |left|)
  }

  /** The matched characters of the right text. */
  function PicksRight<T>(right: seq<T>, p: Pairing): seq<T> {
    Picks(right, p.back.Keys, |right|)
  }

  function Transpositions<T(==)>(left: seq<T>, right: seq<T>): nat {
    Mismatches(PicksLeft(left, Pairs(left, right)), PicksRight(right, Pairs(left, right))) / 2
  }

  /** The score of two texts, over exact reals. */
  function Score<T(==)>(left: seq<T>, right: seq<T>): real {
    if left == right then 1.0
    else if |left| == 0 || |right| == 0 then 0.0
    else
      var matches := |Pairs(left, right).forth.Keys|;
      if matches == 0 then 0.0
      else
        var kept := matches - Transpositions(left, right);
        Average(matches, kept, |left|, |right|)
  }

  /** The inner loop: the window of one left position, searched upwards. */
  method FindPartner<T(==)>(left: seq<T>, right: seq<T>, usedRight: set<nat>, index: nat) returns (other: nat)
    requires index < |left| && |right| > 0
    ensures other == FirstFree(left, right, usedRight, index, 0)
  {
    var distance := Distance(|left|, |right|);
    other := if index >= distance then index - distance else 0;
    var end := if index + distance < |right| - 1 then index + distance else |right| - 1;
    while other <= end
      invariant forall k :: 0 <= k < other ==> k in usedRight || !Edge(left, right, index, k)
    {
      if other !in usedRight && left[index] == right[other] {
        return;
      }
      other := other + 1;
    }
    other := |right|;
  }

  lemma GreedyStep<T>(left: seq<T>, right: seq<T>, index: nat, other: nat)
    requires index < |left| && other == FirstFree(left, right, Greedy(left, right, index).back.Keys, index, 0)
    ensures var before, next := Greedy(left, right, index), Greedy(left, right, index + 1);
            && next.forth.Keys == before.forth.Keys + (if other < |right| then {index} else {})
            && next.back.Keys == before.back.Keys + (if other < |right| then {other} else {})
  {
  }

  /** The outer loop: the positions used on both sides. */
  method MatchPositions<T(==)>(left: seq<T>, right: seq<T>) returns (usedLeft: set<nat>, usedRight: set<nat>)
    requires |right| > 0
    ensures usedLeft == Pairs(left, right).forth.Keys && usedRight == Pairs(left, right).back.Keys
  {
    usedLeft, usedRight := {}, {};
    for index := 0 to |left|
      invariant usedLeft == Greedy(left, right, index).forth.Keys
      invariant usedRight == Greedy(left, right, index).back.Keys
    {
      var other := FindPartner(left, right, usedRight, index);
      GreedyStep(left, right, index, other);
      if other < |right| {
        usedLeft, usedRight := usedLeft + {index}, usedRight + {other};
      }
    }
  }

  // ----- the matched characters on both sides

  lemma {:induction false} NothingPicked<T>(text: seq<T>, n: nat)
    requires n <= |text|
    ensures Picks(text, {}, n) == []
  {
    if n > 0 {
      NothingPicked(text, n - 1);
    }
  }

  lemma AppendToBoth<T>(more: seq<T>, fewer: seq<T>, x: T, last: T)
    requires multiset(more) == multiset(fewer) + multiset{x}
    ensures multiset(more + [last]) == multiset(fewer + [last]) + multiset{x}
  {
  }

  lemma {:induction false} PickedWithout<T>(text: seq<T>, used: set<nat>, n: nat, i: nat)
    requires n <= |text| && i in used
    ensures var fewer := Picks(text, used - {i}, n);
            if i < n then multiset(Picks(text, used, n)) == multiset(fewer) + multiset{text[i]}
            else Picks(text, used, n) == fewer
  {
    if n > 0 {
      PickedWithout(text, used, n - 1, i);
      var fewer := Picks(text, used - {i}, n - 1);
      if n - 1 == i {
        assert Picks(text, used, n) == fewer + [text[i]];
      } else if n - 1 in used && i < n - 1 {
        assert Picks(text, used - {i}, n) == fewer + [text[n - 1]];
        AppendToBoth(Picks(text, used, n - 1), fewer, text[i], text[n - 1]);
      }
    }
  }

  lemma {:induction false} PickedCount<T>(text: seq<T>, used: set<nat>, n: nat, i: nat)
    requires n <= |text| && i in used
    ensures |Picks(text, used, n)| == |Picks(text, used - {i}, n)| + if i < n then 1 else 0
  {
    if n > 0 {
      PickedCount(text, used, n - 1, i);
    }
  }

  lemma {:induction false} AllPicked<T>(text: seq<T>, used: set<nat>, n: nat)
    requires n <= |text| && |Picks(text, used, n)| == n
    ensures Picks(text, used, n) == text[..n]
  {
    if n > 0 {
      AllPicked(text, used, n - 1);
      assert text[..n] == text[..n - 1] + [text[n - 1]];
    }
  }

  /** What one pair contributes to the picks of both sides. */
  lemma PicksWithoutPair<T>(left: seq<T>, right: seq<T>, p: Pairing, i: nat)
    requires IsMatching(left, right, p) && i in p.forth
    ensures var q := p.Remove(i);
            && IsMatching(left, right, q)
            && multiset(PicksLeft(left, p)) == multiset(PicksLeft(left, q)) + multiset{left[i]}
            && multiset(PicksRight(right, p)) == multiset(PicksRight(right, q)) + multiset{left[i]}
            && |PicksLeft(left, p)| == |PicksLeft(left, q)| + 1
            && |PicksRight(right, p)| == |PicksRight(right, q)| + 1
            && |p.forth.Keys| == |q.forth.Keys| + 1 && |p.back.Keys| == |q.back.Keys| + 1
  {
    assert Edge(left, right, i, p.forth[i]);
    RemoveKeepsMatching(left, right, p, i);
    var q := p.Remove(i);
    assert q.forth.Keys == p.forth.Keys - {i} && q.back.Keys == p.back.Keys - {p.forth[i]};
    PickedWithout(left, p.forth.Keys, |left|, i);
    PickedWithout(right, p.back.Keys, |right|, p.forth[i]);
    PickedCount(left, p.forth.Keys, |left|, i);
    PickedCount(right, p.back.Keys, |right|, p.forth[i]);
  }

  /** A matching picks the same characters, equally often, on both sides. */
  lemma {:induction false} PicksCorrespond<T>(left: seq<T>, right: seq<T>, p: Pairing)
    requires IsMatching(left, right, p)
    ensures multiset(PicksLeft(left, p)) == multiset(PicksRight(right, p))
    ensures |PicksLeft(left, p)| == |PicksRight(right, p)| == |p.forth.Keys| == |p.back.Keys|
    decreases |p.forth.Keys|
  {
    if i :| i in p.forth {
      PicksWithoutPair(left, right, p, i);
      PicksCorrespond(left, right, p.Remove(i));
    } else {
      assert p.forth.Keys == {} && p.back.Keys == {};
      NothingPicked(left, |left|);
      NothingPicked(right, |right|);
    }
  }

  lemma {:induction false} WithoutMismatchEqual<T>(a: seq<T>, b: seq<T>)
    requires |a| == |b| && Mismatches(a, b) == 0
    ensures a == b
  {
    if a != [] {
      var last := |a| - 1;
      MismatchesOfPrefix(a[..last], b, last);
      WithoutMismatchEqual(a[..last], b[..last]);
      assert a == a[..last] + [a[last]] && b == b[..last] + [b[last]];
    }
  }

  lemma CancelLast<T>(a: seq<T>, b: seq<T>, x: T, y: T)
    requires multiset(a + [x]) == multiset(b + [y])
    ensures x == y ==> multiset(a) == multiset(b)
    ensures a == b ==> x == y
  {
    assert multiset(a) == multiset(a + [x]) - multiset{x};
    assert multiset(b) == multiset(b + [y]) - multiset{y};
    assert multiset(a + [x])[x] == multiset(a)[x] + 1;
  }

  /** Two texts with the same characters never differ in exactly one position. */
  lemma {:induction false} NoSingleMismatch<T>(a: seq<T>, b: seq<T>)
    requires |a| == |b| && multiset(a) == multiset(b) && Mismatches(a, b) <= 1
    ensures a == b
  {
    if a != [] {
      var last := |a| - 1;
      assert a == a[..last] + [a[last]] && b == b[..last] + [b[last]];
      MismatchesOfPrefix(a[..last], b, last);
      CancelLast(a[..last], b[..last], a[last], b[last]);
      if Mismatches(a[..last], b[..last]) == 0 {
        WithoutMismatchEqual(a[..last], b[..last]);
      } else {
        NoSingleMismatch(a[..last], b[..last]);
      }
    }
  }

  lemma {:induction false} MismatchesOfPrefix<T>(a: seq<T>, b: seq<T>, n: nat)
    requires |a| <= n <= |b|
    ensures Mismatches(a, b) == Mismatches(a, b[..n])
  {
    if a != [] {
      MismatchesOfPrefix(a[..|a| - 1], b, n);
    }
  }

  lemma {:induction false} MismatchesAreSymmetric<T>(a: seq<T>, b: seq<T>)
    requires |a| == |b|
    ensures Mismatches(a, b) == Mismatches(b, a)
  {
    if a != [] {
      var last := |a| - 1;
      MismatchesOfPrefix(a[..last], b, last);
      MismatchesOfPrefix(b[..last], a, last);
      MismatchesAreSymmetric(a[..last], b[..last]);
    }
  }

  // ----- the score, said by positions

  lemma {:induction false} PositionsCanBeListed(positions: set<nat>, n: nat) returns (at: seq<nat>)
    requires forall i :: i in positions ==> i < n
    ensures ListsPositions(at, positions)
  {
    if n == 0 {
      at := [];
    } else {
      at := PositionsCanBeListed(positions - {n - 1}, n - 1);
      if n - 1 in positions {
        IncreasingLonger(at, n - 1);
        at := at + [n - 1];
      }
    }
  }

  lemma {:induction false} PicksExactly<T>(text: seq<T>, used: set<nat>, n: nat) returns (at: seq<nat>)
    requires n <= |text|
    ensures Increasing(at) && TakenAt(Picks(text, used, n), text, at)
    ensures forall i :: i in at <==> i in used && i < n
  {
    if n == 0 {
      at := [];
    } else {
      at := PicksExactly(text, used, n - 1);
      if n - 1 in used {
        IncreasingLonger(at, n - 1);
        at := at + [n - 1];
      }
    }
  }

  /** The places where two lists differ. */
  function DifferAt<T(==)>(a: seq<T>, b: seq<T>): set<nat> {
    set k: nat | k < |a| && k < |b| && a[k] != b[k]
  }

  lemma {:induction false} MismatchesExactly<T>(a: seq<T>, b: seq<T>)
    requires |a| <= |b|
    ensures Mismatches(a, b) == |DifferAt(a, b)|
  {
    if a == [] {
      assert DifferAt(a, b) == {};
    } else {
      var last := |a| - 1;
      MismatchesExactly(a[..last], b);
      assert DifferAt(a, b) == DifferAt(a[..last], b) + if a[last] == b[last] then {} else {last};
    }
  }

  /** The places at which two lists of positions show different characters. */
  function UnlikePlaces<T(==)>(left: seq<T>, right: seq<T>, ls: seq<nat>, rs: seq<nat>): set<nat>
    requires |ls| == |rs|
    requires (forall k :: 0 <= k < |ls| ==> ls[k] < |left|) && (forall k :: 0 <= k < |rs| ==> rs[k] < |right|)
  {
    set k: nat | k < |ls| && left[ls[k]] != right[rs[k]]
  }

  lemma PicksListed<T>(text: seq<T>, used: set<nat>, at: seq<nat>)
    requires ListsPositions(at, used) && forall i :: i in used ==> i < |text|
    ensures TakenAt(Picks(text, used, |text|), text, at)
  {
    var picked := PicksExactly(text, used, |text|);
    ListIsUnique(picked, at, used);
  }

  lemma UnlikeIsMismatched<T>(left: seq<T>, right: seq<T>, a: seq<T>, b: seq<T>, ls: seq<nat>, rs: seq<nat>)
    requires TakenAt(a, left, ls) && TakenAt(b, right, rs) && |a| == |b|
    ensures Mismatches(a, b) == |UnlikePlaces(left, right, ls, rs)|
  {
    MismatchesExactly(a, b);
    assert DifferAt(a, b) == UnlikePlaces(left, right, ls, rs);
  }

  lemma MatchedInText<T>(left: seq<T>, right: seq<T>, p: Pairing)
    requires IsMatching(left, right, p)
    ensures (forall i :: i in p.forth ==> i < |left|) && (forall j :: j in p.back ==> j < |right|)
  {
    forall j | j in p.back ensures j < |right| {
      assert Edge(left, right, p.back[j], j);
    }
  }

  lemma PairsByPositions<T>(left: seq<T>, right: seq<T>, p: Pairing, ls: seq<nat>, rs: seq<nat>)
    requires IsMatching(left, right, p)
    requires ListsPositions(ls, p.forth.Keys) && ListsPositions(rs, p.back.Keys)
    ensures TakenAt(PicksLeft(left, p), left, ls) && TakenAt(PicksRight(right, p), right, rs)
    ensures |ls| == |rs| == |p.forth.Keys|
    ensures Mismatches(PicksLeft(left, p), PicksRight(right, p)) == |UnlikePlaces(left, right, ls, rs)|
  {
    PicksCorrespond(left, right, p);
    MatchedInText(left, right, p);
    PicksListed(left, p.forth.Keys, ls);
    PicksListed(right, p.back.Keys, rs);
    UnlikeIsMismatched(left, right, PicksLeft(left, p), PicksRight(right, p), ls, rs);
  }

  /** Three times the score: m pairs, of which t show different characters. */
  function ThreeParts(m: nat, t: nat, n: nat, k: nat): real
    requires m > 0 && n > 0 && k > 0
  {
    m as real / n as real + m as real / k as real + (m - t / 2) as real / m as real
  }

  lemma MatchedTextsAreThere<T>(left: seq<T>, right: seq<T>, p: Pairing)
    requires IsMatching(left, right, p) && |p.forth.Keys| > 0
    ensures left != [] && right != []
  {
    var i :| i in p.forth;
    assert Edge(left, right, i, p.forth[i]);
  }

  lemma ScoreOfPairs<T>(left: seq<T>, right: seq<T>, p: Pairing)
    requires left != right && p == Pairs(left, right) && (|p.forth.Keys| > 0 ==> left != [] && right != [])
    ensures var m := |p.forth.Keys|;
            if m == 0 then Score(left, right) == 0.0
            else 3.0 * Score(left, right) ==
                 ThreeParts(m, Mismatches(PicksLeft(left, p), PicksRight(right, p)), |left|, |right|)
  {
  }

  lemma ScoreByPositions<T>(left: seq<T>, right: seq<T>, p: Pairing, ls: seq<nat>, rs: seq<nat>)
    requires left != right && p == Pairs(left, right) && IsMatching(left, right, p)
    requires ListsPositions(ls, p.forth.Keys) && ListsPositions(rs, p.back.Keys)
    ensures |ls| == |rs| && (ls != [] ==> left != [] && right != [])
    ensures (forall k :: 0 <= k < |ls| ==> ls[k] < |left|) && (forall k :: 0 <= k < |rs| ==> rs[k] < |right|)
    ensures if ls == [] then Score(left, right) == 0.0
            else 3.0 * Score(left, right) == ThreeParts(|ls|, |UnlikePlaces(left, right, ls, rs)|, |left|, |right|)
  {
    PairsByPositions(left, right, p, ls, rs);
    if ls != [] { MatchedTextsAreThere(left, right, p); }
    ScoreOfPairs(left, right, p);
  }

  /** The score of two different texts, read off any stable pairing: with the m
      matched positions of both sides listed in order, t is the number of places
      at which the lists show different characters, and every two of them count
      as one transposition. */
  lemma ScoreExactly<T>(left: seq<T>, right: seq<T>, p: Pairing, ls: seq<nat>, rs: seq<nat>)
    requires left != right && IsStable(left, right, p)
    requires ListsPositions(ls, p.forth.Keys) && ListsPositions(rs, p.back.Keys)
    ensures |ls| == |rs| && (ls != [] ==> left != [] && right != [])
    ensures (forall k :: 0 <= k < |ls| ==> ls[k] < |left|) && (forall k :: 0 <= k < |rs| ==> rs[k] < |right|)
    ensures ls == [] ==> Score(left, right) == 0.0
    ensures ls != [] ==>
              var m, t := |ls|, |UnlikePlaces(left, right, ls, rs)|;
              3.0 * Score(left, right) ==
              m as real / |left| as real + m as real / |right| as real + (m - t / 2) as real / m as real
  {
    StablePairingIsUnique(left, right, p);
    ScoreByPositions(left, right, p, ls, rs);
  }

  // ----- the score

  lemma SignOfProduct(x: real, w: real)
    requires w > 0.0
    ensures x < 0.0 ==> x * w < 0.0
  {
  }

  lemma QuotientOrder(x: real, y: real, w: real)
    requires w > 0.0 && x <= y
    ensures x / w <= y / w
  {
    SignOfProduct(y / w - x / w, w);
    assert (y / w - x / w) * w == (y / w) * w - (x / w) * w == y - x;
  }

  lemma FractionInUnit(part: nat, whole: nat)
    requires part <= whole && whole > 0
    ensures 0.0 <= part as real / whole as real <= 1.0
    ensures part as real / whole as real == 1.0 <==> part == whole
  {
    var p, w := part as real, whole as real;
    QuotientOrder(0.0, p, w);
    QuotientOrder(p, w, w);
    assert 0.0 / w == 0.0 && w / w == 1.0;
    if p / w == 1.0 {
      assert p == (p / w) * w == w;
    }
  }

  lemma AverageIsOneOnlyForFullMatch(matches: nat, kept: nat, n: nat, m: nat)
    requires 0 < matches <= n && matches <= m && kept <= matches
    ensures 0.0 <= Average(matches, kept, n, m) <= 1.0
    ensures Average(matches, kept, n, m) == 1.0 <==> kept == matches == n == m
  {
    FractionInUnit(matches, n);
    FractionInUnit(matches, m);
    FractionInUnit(kept, matches);
  }

  lemma AverageIsSymmetric(matches: nat, kept: int, n: nat, m: nat)
    requires matches > 0 && n > 0 && m > 0
    ensures Average(matches, kept, n, m) == Average(matches, kept, m, n)
  {
  }

  /** When every position is matched and at most one pair is out of order, the
      texts are the same. */
  lemma FullMatchIsEquality<T>(left: seq<T>, right: seq<T>)
    requires |Pairs(left, right).forth.Keys| == |left| == |right|
    requires Transpositions(left, right) == 0
    ensures left == right
  {
    var p := Pairs(left, right);
    PairsAreStable(left, right);
    PicksCorrespond(left, right, p);
    NoSingleMismatch(PicksLeft(left, Pairs(left, right)), PicksRight(right, Pairs(left, right)));
    AllPicked(left, p.forth.Keys, |left|);
    AllPicked(right, p.back.Keys, |right|);
    assert left == left[..|left|] && right == right[..|right|];
  }

  /** The score lies between 0 and 1 and is 1 only for equal texts. */
  lemma ScoreIsOneOnlyForEqualTexts<T>(left: seq<T>, right: seq<T>)
    ensures 0.0 <= Score(left, right) <= 1.0
    ensures Score(left, right) == 1.0 <==> left == right
  {
    var matches := |Pairs(left, right).forth.Keys|;
    if left != right && matches > 0 {
      PairsAreStable(left, right);
      PicksCorrespond(left, right, Pairs(left, right));
      AverageIsOneOnlyForFullMatch(matches, matches - Transpositions(left, right), |left|, |right|);
      if matches == |left| == |right| && Transpositions(left, right) == 0 {
        FullMatchIsEquality(left, right);
      }
    }
  }

  lemma CountsAreSymmetric<T>(left: seq<T>, right: seq<T>)
    ensures |Pairs(left, right).forth.Keys| == |Pairs(right, left).forth.Keys|
    ensures Transpositions(left, right) == Transpositions(right, left)
  {
    PairsAreStable(left, right);
    PairsAreSymmetric(left, right);
    PicksCorrespond(left, right, Pairs(left, right));
    MismatchesAreSymmetric(PicksLeft(left, Pairs(left, right)), PicksRight(right, Pairs(left, right)));
  }

  /** Which text is typed and which is the candidate makes no difference. */
  lemma ScoreIsSymmetric<T>(left: seq<T>, right: seq<T>)
    ensures Score(left, right) == Score(right, left)
  {
    CountsAreSymmetric(left, right);
    var matches := |Pairs(left, right).forth.Keys|;
    if matches > 0 && |left| > 0 && |right| > 0 {
      AverageIsSymmetric(matches, matches - Transpositions(left, right), |left|, |right|);
    }
  }

  /** The score of two different texts is read off a stable pairing, whose matched
      positions are listed on both sides. */
  ghost predicate ScoredBy<T>(left: seq<T>, right: seq<T>, score: real, p: Pairing, ls: seq<nat>, rs: seq<nat>) {
    && IsStable(left, right, p) && ListsPositions(ls, p.forth.Keys) && ListsPositions(rs, p.back.Keys)
    && |ls| == |rs| && (ls != [] ==> left != [] && right != [])
    && (forall k :: 0 <= k < |ls| ==> ls[k] < |left|) && (forall k :: 0 <= k < |rs| ==> rs[k] < |right|)
    && if ls == [] then score == 0.0
       else
         var m, t := |ls|, |UnlikePlaces(left, right, ls, rs)|;
         3.0 * score == m as real / |left| as real + m as real / |right| as real + (m - t / 2) as real / m as real
  }

  lemma ScoreIsReadOff<T>(left: seq<T>, right: seq<T>)
    requires left != right
    ensures exists p, ls, rs :: ScoredBy(left, right, Score(left, right), p, ls, rs)
  {
    var p := Pairs(left, right);
    PairsAreStable(left, right);
    MatchedInText(left, right, p);
    var ls := PositionsCanBeListed(p.forth.Keys, |left|);
    var rs := PositionsCanBeListed(p.back.Keys, |right|);
    ScoreExactly(left, right, p, ls, rs);
    assert ScoredBy(left, right, Score(left, right), p, ls, rs);
  }

  /** The score as the source computes it. */
  method Confidence<T(==)>(left: seq<T>, right: seq<T>) returns (score: real)
    ensures score == Score(left, right)
    ensures left == right ==> score == 1.0
    ensures left != right ==> exists p, ls, rs :: ScoredBy(left, right, score, p, ls, rs)
  {
    if left != right { ScoreIsReadOff(left, right); }
    if left == right { return 1.0; }
    if |left| == 0 || |right| == 0 { return 0.0; }
    var usedLeft, usedRight := MatchPositions(left, right);
    var matches := |usedLeft|;
    if matches == 0 { return 0.0; }
    var matchedLeft, matchedRight := Picks(left, usedLeft, |left|), Picks(right, usedRight, |right|);
    var transpositions := Mismatches(matchedLeft, matchedRight) / 2;
    score := Average(matches, matches - transpositions, |left|, |right|);
  }
}
