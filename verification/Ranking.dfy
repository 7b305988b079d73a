/** The ranking of suggestions: candidates scoring above a threshold, stably
    sorted by score. */
module Ranking {
  import opened Basics
  import opened Similarity

  /** The candidate positions below n that score above the threshold. */
  function Similar(scores: seq<real>, n: nat): (picked: seq<nat>)
    requires n <= |scores|
    ensures forall i :: i in picked <==> 0 <= i < n && scores[i] > 0.7
    ensures forall a, b :: 0 <= a < b < |picked| ==> picked[a] < picked[b]
  {
    if n == 0 then []
    else
      var before := Similar(scores, n - 1);
      assert forall a :: 0 <= a < |before| ==> before[a] in before;
      before + (if scores[n - 1] > 0.7 then [n - 1] else [])
  }

  function At(scores: seq<real>, x: nat): real {
    if x < |scores| then scores[x] else 0.0
  }

  /** Candidate x is listed before candidate y: by score, then by position. */
  predicate ListedBefore(scores: seq<real>, x: nat, y: nat) {
    At(scores, x) < At(scores, y) || (At(scores, x) == At(scores, y) && x < y)
  }

  ghost predicate Ranked(scores: seq<real>, s: seq<nat>) {
    forall a, b :: 0 <= a < b < |s| ==> ListedBefore(scores, s[a], s[b])
  }

  /** One step of a stable sort: x goes behind everything that scores no more. */
  function InsertByScore(scores: seq<real>, s: seq<nat>, x: nat): (r: seq<nat>)
    ensures forall y :: y in r <==> y in s || y == x
  {
    if s == [] || At(scores, s[|s| - 1]) <= At(scores, x) then s + [x]
    else InsertByScore(scores, s[..|s| - 1], x) + [s[|s| - 1]]
  }

  function SortByScore(scores: seq<real>, s: seq<nat>): (r: seq<nat>)
    ensures forall y :: y in r <==> y in s
  {
    if s == [] then [] else InsertByScore(scores, SortByScore(scores, s[..|s| - 1]), s[|s| - 1])
  }

  lemma {:induction false} InsertKeepsRanked(scores: seq<real>, s: seq<nat>, x: nat)
    requires Ranked(scores, s) && forall y :: y in s ==> y < x
    ensures Ranked(scores, InsertByScore(scores, s, x))
  {
    if s == [] || At(scores, s[|s| - 1]) <= At(scores, x) {
      forall a | 0 <= a < |s| ensures ListedBefore(scores, s[a], x) {
        assert s[a] in s;
        assert a < |s| - 1 ==> ListedBefore(scores, s[a], s[|s| - 1]);
      }
    } else {
      var init, last := s[..|s| - 1], s[|s| - 1];
      assert s == init + [last];
      assert forall y :: y in init ==> y in s;
      InsertKeepsRanked(scores, init, x);
      var r := InsertByScore(scores, init, x);
      forall a | 0 <= a < |r| ensures ListedBefore(scores, r[a], last) {
        assert r[a] in r;
        if r[a] in init {
          var b :| 0 <= b < |init| && init[b] == r[a];
          assert ListedBefore(scores, s[b], s[|s| - 1]);
        }
      }
    }
  }

  lemma {:induction false} SortRanks(scores: seq<real>, s: seq<nat>)
    requires forall a, b :: 0 <= a < b < |s| ==> s[a] < s[b]
    ensures Ranked(scores, SortByScore(scores, s))
  {
    if s != [] {
      var init := s[..|s| - 1];
      SortRanks(scores, init);
      InsertKeepsRanked(scores, SortByScore(scores, init), s[|s| - 1]);
    }
  }

  function Scores<T(==)>(value: seq<T>, candidates: seq<seq<T>>): (scores: seq<real>)
    ensures |scores| == |candidates|
    ensures forall i :: 0 <= i < |candidates| ==> scores[i] == Score(value, candidates[i])
  {
    seq(|candidates|, i requires 0 <= i < |candidates| => Score(value, candidates[i]))
  }

  /** The suggested candidates as positions, least similar first. */
  function Suggested(scores: seq<real>): (positions: seq<nat>)
    ensures forall a :: 0 <= a < |positions| ==> positions[a] < |scores|
  {
    var picked := Similar(scores, |scores|);
    var positions := SortByScore(scores, picked);
    assert forall a :: 0 <= a < |positions| ==> positions[a] in picked;
    positions
  }

  /** The candidates named by a list of positions. */
  function Named<T>(candidates: seq<seq<T>>, positions: seq<nat>): seq<seq<T>>
    requires forall a :: 0 <= a < |positions| ==> positions[a] < |candidates|
  {
    seq(|positions|, a requires 0 <= a < |positions| => candidates[positions[a]])
  }

  /** The ranking lists exactly the candidates above the threshold, each once,
      by increasing score and, for equal scores, in candidate order. */
  lemma RankingIsStableSort(scores: seq<real>)
    ensures forall i :: i in Suggested(scores) <==> 0 <= i < |scores| && scores[i] > 0.7
    ensures NoRepeats(Suggested(scores))
    ensures Ranked(scores, Suggested(scores))
  {
    SortRanks(scores, Similar(scores, |scores|));
    var r := Suggested(scores);
    forall a, b | 0 <= a < b < |r| ensures r[a] != r[b] {
      assert ListedBefore(scores, r[a], r[b]);
    }
  }

  /** The tip shown to the user, the last suggestion, exists exactly when some
      candidate scores above the threshold; it has the highest score, and is the
      last candidate with that score. */
  lemma LastSuggestionIsBest(scores: seq<real>)
    ensures var r := Suggested(scores);
            && (r != [] <==> exists i :: 0 <= i < |scores| && scores[i] > 0.7)
            && (r != [] ==> var best := r[|r| - 1];
                 forall i :: 0 <= i < |scores| && i != best ==> ListedBefore(scores, i, best))
  {
    RankingIsStableSort(scores);
    var r := Suggested(scores);
    if r != [] {
      var best := r[|r| - 1];
      assert best in r;
      forall i | 0 <= i < |scores| && i != best ensures ListedBefore(scores, i, best) {
        if scores[i] > 0.7 {
          assert i in r;
          var a :| 0 <= a < |r| && r[a] == i;
        }
      }
    }
  }

  // ----- the suggestions, said by scores

  lemma SuggestionsRank<T>(value: seq<T>, candidates: seq<seq<T>>)
    ensures var positions := Suggested(Scores(value, candidates));
            Ranks(value, candidates, Named(candidates, positions), positions)
  {
    var scores := Scores(value, candidates);
    var positions := Suggested(scores);
    RankingIsStableSort(scores);
    forall a, b | 0 <= a < b < |positions|
      ensures var x, y := Score(value, candidates[positions[a]]), Score(value, candidates[positions[b]]);
              x < y || (x == y && positions[a] < positions[b])
    {
      assert ListedBefore(scores, positions[a], positions[b]);
    }
  }

  lemma LastPositionIsBest<T>(value: seq<T>, candidates: seq<seq<T>>, suggestions: seq<seq<T>>, positions: seq<nat>, i: nat)
    requires Ranks(value, candidates, suggestions, positions) && positions != [] && i < |candidates|
    ensures var best := positions[|positions| - 1];
            && best < |candidates| && Score(value, candidates[best]) > 0.7
            && Score(value, candidates[i]) <= Score(value, candidates[best])
            && (i > best ==> Score(value, candidates[i]) < Score(value, candidates[best]))
  {
    var last := |positions| - 1;
    var best := positions[last];
    assert best in positions;
    if Score(value, candidates[i]) > 0.7 {
      assert i in positions;
      var a :| 0 <= a < |positions| && positions[a] == i;
      assert a < last || i == best;
    }
  }

  lemma LastPositionIsTheBest<T>(value: seq<T>, candidates: seq<seq<T>>, suggestions: seq<seq<T>>, positions: seq<nat>)
    requires Ranks(value, candidates, suggestions, positions) && positions != []
    ensures IsBest(value, candidates, positions[|positions| - 1])
  {
    var best := positions[|positions| - 1];
    forall i | 0 <= i < |candidates|
      ensures Score(value, candidates[i]) <= Score(value, candidates[best])
      ensures i > best ==> Score(value, candidates[i]) < Score(value, candidates[best])
    {
      LastPositionIsBest(value, candidates, suggestions, positions, i);
    }
  }

  lemma NoPositionNoSimilar<T>(value: seq<T>, candidates: seq<seq<T>>, suggestions: seq<seq<T>>)
    requires Ranks(value, candidates, suggestions, [])
    ensures NoneIsSimilar(value, candidates)
  {
  }

  lemma RankingEndsWithBest<T>(value: seq<T>, candidates: seq<seq<T>>, suggestions: seq<seq<T>>, positions: seq<nat>)
    requires Ranks(value, candidates, suggestions, positions)
    ensures if suggestions == [] then NoneIsSimilar(value, candidates) else LastIsBest(value, candidates, suggestions)
  {
    if suggestions == [] {
      assert positions == [];
      NoPositionNoSimilar(value, candidates, suggestions);
    } else {
      var best := positions[|positions| - 1];
      LastPositionIsTheBest(value, candidates, suggestions, positions);
      LastPositionIsBest(value, candidates, suggestions, positions, best);
    }
  }

  /** Suggestions are the candidates at these positions: exactly those that score
      above the threshold, by score, and by position where scores are equal. */
  ghost predicate Ranks<T>(value: seq<T>, candidates: seq<seq<T>>, suggestions: seq<seq<T>>, positions: seq<nat>) {
    && TakenAt(suggestions, candidates, positions)
    && (forall i :: i in positions <==> 0 <= i < |candidates| && Score(value, candidates[i]) > 0.7)
    && (forall a, b :: 0 <= a < b < |positions| ==>
          var x, y := Score(value, candidates[positions[a]]), Score(value, candidates[positions[b]]);
          x < y || (x == y && positions[a] < positions[b]))
  }

  /** The candidate at a position is the best: no other scores more, and no later
      one as much. */
  ghost predicate IsBest<T>(value: seq<T>, candidates: seq<seq<T>>, best: nat) {
    && best < |candidates|
    && (forall i :: 0 <= i < |candidates| ==> Score(value, candidates[i]) <= Score(value, candidates[best]))
    && (forall i :: best < i < |candidates| ==> Score(value, candidates[i]) < Score(value, candidates[best]))
  }

  ghost predicate NoneIsSimilar<T>(value: seq<T>, candidates: seq<seq<T>>) {
    forall i :: 0 <= i < |candidates| ==> Score(value, candidates[i]) <= 0.7
  }

  ghost predicate LastIsBest<T>(value: seq<T>, candidates: seq<seq<T>>, suggestions: seq<seq<T>>)
    requires suggestions != []
  {
    exists best: nat :: IsBest(value, candidates, best) && Score(value, candidates[best]) > 0.7
                   && suggestions[|suggestions| - 1] == candidates[best]
  }

  /** The suggestions, of which the runner shows the last. */
  method SimilarValues<T(==)>(value: seq<T>, candidates: seq<seq<T>>) returns (suggestions: seq<seq<T>>)
    ensures suggestions == Named(candidates, Suggested(Scores(value, candidates)))
    ensures exists positions :: Ranks(value, candidates, suggestions, positions)
    ensures if suggestions == [] then NoneIsSimilar(value, candidates) else LastIsBest(value, candidates, suggestions)
  {
    var scores: seq<real> := [];
    for i := 0 to |candidates|
      invariant |scores| == i
      invariant forall k :: 0 <= k < i ==> scores[k] == Score(value, candidates[k])
    {
      var score := Confidence(value, candidates[i]);
      scores := scores + [score];
    }
    assert scores == Scores(value, candidates);
    suggestions := Named(candidates, Suggested(scores));
    SuggestionsRank(value, candidates);
    RankingEndsWithBest(value, candidates, suggestions, Suggested(scores));
  }
}
