/**
 Maximal-marginal-relevance selection (`mmr_select`, crates/retrieval/src/fusion.rs),
 with scores and similarities as reals.
 */
module Mmr {
  import opened Wrappers
  import opened Filtering

  /** What selection reads of its candidates, by index. */
  datatype Pool = Pool(scores: seq<real>, similarity: (nat, nat) -> real, lambda: real) {
    function Size(): nat { |scores| }

    function ClampedLambda(): real {
      if lambda < 0.0 then 0.0 else if lambda > 1.0 then 1.0 else lambda
    }

    /** The largest similarity to anything picked so far, and at least 0. */
    function MaxSimilarity(i: nat, picked: seq<nat>): real {
      if picked == [] then 0.0
      else
        var before, here := MaxSimilarity(i, picked[..|picked| - 1]), similarity(i, picked[|picked| - 1]);
        if here > before then here else before
    }

    /** Score against penalty. */
    function Weighed(score: real, penalty: real): real {
      ClampedLambda() * score - (1.0 - ClampedLambda()) * penalty
    }

    function Objective(i: nat, picked: seq<nat>): real
      requires i < Size()
    {
      Weighed(scores[i], MaxSimilarity(i, picked))
    }

    ghost predicate Remaining(i: nat, picked: seq<nat>) {
      i < Size() && i !in picked
    }

    /** `w` is the first of the remaining candidates with the greatest objective. */
    ghost predicate FirstBest(w: nat, picked: seq<nat>) {
      && Remaining(w, picked)
      && forall i: nat :: Remaining(i, picked) ==>
           Objective(i, picked) < Objective(w, picked) || (Objective(i, picked) == Objective(w, picked) && w <= i)
    }

    ghost predicate BestAt(picks: seq<nat>, k: nat) {
      k < |picks| && FirstBest(picks[k], picks[..k])
    }

    /** Each pick is the first maximiser given the earlier picks. */
    ghost predicate Greedy(picks: seq<nat>) {
      forall k: nat :: k < |picks| ==> BestAt(picks, k)
    }
  }

  /** The penalty is the greatest similarity to a pick, floored at 0. */
  lemma {:induction false} MaxSimilarityIsGreatest(pool: Pool, i: nat, picked: seq<nat>)
    ensures var m := pool.MaxSimilarity(i, picked);
      && m >= 0.0
      && (forall p :: p in picked ==> pool.similarity(i, p) <= m)
      && (m == 0.0 || exists p :: p in picked && m == pool.similarity(i, p))
  {
    if picked != [] {
      MaxSimilarityIsGreatest(pool, i, picked[..|picked| - 1]);
      assert picked == picked[..|picked| - 1] + [picked[|picked| - 1]];
    }
  }

  /**
   The objective weighs score against the greatest similarity to a pick, the weight
   clamped to [0, 1]. More picks never raise it.
   */
  lemma ObjectiveWeighs(pool: Pool, i: nat, picked: seq<nat>)
    requires i < pool.Size()
    ensures 0.0 <= pool.lambda <= 1.0 ==>
      pool.Objective(i, picked) == pool.lambda * pool.scores[i] - (1.0 - pool.lambda) * pool.MaxSimilarity(i, picked)
    ensures pool.lambda >= 1.0 ==> pool.Objective(i, picked) == pool.scores[i]
    ensures pool.lambda <= 0.0 ==> pool.Objective(i, picked) == -pool.MaxSimilarity(i, picked)
  {
  }

  /** A greater penalty never helps, and below lambda 1 it hurts. */
  lemma PenaltyHurts(pool: Pool, i: nat, few: seq<nat>, many: seq<nat>)
    requires i < pool.Size() && pool.MaxSimilarity(i, few) <= pool.MaxSimilarity(i, many)
    ensures pool.Objective(i, many) <= pool.Objective(i, few)
    ensures pool.lambda < 1.0 && pool.MaxSimilarity(i, few) < pool.MaxSimilarity(i, many) ==>
      pool.Objective(i, many) < pool.Objective(i, few)
  {
    WeighedFalls(pool, pool.scores[i], pool.MaxSimilarity(i, few), pool.MaxSimilarity(i, many));
  }

  lemma WeighedFalls(pool: Pool, score: real, a: real, b: real)
    requires a <= b
    ensures pool.Weighed(score, b) <= pool.Weighed(score, a)
    ensures pool.lambda < 1.0 && a < b ==> pool.Weighed(score, b) < pool.Weighed(score, a)
  {
    var l := pool.ClampedLambda();
    ScaledGap(l, a, b);
    assert pool.Weighed(score, a) == l * score - a + l * a;
    assert pool.Weighed(score, b) == l * score - b + l * b;
  }

  /** Scaling down narrows a gap. */
  lemma ScaledGap(l: real, a: real, b: real)
    requires 0.0 <= l <= 1.0 && a <= b
    ensures l * b - l * a <= b - a
    ensures l < 1.0 && a < b ==> l * b - l * a < b - a
  {
    var w, d := 1.0 - l, b - a;
    NotNegative(w, d);
    assert l * d == l * b - l * a;
    assert w * d == d - l * d;
  }

  lemma NotNegative(w: real, d: real)
    requires w >= 0.0 && d >= 0.0
    ensures w * d >= 0.0
    ensures w > 0.0 && d > 0.0 ==> w * d > 0.0
  {
  }

  /** Each further pick can only lower what the others are worth. */
  lemma MorePicksNeverHelp(pool: Pool, i: nat, picked: seq<nat>, p: nat)
    requires i < pool.Size()
    ensures pool.Objective(i, picked + [p]) <= pool.Objective(i, picked)
  {
    assert (picked + [p])[..|picked|] == picked;
    PenaltyHurts(pool, i, picked, picked + [p]);
  }

  function Identity(n: nat): (r: seq<nat>)
    ensures |r| == n && forall i :: 0 <= i < n ==> r[i] == i
  {
    seq(n, i => i)
  }

  /** Indices below `n` that are not yet picked, ascending. */
  ghost predicate Unpicked(remaining: seq<nat>, n: nat, picked: seq<nat>) {
    && (forall j, k :: 0 <= j < k < |remaining| ==> remaining[j] < remaining[k])
    && (forall i: nat :: i in remaining <==> i < n && i !in picked)
  }

  lemma IdentityIsUnpicked(n: nat)
    ensures Unpicked(Identity(n), n, [])
  {
    forall i: nat ensures i in Identity(n) <==> i < n {
      assert i < n ==> Identity(n)[i] == i;
    }
  }

  method MmrSelect(pool: Pool, maxResults: nat) returns (selected: seq<nat>)
    ensures |selected| == Min(pool.Size(), maxResults)
    ensures pool.Greedy(selected)
    ensures NoRepeats(selected) && forall i :: i in selected ==> i < pool.Size()
  {
    selected := [];
    var remaining := Identity(pool.Size());
    IdentityIsUnpicked(pool.Size());
    while |selected| < maxResults && remaining != []
      invariant |selected| <= maxResults
      invariant |selected| + |remaining| == pool.Size()
      invariant Unpicked(remaining, pool.Size(), selected)
      invariant pool.Greedy(selected) && NoRepeats(selected)
      invariant forall i :: i in selected ==> i < pool.Size()
      decreases |remaining|
    {
      assert forall k :: 0 <= k < |remaining| ==> remaining[k] in remaining;
      var best := BestRemaining(pool, remaining, selected);
      var winner := remaining[best];
      FirstIsBest(pool, remaining, selected, best);
      RemoveKeepsUnpicked(remaining, pool.Size(), selected, best);
      GreedyExtends(pool, selected, winner);
      selected := selected + [winner];
      remaining := remaining[..best] + remaining[best + 1..];
    }
  }

  /** The scan over the remaining candidates: the position of the first greatest objective. */
  method BestRemaining(pool: Pool, remaining: seq<nat>, selected: seq<nat>) returns (best: nat)
    requires remaining != [] && forall k :: 0 <= k < |remaining| ==> remaining[k] < pool.Size()
    ensures best < |remaining|
    ensures forall k :: 0 <= k < best ==>
      pool.Objective(remaining[k], selected) < pool.Objective(remaining[best], selected)
    ensures forall k :: best <= k < |remaining| ==>
      pool.Objective(remaining[k], selected) <= pool.Objective(remaining[best], selected)
  {
    best := 0;
    for k := 1 to |remaining|
      invariant best < k
      invariant forall j :: 0 <= j < best ==>
        pool.Objective(remaining[j], selected) < pool.Objective(remaining[best], selected)
      invariant forall j :: best <= j < k ==>
        pool.Objective(remaining[j], selected) <= pool.Objective(remaining[best], selected)
    {
      if pool.Objective(remaining[k], selected) > pool.Objective(remaining[best], selected) {
        best := k;
      }
    }
  }

  lemma FirstIsBest(pool: Pool, remaining: seq<nat>, selected: seq<nat>, best: nat)
    requires best < |remaining| && Unpicked(remaining, pool.Size(), selected)
    requires forall k :: 0 <= k < |remaining| ==> remaining[k] < pool.Size()
    requires forall k :: 0 <= k < best ==>
      pool.Objective(remaining[k], selected) < pool.Objective(remaining[best], selected)
    requires forall k :: best <= k < |remaining| ==>
      pool.Objective(remaining[k], selected) <= pool.Objective(remaining[best], selected)
    ensures pool.FirstBest(remaining[best], selected)
  {
    assert remaining[best] in remaining;
    forall i: nat | pool.Remaining(i, selected)
      ensures pool.Objective(i, selected) < pool.Objective(remaining[best], selected)
           || (pool.Objective(i, selected) == pool.Objective(remaining[best], selected) && remaining[best] <= i)
    {
      assert i in remaining;
      var k :| 0 <= k < |remaining| && remaining[k] == i;
    }
  }

  lemma RemoveKeepsUnpicked(remaining: seq<nat>, n: nat, picked: seq<nat>, best: nat)
    requires Unpicked(remaining, n, picked) && best < |remaining|
    ensures Unpicked(remaining[..best] + remaining[best + 1..], n, picked + [remaining[best]])
    ensures remaining[best] !in picked && remaining[best] < n
  {
    assert remaining[best] in remaining;
    var left := remaining[..best] + remaining[best + 1..];
    assert forall i: nat :: i in picked + [remaining[best]] <==> i in picked || i == remaining[best];
    forall i: nat ensures i in left <==> i in remaining && i != remaining[best] {
      if i in remaining && i != remaining[best] {
        var k :| 0 <= k < |remaining| && remaining[k] == i;
        assert if k < best then left[k] == i else left[k - 1] == i;
      }
      if i in left {
        var k :| 0 <= k < |left| && left[k] == i;
        assert i == if k < best then remaining[k] else remaining[k + 1];
      }
    }
  }

  lemma GreedyExtends(pool: Pool, picks: seq<nat>, next: nat)
    requires pool.Greedy(picks) && pool.FirstBest(next, picks)
    ensures pool.Greedy(picks + [next])
  {
    var more := picks + [next];
    forall k: nat | k < |more| ensures pool.BestAt(more, k) {
      assert k < |picks| ==> pool.BestAt(picks, k);
      assert more[..k] == picks[..k];
      assert picks[..|picks|] == picks;
    }
  }

  lemma FirstBestIsUnique(pool: Pool, v: nat, w: nat, picked: seq<nat>)
    requires pool.FirstBest(v, picked) && pool.FirstBest(w, picked)
    ensures v == w
  {
  }

  lemma BestAtAgrees(pool: Pool, few: seq<nat>, many: seq<nat>, k: nat)
    requires pool.BestAt(few, k) && pool.BestAt(many, k) && few[..k] == many[..k]
    ensures few[k] == many[k]
  {
    FirstBestIsUnique(pool, few[k], many[k], few[..k]);
  }

  /** Greedy selection leaves no choice: a smaller limit selects a prefix of a larger one. */
  lemma {:induction false} GreedyIsPrefixStable(pool: Pool, few: seq<nat>, many: seq<nat>, upTo: nat)
    requires pool.Greedy(few) && pool.Greedy(many) && upTo <= |few| <= |many|
    ensures few[..upTo] == many[..upTo]
  {
    if upTo > 0 {
      var last := upTo - 1;
      GreedyIsPrefixStable(pool, few, many, last);
      BestAtAgrees(pool, few, many, last);
      assert few[..upTo] == few[..last] + [few[last]] && many[..upTo] == many[..last] + [many[last]];
    }
  }

  lemma PureRelevanceObjective(pool: Pool, i: nat, picked: seq<nat>)
    requires pool.lambda >= 1.0 && i < pool.Size()
    ensures pool.Objective(i, picked) == pool.scores[i]
  {
    assert pool.ClampedLambda() == 1.0;
  }

  /** With lambda at 0 or below each pick is one of the least similar to the picks before it. */
  lemma PureDiversityAvoidsLikeness(pool: Pool, picks: seq<nat>, k: nat, i: nat)
    requires pool.lambda <= 0.0 && pool.Greedy(picks) && k < |picks| && pool.Remaining(i, picks[..k])
    ensures pool.MaxSimilarity(picks[k], picks[..k]) <= pool.MaxSimilarity(i, picks[..k])
  {
    assert pool.BestAt(picks, k);
    ObjectiveWeighs(pool, picks[k], picks[..k]);
    ObjectiveWeighs(pool, i, picks[..k]);
  }

  ghost predicate Descending(scores: seq<real>) {
    forall i, j :: 0 <= i < j < |scores| ==> scores[i] >= scores[j]
  }

  lemma PureRelevanceTakesNext(pool: Pool, picked: seq<nat>, w: nat)
    requires pool.lambda >= 1.0 && pool.FirstBest(w, picked)
    requires Descending(pool.scores) && forall i: nat :: i in picked <==> i < |picked|
    ensures w == |picked|
  {
    var next := |picked|;
    if w > next {
      PureRelevanceObjective(pool, w, picked);
      PureRelevanceObjective(pool, next, picked);
      assert pool.Remaining(next, picked);
    }
  }

  lemma PureRelevanceAt(pool: Pool, picks: seq<nat>, k: nat)
    requires pool.BestAt(picks, k) && pool.lambda >= 1.0 && Descending(pool.scores)
    requires forall j :: 0 <= j < k ==> picks[j] == j
    ensures picks[k] == k
  {
    var before := picks[..k];
    forall i: nat ensures i in before <==> i < |before| {
      assert i < |before| ==> before[i] == i;
    }
    PureRelevanceTakesNext(pool, before, picks[k]);
  }

  /** With lambda at 1 or above, a list already in descending order is taken as it comes. */
  lemma {:induction false} PureRelevanceKeepsOrder(pool: Pool, picks: seq<nat>, upTo: nat)
    requires pool.Greedy(picks) && pool.lambda >= 1.0 && Descending(pool.scores) && upTo <= |picks|
    ensures forall k :: 0 <= k < upTo ==> picks[k] == k
  {
    if upTo > 0 {
      PureRelevanceKeepsOrder(pool, picks, upTo - 1);
      PureRelevanceAt(pool, picks, upTo - 1);
    }
  }

  /** With room for everyone, selection is a permutation of the candidates. */
  lemma FullSelectionIsPermutation(n: nat, picks: seq<nat>)
    requires |picks| == n && NoRepeats(picks) && forall i :: i in picks ==> i < n
    ensures multiset(picks) == multiset(Identity(n))
  {
    var all := Identity(n);
    forall i | i in picks ensures i in all {
      assert all[i] == i;
    }
    NoRepeatsWithin(picks, all);
    assert |multiset(all) - multiset(picks)| == |multiset(all)| - |multiset(picks)| == 0;
    assert multiset(all) == multiset(picks) + (multiset(all) - multiset(picks));
  }
}
