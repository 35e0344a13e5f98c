/**
 Weighted reciprocal rank fusion (crates/retrieval/src/fusion.rs), with scores as
 reals: contributions accumulated in a hash map, then sorted and truncated.
 */
module RankFusion {
  import opened Filtering
  import opened Sorting
  import opened Scopes

  datatype Candidate = Candidate(skillId: string, scope: ScopeType, score: real, semantic: real, lexical: real)

  datatype ScopeRanking = ScopeRanking(weight: real, candidates: seq<Candidate>)

  datatype Aggregate = Aggregate(score: real, representative: Candidate)

  function Priority(scope: ScopeType): nat {
    match scope case Project => 3 case Global => 2 case Team => 1
  }

  const DEFAULT_K := 60.0

  function EffectiveK(k: real): (r: real)
    ensures r > 0.0
  {
    if k > 0.0 then k else DEFAULT_K
  }

  // ---- The direct definition ----

  /** One occurrence of a candidate and what it contributes. */
  datatype Entry = Entry(candidate: Candidate, contribution: real)

  function Contribution(weight: real, k: real, rank: nat): real
    requires k > 0.0
  {
    weight / (k + (rank as real + 1.0))
  }

  function EntriesOf(ranking: ScopeRanking, k: real, upTo: nat): (r: seq<Entry>)
    requires k > 0.0 && upTo <= |ranking.candidates|
    ensures |r| == upTo
  {
    if upTo == 0 then []
    else EntriesOf(ranking, k, upTo - 1)
           + [Entry(ranking.candidates[upTo - 1], Contribution(ranking.weight, k, upTo - 1))]
  }

  /** A ranking with no positive weight contributes nothing. */
  function Contributions(ranking: ScopeRanking, k: real): seq<Entry>
    requires k > 0.0
  {
    if ranking.weight <= 0.0 then [] else EntriesOf(ranking, k, |ranking.candidates|)
  }

  /** All occurrences, scope by scope and rank by rank. */
  function Entries(rankings: seq<ScopeRanking>, k: real): seq<Entry>
    requires k > 0.0
  {
    if rankings == [] then []
    else Entries(rankings[..|rankings| - 1], k) + Contributions(rankings[|rankings| - 1], k)
  }

  /** What occurrence `e` adds to the score of `id`. */
  function Share(e: Entry, id: string): real {
    if e.candidate.skillId == id then e.contribution else 0.0
  }

  /** The fused score of an id: the sum over its occurrences. */
  function FusedScore(entries: seq<Entry>, id: string): real {
    if entries == [] then 0.0
    else FusedScore(entries[..|entries| - 1], id) + Share(entries[|entries| - 1], id)
  }

  function Total(entries: seq<Entry>): real {
    if entries == [] then 0.0 else Total(entries[..|entries| - 1]) + entries[|entries| - 1].contribution
  }

  ghost predicate Occurs(entries: seq<Entry>, id: string) {
    exists e :: e in entries && e.candidate.skillId == id
  }

  /** `a` would replace `b` as representative. */
  predicate Replaces(a: Candidate, b: Candidate) {
    a.score > b.score || (a.score == b.score && Priority(a.scope) > Priority(b.scope))
  }

  /** A representative occurs under its id and no occurrence would replace it. */
  ghost predicate Represents(entries: seq<Entry>, id: string, c: Candidate) {
    && (exists e :: e in entries && e.candidate == c && c.skillId == id)
    && forall e :: e in entries && e.candidate.skillId == id ==> !Replaces(e.candidate, c)
  }

  ghost predicate AggregatedAt(aggregated: map<string, Aggregate>, entries: seq<Entry>, id: string) {
    if id in aggregated
    then aggregated[id].score == FusedScore(entries, id) && Represents(entries, id, aggregated[id].representative)
    else !Occurs(entries, id)
  }

  ghost predicate Aggregated(aggregated: map<string, Aggregate>, entries: seq<Entry>) {
    forall id :: AggregatedAt(aggregated, entries, id)
  }

  // ---- What the definition means ----

  /** An occurrence gains weight over k plus its place counted from 1: the earlier, the more. */
  lemma EarlierRankGainsMore(weight: real, k: real, rank: nat, later: nat)
    requires k > 0.0 && weight > 0.0 && rank < later
    ensures Contribution(weight, k, rank) * (k + rank as real + 1.0) == weight
    ensures Contribution(weight, k, rank) > Contribution(weight, k, later) > 0.0
  {
    SmallerQuotient(weight, k + rank as real + 1.0, k + later as real + 1.0);
  }

  lemma SmallerQuotient(w: real, a: real, b: real)
    requires w > 0.0 && 0.0 < a < b
    ensures (w / a) * a == w && w / a > w / b > 0.0
  {
    var x, y := w / a, w / b;
    assert x * a == w && y * b == w;
    SignOfProduct(x, a);
    SignOfProduct(y, b);
    SignOfProduct(b - a, x);
    assert (b - a) * x == x * b - x * a;
    SignOfProduct(x - y, b);
    assert (x - y) * b == x * b - y * b;
  }

  /** A positive factor keeps the sign of the other. */
  lemma SignOfProduct(d: real, b: real)
    requires b > 0.0
    ensures d > 0.0 <==> d * b > 0.0
  {
  }

  /** The representative has the best score of its id's occurrences and, among those, the widest claim: project, global, team. */
  lemma RepresentativeIsBest(entries: seq<Entry>, id: string, c: Candidate, e: Entry)
    requires Represents(entries, id, c) && e in entries && e.candidate.skillId == id
    ensures e.candidate.score <= c.score
    ensures e.candidate.score == c.score && c.scope == Team ==> e.candidate.scope == Team
    ensures e.candidate.score == c.score && c.scope == Global ==> e.candidate.scope != Project
  {
    assert !Replaces(e.candidate, c);
  }

  /** What decides between two fused candidates, first to last. */
  lemma OrderPrefers(a: Candidate, b: Candidate)
    ensures a.score > b.score ==> NoLater(a, b) && !NoLater(b, a)
    ensures a.score == b.score && ((a.scope == Project && b.scope != Project) || (a.scope == Global && b.scope == Team)) ==>
      NoLater(a, b) && !NoLater(b, a)
    ensures a.score == b.score && a.scope == b.scope && a.semantic > b.semantic ==> NoLater(a, b) && !NoLater(b, a)
    ensures a.score == b.score && a.scope == b.scope && a.semantic == b.semantic ==>
      (NoLater(a, b) <==> a.lexical >= b.lexical)
  {
  }

  // ---- The accumulation ----

  lemma FusedScoreAppend(entries: seq<Entry>, e: Entry, id: string)
    ensures FusedScore(entries + [e], id) == FusedScore(entries, id) + Share(e, id)
  {
    assert (entries + [e])[..|entries|] == entries;
  }

  lemma {:induction false} AbsentScoresNothing(entries: seq<Entry>, id: string)
    requires !Occurs(entries, id)
    ensures FusedScore(entries, id) == 0.0
  {
    if entries != [] {
      var init, last := entries[..|entries| - 1], entries[|entries| - 1];
      assert last in entries && forall e :: e in init ==> e in entries;
      AbsentScoresNothing(init, id);
    }
  }

  function Upsert(aggregated: map<string, Aggregate>, c: Candidate, contribution: real): map<string, Aggregate> {
    if c.skillId in aggregated then
      var a := aggregated[c.skillId];
      aggregated[c.skillId := Aggregate(a.score + contribution, if Replaces(c, a.representative) then c else a.representative)]
    else aggregated[c.skillId := Aggregate(contribution, c)]
  }

  lemma UpsertAggregates(aggregated: map<string, Aggregate>, entries: seq<Entry>, e: Entry)
    requires Aggregated(aggregated, entries)
    ensures Aggregated(Upsert(aggregated, e.candidate, e.contribution), entries + [e])
  {
    var after := Upsert(aggregated, e.candidate, e.contribution);
    forall id ensures AggregatedAt(after, entries + [e], id) {
      assert AggregatedAt(aggregated, entries, id);
      FusedScoreAppend(entries, e, id);
      assert e in entries + [e];
      assert forall o :: o in entries + [e] <==> o in entries || o == e;
      if id !in aggregated {
        AbsentScoresNothing(entries, id);
        assert forall o :: o in entries ==> o.candidate.skillId != id;
      }
    }
  }

  /** `accumulate_scope_ranking` */
  method AccumulateScopeRanking(aggregated: map<string, Aggregate>, ranking: ScopeRanking, k: real,
                                ghost entries: seq<Entry>) returns (after: map<string, Aggregate>)
    requires k > 0.0 && Aggregated(aggregated, entries)
    ensures Aggregated(after, entries + Contributions(ranking, k))
  {
    after := aggregated;
    if ranking.weight <= 0.0 {
      assert entries + [] == entries;
      return;
    }
    assert entries + EntriesOf(ranking, k, 0) == entries;
    for rank := 0 to |ranking.candidates|
      invariant Aggregated(after, entries + EntriesOf(ranking, k, rank))
    {
      var candidate, contribution := ranking.candidates[rank], Contribution(ranking.weight, k, rank);
      UpsertAggregates(after, entries + EntriesOf(ranking, k, rank), Entry(candidate, contribution));
      assert entries + EntriesOf(ranking, k, rank + 1)
          == entries + EntriesOf(ranking, k, rank) + [Entry(candidate, contribution)];
      after := Upsert(after, candidate, contribution);
    }
  }

  // ---- Ordering ----

  /** `fused_candidate_order`: does `a` come no later than `b`? */
  predicate NoLater(a: Candidate, b: Candidate) {
    if a.score != b.score then a.score > b.score
    else if Priority(a.scope) != Priority(b.scope) then Priority(a.scope) > Priority(b.scope)
    else if a.semantic != b.semantic then a.semantic > b.semantic
    else a.lexical >= b.lexical
  }

  function FusedOrder(): (Candidate, Candidate) -> bool {
    (a: Candidate, b: Candidate) => NoLater(a, b)
  }

  lemma FusedOrderIsPreorder()
    ensures TotalPreorder(FusedOrder())
  {
  }

  /** The representative carrying the fused score. */
  function Finalized(a: Aggregate): Candidate {
    a.representative.(score := a.score)
  }

  ghost predicate DistinctIds(candidates: seq<Candidate>) {
    forall i, j :: 0 <= i < j < |candidates| ==> candidates[i].skillId != candidates[j].skillId
  }

  /** The fused list before sorting: one finalized candidate per id. */
  ghost predicate FusedList(fused: seq<Candidate>, aggregated: map<string, Aggregate>, entries: seq<Entry>) {
    && Aggregated(aggregated, entries)
    && (forall c :: c in fused <==> c.skillId in aggregated && c == Finalized(aggregated[c.skillId]))
    && (forall id :: id in aggregated ==> Finalized(aggregated[id]) in fused)
    && DistinctIds(fused)
  }

  /**
   The direct definition of the fused list: one candidate per occurring id, scored by
   the sum over that id's occurrences, standing for an occurrence nothing replaces.
   */
  ghost predicate FusesDirectly(fused: seq<Candidate>, entries: seq<Entry>) {
    && DistinctIds(fused)
    && (forall e :: e in entries ==> exists c :: c in fused && c.skillId == e.candidate.skillId)
    && forall c :: c in fused ==>
         && c.score == FusedScore(entries, c.skillId)
         && exists original :: Represents(entries, c.skillId, original) && c == original.(score := c.score)
  }

  lemma FusedListIsDirect(fused: seq<Candidate>, aggregated: map<string, Aggregate>, entries: seq<Entry>)
    requires FusedList(fused, aggregated, entries)
    ensures FusesDirectly(fused, entries)
  {
    forall e | e in entries ensures exists c :: c in fused && c.skillId == e.candidate.skillId {
      var id := e.candidate.skillId;
      assert AggregatedAt(aggregated, entries, id);
      assert Occurs(entries, id);
      assert Finalized(aggregated[id]) in fused;
    }
    forall c | c in fused
      ensures c.score == FusedScore(entries, c.skillId)
      ensures exists original :: Represents(entries, c.skillId, original) && c == original.(score := c.score)
    {
      assert AggregatedAt(aggregated, entries, c.skillId);
      assert c == aggregated[c.skillId].representative.(score := c.score);
    }
  }

  /** `finalize_aggregates`: the map's values in whatever order it yields them. */
  method FinalizeAggregates(aggregated: map<string, Aggregate>, ghost entries: seq<Entry>) returns (fused: seq<Candidate>)
    requires Aggregated(aggregated, entries)
    ensures FusedList(fused, aggregated, entries)
  {
    fused := [];
    var left := aggregated.Keys;
    while left != {}
      invariant left <= aggregated.Keys
      invariant forall c :: c in fused <==>
        c.skillId in aggregated && c.skillId !in left && c == Finalized(aggregated[c.skillId])
      invariant forall id :: id in aggregated && id !in left ==> Finalized(aggregated[id]) in fused
      invariant forall i, j :: 0 <= i < j < |fused| ==> fused[i].skillId != fused[j].skillId
      decreases left
    {
      var id :| id in left;
      assert AggregatedAt(aggregated, entries, id);
      var c := Finalized(aggregated[id]);
      assert c.skillId == id;
      ghost var earlier := fused;
      fused := fused + [c];
      left := left - {id};
      assert forall d :: d in fused <==> d in earlier || d == c;
    }
    forall id | id in aggregated ensures Finalized(aggregated[id]) in fused {
      assert AggregatedAt(aggregated, entries, id);
    }
  }

  /** The result is the head of the fused list in order; nothing left out comes strictly earlier. */
  ghost predicate TopOf(result: seq<Candidate>, fused: seq<Candidate>, maxResults: nat) {
    && |result| == (if |fused| < maxResults then |fused| else maxResults)
    && multiset(result) <= multiset(fused)
    && Sorted(FusedOrder(), result)
    && (forall c, d :: c in result && d in multiset(fused) - multiset(result) ==> NoLater(c, d))
  }

  /** The map-accumulated result is the top of the list the direct definition gives. */
  method WeightedReciprocalRankFusion(rankings: seq<ScopeRanking>, k: real, maxResults: nat)
    returns (result: seq<Candidate>)
    ensures exists fused, aggregated ::
      && FusedList(fused, aggregated, Entries(rankings, EffectiveK(k)))
      && FusesDirectly(fused, Entries(rankings, EffectiveK(k)))
      && result == Truncate(Sort(FusedOrder(), fused), maxResults)
      && TopOf(result, fused, maxResults)
  {
    var rrfK := EffectiveK(k);
    var accumulated: map<string, Aggregate> := map[];
    for i := 0 to |rankings|
      invariant Aggregated(accumulated, Entries(rankings[..i], rrfK))
    {
      accumulated := AccumulateScopeRanking(accumulated, rankings[i], rrfK, Entries(rankings[..i], rrfK));
      assert rankings[..i + 1][..i] == rankings[..i];
    }
    assert rankings[..|rankings|] == rankings;
    var list := FinalizeAggregates(accumulated, Entries(rankings, rrfK));
    FusedListIsDirect(list, accumulated, Entries(rankings, rrfK));
    FusedOrderIsPreorder();
    SortSorts(FusedOrder(), list);
    var sorted := Sort(FusedOrder(), list);
    HeadIsTop(list, sorted, maxResults);
    result := Truncate(sorted, maxResults);
  }

  // ---- One scope alone ----

  ghost predicate DistinctEntries(entries: seq<Entry>) {
    forall i, j :: 0 <= i < j < |entries| ==> entries[i].candidate.skillId != entries[j].candidate.skillId
  }

  /** Each occurrence as a candidate carrying its own contribution. */
  function Rescored(entries: seq<Entry>): (r: seq<Candidate>)
    ensures |r| == |entries|
    ensures forall i :: 0 <= i < |r| ==> r[i] == entries[i].candidate.(score := entries[i].contribution)
  {
    seq(|entries|, i requires 0 <= i < |entries| => entries[i].candidate.(score := entries[i].contribution))
  }

  lemma {:induction false} ScoreOfAbsent(entries: seq<Entry>, id: string)
    requires !Occurs(entries, id)
    ensures FusedScore(entries, id) == 0.0
  {
    if entries != [] {
      assert entries[|entries| - 1] in entries;
      assert forall e :: e in entries[..|entries| - 1] ==> e in entries;
      ScoreOfAbsent(entries[..|entries| - 1], id);
    }
  }

  lemma {:induction false} ScoreOfDistinct(entries: seq<Entry>, i: nat)
    requires DistinctEntries(entries) && i < |entries|
    ensures FusedScore(entries, entries[i].candidate.skillId) == entries[i].contribution
  {
    var init, id := entries[..|entries| - 1], entries[i].candidate.skillId;
    if i == |entries| - 1 {
      forall e | e in init ensures e.candidate.skillId != id {
        var j :| 0 <= j < |init| && init[j] == e;
      }
      ScoreOfAbsent(init, id);
    } else {
      ScoreOfDistinct(init, i);
    }
  }

  /** A candidate fused from distinct occurrences is one of them, rescored. */
  lemma FusedIsAt(fused: seq<Candidate>, entries: seq<Entry>, c: Candidate) returns (i: nat)
    requires FusesDirectly(fused, entries) && DistinctEntries(entries) && c in fused
    ensures i < |entries| && Rescored(entries)[i] == c
  {
    var original :| Represents(entries, c.skillId, original) && c == original.(score := c.score);
    var e :| e in entries && e.candidate == original && original.skillId == c.skillId;
    i :| 0 <= i < |entries| && entries[i] == e;
    ScoreOfDistinct(entries, i);
  }

  lemma FusedHolds(fused: seq<Candidate>, entries: seq<Entry>, i: nat)
    requires FusesDirectly(fused, entries) && DistinctEntries(entries) && i < |entries|
    ensures Rescored(entries)[i] in fused
  {
    assert entries[i] in entries;
    var d :| d in fused && d.skillId == entries[i].candidate.skillId;
    var j := FusedIsAt(fused, entries, d);
    assert entries[j].candidate.skillId == entries[i].candidate.skillId;
  }

  lemma FusedIsRescored(fused: seq<Candidate>, entries: seq<Entry>)
    requires FusesDirectly(fused, entries) && DistinctEntries(entries)
    ensures multiset(fused) == multiset(Rescored(entries))
  {
    var alone := Rescored(entries);
    forall c | c in fused ensures c in alone {
      var i := FusedIsAt(fused, entries, c);
    }
    forall c | c in alone ensures c in fused {
      var i :| 0 <= i < |alone| && alone[i] == c;
      FusedHolds(fused, entries, i);
    }
    assert NoRepeats(fused) && NoRepeats(alone);
    NoRepeatsWithin(fused, alone);
    NoRepeatsWithin(alone, fused);
  }

  /** Distinct occurrences that gain less and less come out in their order. */
  lemma DescendingKeepsOrder(fused: seq<Candidate>, entries: seq<Entry>)
    requires FusesDirectly(fused, entries) && DistinctEntries(entries)
    requires forall i, j :: 0 <= i < j < |entries| ==> entries[i].contribution > entries[j].contribution
    ensures Sort(FusedOrder(), fused) == Rescored(entries)
  {
    var alone := Rescored(entries);
    FusedIsRescored(fused, entries);
    FusedOrderIsPreorder();
    DescendingDoesNotTie(alone);
    SortForgetsOrder(FusedOrder(), alone, fused);
    SortOfSorted(FusedOrder(), alone);
  }

  lemma DescendingDoesNotTie(alone: seq<Candidate>)
    requires forall i, j :: 0 <= i < j < |alone| ==> alone[i].score > alone[j].score
    ensures NoTies(FusedOrder(), alone) && Sorted(FusedOrder(), alone)
  {
    forall x, y | x in alone && y in alone && FusedOrder()(x, y) && FusedOrder()(y, x) ensures x == y {
      var i :| 0 <= i < |alone| && alone[i] == x;
      var j :| 0 <= j < |alone| && alone[j] == y;
      assert x.score == y.score;
    }
  }

  lemma NothingFused(fused: seq<Candidate>)
    requires FusesDirectly(fused, [])
    ensures fused == []
  {
    if fused != [] {
      var c := fused[0];
      assert c in fused;
      var original :| Represents([], c.skillId, original) && c == original.(score := c.score);
    }
  }

  lemma {:induction false} EntriesAt(ranking: ScopeRanking, k: real, upTo: nat, i: nat)
    requires k > 0.0 && i < upTo <= |ranking.candidates|
    ensures EntriesOf(ranking, k, upTo)[i] == Entry(ranking.candidates[i], Contribution(ranking.weight, k, i))
  {
    if i < upTo - 1 {
      EntriesAt(ranking, k, upTo - 1, i);
    }
  }

  lemma EntriesOfOne(ranking: ScopeRanking, k: real)
    requires k > 0.0
    ensures Entries([ranking], k) == Contributions(ranking, k)
  {
    assert [ranking][..0] == [] && Entries([], k) == [];
  }

  /** The score is the weight over k plus the place counted from 1. */
  predicate IsShare(score: real, weight: real, k: real, rank: nat) {
    score * (k + rank as real + 1.0) == weight
  }

  /** What the occurrences of one scope with positive weight are. */
  lemma EntriesDescend(ranking: ScopeRanking, k: real, entries: seq<Entry>)
    requires k > 0.0 && ranking.weight > 0.0 && DistinctIds(ranking.candidates)
    requires entries == EntriesOf(ranking, k, |ranking.candidates|)
    ensures DistinctEntries(entries)
    ensures forall i, j :: 0 <= i < j < |entries| ==> entries[i].contribution > entries[j].contribution
    ensures forall i :: 0 <= i < |entries| ==>
      entries[i].candidate == ranking.candidates[i] && IsShare(entries[i].contribution, ranking.weight, k, i)
  {
    forall i | 0 <= i < |entries|
      ensures entries[i].candidate == ranking.candidates[i]
      ensures IsShare(entries[i].contribution, ranking.weight, k, i)
    {
      EntriesAt(ranking, k, |entries|, i);
      EarlierRankGainsMore(ranking.weight, k, i, i + 1);
    }
    forall i, j | 0 <= i < j < |entries| ensures entries[i].contribution > entries[j].contribution {
      EntriesAt(ranking, k, |entries|, i);
      EntriesAt(ranking, k, |entries|, j);
      EarlierRankGainsMore(ranking.weight, k, i, j);
    }
  }

  /** The i-th candidate of the scope comes i-th with its share. */
  predicate KeepsOrder(sorted: seq<Candidate>, ranking: ScopeRanking, k: real) {
    && |sorted| == |ranking.candidates|
    && forall i :: 0 <= i < |sorted| ==>
         sorted[i].skillId == ranking.candidates[i].skillId && IsShare(sorted[i].score, ranking.weight, k, i)
  }

  lemma RescoredKeepsOrder(ranking: ScopeRanking, k: real, entries: seq<Entry>)
    requires |entries| == |ranking.candidates|
    requires forall i :: 0 <= i < |entries| ==>
      entries[i].candidate == ranking.candidates[i] && IsShare(entries[i].contribution, ranking.weight, k, i)
    ensures KeepsOrder(Rescored(entries), ranking, k)
  {
    var alone := Rescored(entries);
    forall i | 0 <= i < |alone|
      ensures alone[i].skillId == ranking.candidates[i].skillId && IsShare(alone[i].score, ranking.weight, k, i)
    {
      assert alone[i].score == entries[i].contribution;
    }
  }

  lemma AloneKeepsOrder(ranking: ScopeRanking, k: real, fused: seq<Candidate>)
    requires k > 0.0 && ranking.weight > 0.0 && DistinctIds(ranking.candidates)
    requires FusesDirectly(fused, Contributions(ranking, k))
    ensures KeepsOrder(Sort(FusedOrder(), fused), ranking, k)
  {
    var entries := EntriesOf(ranking, k, |ranking.candidates|);
    EntriesDescend(ranking, k, entries);
    DescendingKeepsOrder(fused, entries);
    RescoredKeepsOrder(ranking, k, entries);
  }

  /**
   One scope fused alone keeps its own order: whatever scores its candidates came with, the
   i-th of them comes out i-th with the scope's weight over k plus i plus one, where 60
   stands for a k that is not positive. A scope without positive weight yields nothing.
   */
  lemma SingleScopeKeepsOrder(ranking: ScopeRanking, k: real, rankings: seq<ScopeRanking>, fused: seq<Candidate>)
    requires rankings == [ranking] && DistinctIds(ranking.candidates)
    requires FusesDirectly(fused, Entries(rankings, EffectiveK(k)))
    ensures var sorted := Sort(FusedOrder(), fused);
      if ranking.weight <= 0.0 then sorted == [] else KeepsOrder(sorted, ranking, if k > 0.0 then k else 60.0)
  {
    var rrfK := EffectiveK(k);
    assert rrfK == if k > 0.0 then k else 60.0;
    EntriesOfOne(ranking, rrfK);
    var entries := Contributions(ranking, rrfK);
    assert Entries(rankings, rrfK) == entries;
    assert FusesDirectly(fused, entries);
    if ranking.weight <= 0.0 {
      assert entries == [];
      NothingFused(fused);
    } else {
      AloneKeepsOrder(ranking, rrfK, fused);
    }
  }

  lemma HeadBeforeTail(head: seq<Candidate>, tail: seq<Candidate>, c: Candidate, d: Candidate)
    requires Sorted(FusedOrder(), head + tail) && c in head && d in tail
    ensures NoLater(c, d)
  {
    var i :| 0 <= i < |head| && head[i] == c;
    var j :| 0 <= j < |tail| && tail[j] == d;
    assert (head + tail)[i] == c && (head + tail)[|head| + j] == d;
  }

  lemma HeadIsTop(fused: seq<Candidate>, sorted: seq<Candidate>, maxResults: nat)
    requires multiset(sorted) == multiset(fused) && Sorted(FusedOrder(), sorted)
    ensures TopOf(Truncate(sorted, maxResults), fused, maxResults)
  {
    assert |sorted| == |multiset(sorted)| == |fused|;
    var head := Truncate(sorted, maxResults);
    var tail := sorted[|head|..];
    assert sorted == head + tail;
    assert multiset(fused) - multiset(head) == multiset(tail);
    forall c, d | c in head && d in tail ensures NoLater(c, d) {
      HeadBeforeTail(head, tail, c, d);
    }
  }

  // ---- Conservation and order-independence ----

  /** The sum of the scores of the listed ids. */
  function ScoreSum(entries: seq<Entry>, ids: seq<string>): real {
    if ids == [] then 0.0 else ScoreSum(entries, ids[..|ids| - 1]) + FusedScore(entries, ids[|ids| - 1])
  }

  function ShareSum(e: Entry, ids: seq<string>): real {
    if ids == [] then 0.0 else ShareSum(e, ids[..|ids| - 1]) + Share(e, ids[|ids| - 1])
  }

  lemma {:induction false} ScoreSumAppend(entries: seq<Entry>, e: Entry, ids: seq<string>)
    ensures ScoreSum(entries + [e], ids) == ScoreSum(entries, ids) + ShareSum(e, ids)
  {
    if ids != [] {
      ScoreSumAppend(entries, e, ids[..|ids| - 1]);
      FusedScoreAppend(entries, e, ids[|ids| - 1]);
    }
  }

  lemma {:induction false} ShareIsCountedOnce(e: Entry, ids: seq<string>)
    requires NoRepeats(ids)
    ensures ShareSum(e, ids) == if e.candidate.skillId in ids then e.contribution else 0.0
  {
    if ids != [] {
      var init, last := ids[..|ids| - 1], ids[|ids| - 1];
      ShareIsCountedOnce(e, init);
      assert ids == init + [last] && last !in init;
    }
  }

  /** Nothing is lost or double-counted: the scores of all ids sum to all contributions. */
  lemma {:induction false} ScoresSumToContributions(entries: seq<Entry>, ids: seq<string>)
    requires NoRepeats(ids) && forall e :: e in entries ==> e.candidate.skillId in ids
    ensures ScoreSum(entries, ids) == Total(entries)
  {
    if entries == [] {
      NoEntriesNoScore(ids);
    } else {
      var init, last := entries[..|entries| - 1], entries[|entries| - 1];
      assert entries == init + [last];
      ScoresSumToContributions(init, ids);
      ScoreSumAppend(init, last, ids);
      ShareIsCountedOnce(last, ids);
    }
  }

  function IdsOf(fused: seq<Candidate>): (r: seq<string>)
    ensures |r| == |fused| && forall i :: 0 <= i < |r| ==> r[i] == fused[i].skillId
  {
    seq(|fused|, i requires 0 <= i < |fused| => fused[i].skillId)
  }

  function SumOfScores(fused: seq<Candidate>): real {
    if fused == [] then 0.0 else SumOfScores(fused[..|fused| - 1]) + fused[|fused| - 1].score
  }

  lemma {:induction false} SumByIds(fused: seq<Candidate>, entries: seq<Entry>)
    requires forall c :: c in fused ==> c.score == FusedScore(entries, c.skillId)
    ensures SumOfScores(fused) == ScoreSum(entries, IdsOf(fused))
  {
    if fused != [] {
      var init := fused[..|fused| - 1];
      SumByIds(init, entries);
      assert IdsOf(fused)[..|fused| - 1] == IdsOf(init);
    }
  }

  /** Before truncation the fused scores add up to every contribution made. */
  lemma FusionConservesScore(fused: seq<Candidate>, entries: seq<Entry>)
    requires FusesDirectly(fused, entries)
    ensures SumOfScores(fused) == Total(entries)
  {
    var ids := IdsOf(fused);
    SumByIds(fused, entries);
    forall e | e in entries ensures e.candidate.skillId in ids {
      var c :| c in fused && c.skillId == e.candidate.skillId;
      var i :| 0 <= i < |fused| && fused[i] == c;
      assert ids[i] == e.candidate.skillId;
    }
    ScoresSumToContributions(entries, ids);
  }

  lemma {:induction false} NoEntriesNoScore(ids: seq<string>)
    ensures ScoreSum([], ids) == 0.0
  {
    if ids != [] {
      NoEntriesNoScore(ids[..|ids| - 1]);
    }
  }

  lemma {:induction false} FusedScoreConcat(a: seq<Entry>, b: seq<Entry>, id: string)
    ensures FusedScore(a + b, id) == FusedScore(a, id) + FusedScore(b, id)
  {
    if b == [] {
      assert a + b == a;
    } else {
      assert (a + b)[..|a + b| - 1] == a + b[..|b| - 1];
      FusedScoreConcat(a, b[..|b| - 1], id);
    }
  }

  lemma EntriesAppend(rankings: seq<ScopeRanking>, last: ScopeRanking, k: real)
    requires k > 0.0
    ensures Entries(rankings + [last], k) == Entries(rankings, k) + Contributions(last, k)
  {
    assert (rankings + [last])[..|rankings|] == rankings;
  }

  lemma ConcatAssociates<T>(a: seq<T>, b: seq<T>, c: seq<T>)
    ensures a + b + c == a + (b + c)
  {
  }

  lemma {:induction false} EntriesConcat(a: seq<ScopeRanking>, b: seq<ScopeRanking>, k: real)
    requires k > 0.0
    ensures Entries(a + b, k) == Entries(a, k) + Entries(b, k)
  {
    if b == [] {
      assert a + b == a;
    } else {
      var init, last := b[..|b| - 1], b[|b| - 1];
      EntriesConcat(a, init, k);
      EntriesAppend(init, last, k);
      ConcatAssociates(a, init, [last]);
      EntriesAppend(a + init, last, k);
      assert init + [last] == b;
      ConcatAssociates(Entries(a, k), Entries(init, k), Contributions(last, k));
    }
  }

  /** The order in which scopes are listed does not change any fused score. */
  lemma {:induction false} ScopeOrderIsIrrelevant(a: seq<ScopeRanking>, b: seq<ScopeRanking>, k: real, id: string)
    requires k > 0.0 && multiset(a) == multiset(b)
    ensures FusedScore(Entries(a, k), id) == FusedScore(Entries(b, k), id)
  {
    if a == [] {
      assert |b| == |multiset(b)| == 0;
    } else {
      var init, last := a[..|a| - 1], a[|a| - 1];
      assert a == init + [last];
      var i := RemoveFromPermutation(init, last, b);
      var before, after := b[..i], b[i + 1..];
      ScopeOrderIsIrrelevant(init, before + after, k, id);
      EntriesConcat(before + [last], after, k);
      EntriesConcat(before, [last], k);
      EntriesConcat(before, after, k);
      EntriesConcat(init, [last], k);
      FusedScoreConcat(Entries(before, k), Entries(after, k), id);
      FusedScoreConcat(Entries(before, k), Entries([last], k), id);
      FusedScoreConcat(Entries(before, k) + Entries([last], k), Entries(after, k), id);
      FusedScoreConcat(Entries(init, k), Entries([last], k), id);
    }
  }

  // ---- When the result is determined ----

  /** The order does not tell the two apart; their ids are no part of it. */
  predicate SameRank(a: Candidate, b: Candidate) {
    a.score == b.score && Priority(a.scope) == Priority(b.scope) && a.semantic == b.semantic && a.lexical == b.lexical
  }

  /** No candidate among the first `n` is tied with a later one. */
  ghost predicate NoTieInTop(sorted: seq<Candidate>, n: nat) {
    forall i, j :: 0 <= i < j < |sorted| && i < n ==> !SameRank(sorted[i], sorted[j])
  }

  /** The lists one map may yield are the rearrangements of any of them. */
  lemma FusedListsAreRearrangements(fused: seq<Candidate>, aggregated: map<string, Aggregate>, entries: seq<Entry>,
                                    other: seq<Candidate>)
    requires FusedList(fused, aggregated, entries)
    ensures FusedList(other, aggregated, entries) <==> multiset(other) == multiset(fused)
  {
    assert NoRepeats(fused);
    if FusedList(other, aggregated, entries) {
      assert NoRepeats(other);
      forall c ensures c in fused <==> c in other {
      }
      NoRepeatsWithin(fused, other);
      NoRepeatsWithin(other, fused);
    } else if multiset(other) == multiset(fused) {
      PermutationKeepsNoRepeats(fused, other);
      forall i, j | 0 <= i < j < |other| ensures other[i].skillId != other[j].skillId {
        assert other[i] in fused && other[j] in fused;
      }
      assert FusedList(other, aggregated, entries);
    }
  }

  lemma TiedIffSameRank(a: Candidate, b: Candidate)
    ensures Tied(FusedOrder(), a, b) <==> SameRank(a, b)
  {
  }

  lemma UntiedIffNoTie(sorted: seq<Candidate>, n: nat)
    requires DistinctIds(sorted)
    ensures UntiedTop(FusedOrder(), sorted, n) <==> NoTieInTop(sorted, n)
  {
    forall i, j | 0 <= i < j < |sorted|
      ensures Tied(FusedOrder(), sorted[i], sorted[j]) <==> SameRank(sorted[i], sorted[j])
    {
      TiedIffSameRank(sorted[i], sorted[j]);
    }
  }

  lemma UntiedIffNoTieInTop(fused: seq<Candidate>, aggregated: map<string, Aggregate>, entries: seq<Entry>, n: nat)
    requires FusedList(fused, aggregated, entries)
    ensures UntiedTop(FusedOrder(), Sort(FusedOrder(), fused), n) <==> NoTieInTop(Sort(FusedOrder(), fused), n)
  {
    FusedListsAreRearrangements(fused, aggregated, entries, Sort(FusedOrder(), fused));
    UntiedIffNoTie(Sort(FusedOrder(), fused), n);
  }

  /** Whatever order the map is iterated in, the result is the same. */
  ghost predicate Determined(aggregated: map<string, Aggregate>, entries: seq<Entry>, n: nat) {
    forall a, b :: FusedList(a, aggregated, entries) && FusedList(b, aggregated, entries) ==>
      Truncate(Sort(FusedOrder(), a), n) == Truncate(Sort(FusedOrder(), b), n)
  }

  /** The result is independent of the map's order exactly when no candidate it shows ties with a later one. */
  lemma ResultIsDeterminedIffUntied(fused: seq<Candidate>, aggregated: map<string, Aggregate>, entries: seq<Entry>, n: nat)
    requires FusedList(fused, aggregated, entries)
    ensures Determined(aggregated, entries, n) <==> NoTieInTop(Sort(FusedOrder(), fused), n)
  {
    FusedOrderIsPreorder();
    UntiedIffNoTieInTop(fused, aggregated, entries, n);
    TopIsStableIffUntied(FusedOrder(), fused, n);
    if StableTop(FusedOrder(), fused, n) {
      StableMeansDetermined(fused, aggregated, entries, n);
    }
    if Determined(aggregated, entries, n) {
      forall ys, zs | multiset(ys) == multiset(fused) && multiset(zs) == multiset(fused)
        ensures Truncate(Sort(FusedOrder(), ys), n) == Truncate(Sort(FusedOrder(), zs), n)
      {
        FusedListsAreRearrangements(fused, aggregated, entries, ys);
        FusedListsAreRearrangements(fused, aggregated, entries, zs);
      }
    }
  }

  lemma StableMeansDetermined(fused: seq<Candidate>, aggregated: map<string, Aggregate>, entries: seq<Entry>, n: nat)
    requires FusedList(fused, aggregated, entries) && StableTop(FusedOrder(), fused, n)
    ensures Determined(aggregated, entries, n)
  {
    forall a, b | FusedList(a, aggregated, entries) && FusedList(b, aggregated, entries)
      ensures Truncate(Sort(FusedOrder(), a), n) == Truncate(Sort(FusedOrder(), b), n)
    {
      FusedListsAreRearrangements(fused, aggregated, entries, a);
      FusedListsAreRearrangements(fused, aggregated, entries, b);
    }
  }

  /** A tie shows: from any tie in the top, two orders of the one map that give different results. */
  lemma TiedResultFollowsMapOrder(fused: seq<Candidate>, aggregated: map<string, Aggregate>, entries: seq<Entry>, n: nat)
    returns (a: seq<Candidate>, b: seq<Candidate>)
    requires FusedList(fused, aggregated, entries) && !NoTieInTop(Sort(FusedOrder(), fused), n)
    ensures FusedList(a, aggregated, entries) && FusedList(b, aggregated, entries)
    ensures Truncate(Sort(FusedOrder(), a), n) != Truncate(Sort(FusedOrder(), b), n)
  {
    ResultIsDeterminedIffUntied(fused, aggregated, entries, n);
    a, b :| FusedList(a, aggregated, entries) && FusedList(b, aggregated, entries)
            && Truncate(Sort(FusedOrder(), a), n) != Truncate(Sort(FusedOrder(), b), n);
  }
}
