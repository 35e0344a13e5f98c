/**
 Scoped search (crates/retrieval/src/dual_scope.rs, cosine_rank.rs, graph_search.rs):
 filter to the scope, rank by cosine through a remapped index, score by equation 3,
 cut at the relevance floor, and reorder by marginal relevance.
 */
module ScopeSearch {
  import opened Wrappers
  import opened Filtering
  import opened Sorting
  import opened Scopes
  import opened TopEvidence
  import opened Mmr

  datatype BoostMode = Binary | Off | CentroidAffinity

  datatype SeededSkill = SeededSkill(scopeType: ScopeType, scopeId: string, sourcePaths: seq<seq<string>>,
                                     embedding: seq<real>, subunitCount: nat, subunitEmbeddings: seq<seq<real>>,
                                     prior: real, communityBoost: real, communityId: Option<string>)

  datatype ScopeDescriptor = ScopeDescriptor(scopeType: ScopeType, scopeId: string, paths: seq<seq<string>>)

  datatype Weights = Weights(alpha: real, beta: real, gamma: real, lambda: real)

  datatype Config = Config(candidateLimit: nat, maxSubunitsPerSkill: nat, relevanceThreshold: real,
                           mmrLambda: real, weights: Weights, boostMode: BoostMode)

  /** A query against a loaded graph; `cosine` is the similarity of two embeddings. */
  datatype Query = Query(prompt: seq<real>, cosine: (seq<real>, seq<real>) -> real,
                         skills: seq<SeededSkill>, centroids: map<string, seq<real>>,
                         scope: ScopeDescriptor, config: Config)
  {
    // ---- One skill's own numbers ----

    /** `seeded_skill_matches_scope` */
    predicate Matches(skill: SeededSkill) {
      if skill.scopeType != scope.scopeType then false
      else if skill.scopeId != scope.scopeId then false
      else if scope.paths == [] then true
      else if skill.sourcePaths == [] then false
      else forall source :: source in skill.sourcePaths ==> exists root :: root in scope.paths && root <= source
    }

    predicate InScope(i: nat) {
      i < |skills| && Matches(skills[i])
    }

    function Positive(x: real): real { if x > 0.0 then x else 0.0 }

    /** Cosine to the prompt, cut at zero. */
    function Semantic(embedding: seq<real>): real {
      Positive(cosine(prompt, embedding))
    }

    /** One score per subunit; a subunit without an embedding scores 0. */
    function SubunitScores(skill: SeededSkill): seq<real> {
      seq(skill.subunitCount, p requires 0 <= p < skill.subunitCount =>
        if p < |skill.subunitEmbeddings| then Semantic(skill.subunitEmbeddings[p]) else 0.0)
    }

    function Evidence(skill: SeededSkill): real {
      SubunitEvidence(SubunitScores(skill), config.maxSubunitsPerSkill)
    }

    function Boost(skill: SeededSkill): real {
      match config.boostMode
      case Binary => skill.communityBoost
      case Off => 0.0
      case CentroidAffinity =>
        if skill.communityId.Some? && skill.communityId.value in centroids then
          var affinity := Semantic(centroids[skill.communityId.value]);
          if affinity > 1.0 then 1.0 else affinity
        else 0.0
    }

    /** `score_eq3` */
    function ScoreEq3(semantic: real, evidence: real, prior: real, boost: real): real {
      (config.weights.alpha * semantic + config.weights.beta * evidence + config.weights.gamma * prior)
        * (1.0 + config.weights.lambda * boost)
    }

    function Score(skill: SeededSkill): real {
      ScoreEq3(Semantic(skill.embedding), Evidence(skill), skill.prior, Boost(skill))
    }

    // ---- What a search should return ----

    /** `j` ranks ahead of `i`: closer to the prompt, or as close and earlier in the graph. */
    predicate Beats(j: nat, i: nat)
      requires j < |skills| && i < |skills|
    {
      var a, b := Semantic(skills[j].embedding), Semantic(skills[i].embedding);
      a > b || (a == b && j < i)
    }

    /** How many skills of the scope rank ahead of `i`. */
    ghost function Rank(i: nat): nat
      requires i < |skills|
    {
      |set j: nat | j < |skills| && InScope(j) && Beats(j, i)|
    }

    /** In scope, among the closest `candidateLimit`, and above the floor by its own score. */
    ghost predicate Relevant(i: nat) {
      InScope(i) && Rank(i) < config.candidateLimit && Score(skills[i]) >= config.relevanceThreshold
    }
  }

  datatype Candidate = Candidate(skillIndex: nat, score: real, semantic: real, evidence: real, embedding: seq<real>)

  /** The candidate a skill should appear as. */
  function Faithful(q: Query, i: nat): Candidate
    requires i < |q.skills|
  {
    var skill := q.skills[i];
    Candidate(i, q.Score(skill), q.Semantic(skill.embedding), q.Evidence(skill), skill.embedding)
  }

  // ---- What the numbers mean ----

  /** The path goes through every component of the root, from the top. */
  predicate LiesUnder(path: seq<string>, root: seq<string>) {
    |root| <= |path| && forall i :: 0 <= i < |root| ==> path[i] == root[i]
  }

  /** In scope: type and id agree, and if the scope names roots, the skill has paths and each lies under one. */
  lemma MatchesMeans(q: Query, skill: SeededSkill)
    ensures q.Matches(skill) <==>
      && skill.scopeType == q.scope.scopeType && skill.scopeId == q.scope.scopeId
      && (q.scope.paths == []
          || (skill.sourcePaths != []
              && forall source :: source in skill.sourcePaths ==>
                   exists root :: root in q.scope.paths && LiesUnder(source, root)))
  {
    forall source, root | root in q.scope.paths ensures root <= source <==> LiesUnder(source, root) {
      if LiesUnder(source, root) {
        assert root == source[..|root|];
      }
    }
  }

  function Clamped(x: real): real {
    if x < 0.0 then 0.0 else if x > 1.0 then 1.0 else x
  }

  /** The weights of equation 3, component by component, and the boost of each mode. */
  lemma ScoreWeighs(q: Query, skill: SeededSkill)
    ensures var w, similarity := q.config.weights, q.cosine(q.prompt, skill.embedding);
      var semantic := if similarity > 0.0 then similarity else 0.0;
      var base := w.alpha * semantic + w.beta * q.Evidence(skill) + w.gamma * skill.prior;
      match q.config.boostMode
      case Off => q.Score(skill) == base
      case Binary => q.Score(skill) == base * (1.0 + w.lambda * skill.communityBoost)
      case CentroidAffinity =>
        if skill.communityId.Some? && skill.communityId.value in q.centroids
        then q.Score(skill) == base * (1.0 + w.lambda * Clamped(q.cosine(q.prompt, q.centroids[skill.communityId.value])))
        else q.Score(skill) == base
  {
  }

  /** With weights that are not negative, better components never lower the score, and neither does a greater boost. */
  lemma BetterComponentsNeverLower(q: Query, semantic: real, evidence: real, prior: real, boost: real,
                                   semantic': real, evidence': real, prior': real, boost': real)
    requires var w := q.config.weights; w.alpha >= 0.0 && w.beta >= 0.0 && w.gamma >= 0.0 && w.lambda >= 0.0
    requires 0.0 <= semantic <= semantic' && 0.0 <= evidence <= evidence' && 0.0 <= prior <= prior' && 0.0 <= boost <= boost'
    ensures q.ScoreEq3(semantic, evidence, prior, boost) <= q.ScoreEq3(semantic', evidence', prior', boost')
  {
    var w := q.config.weights;
    var base := w.alpha * semantic + w.beta * evidence + w.gamma * prior;
    var base' := w.alpha * semantic' + w.beta * evidence' + w.gamma * prior';
    ProductRises(w.alpha, semantic, w.alpha, semantic');
    ProductRises(w.beta, evidence, w.beta, evidence');
    ProductRises(w.gamma, prior, w.gamma, prior');
    ProductRises(w.lambda, boost, w.lambda, boost');
    ProductRises(base, 1.0 + w.lambda * boost, base', 1.0 + w.lambda * boost');
  }

  lemma ProductRises(a: real, b: real, a': real, b': real)
    requires 0.0 <= a <= a' && 0.0 <= b <= b'
    ensures 0.0 <= a * b <= a' * b'
  {
    assert a * b <= a * b' by {
      assert a * b' - a * b == a * (b' - b);
    }
    assert a * b' <= a' * b' by {
      assert a' * b' - a * b' == (a' - a) * b';
    }
  }

  /** A subunit scores its own similarity, cut at zero, and nothing without an embedding. */
  lemma SubunitScoreMeans(q: Query, skill: SeededSkill, p: nat)
    requires p < skill.subunitCount
    ensures |q.SubunitScores(skill)| == skill.subunitCount
    ensures var score := q.SubunitScores(skill)[p];
      if p < |skill.subunitEmbeddings| && q.cosine(q.prompt, skill.subunitEmbeddings[p]) > 0.0
      then score == q.cosine(q.prompt, skill.subunitEmbeddings[p]) else score == 0.0
  {
  }

  // ---- The pipeline ----

  /** A hit of the cosine pass: a position among the scoped embeddings and its score. */
  datatype CosineHit = CosineHit(position: nat, score: real)

  function ByScore(): (CosineHit, CosineHit) -> bool {
    (a: CosineHit, b: CosineHit) => a.score >= b.score
  }

  ghost predicate Indexes(xs: seq<nat>, n: nat) {
    forall k :: 0 <= k < |xs| ==> xs[k] < n
  }

  ghost predicate Positions(hits: seq<CosineHit>, n: nat) {
    forall k :: 0 <= k < |hits| ==> hits[k].position < n
  }

  function AllHits(q: Query, embeddings: seq<seq<real>>): (r: seq<CosineHit>)
    ensures |r| == |embeddings|
    ensures forall p :: 0 <= p < |r| ==> r[p] == CosineHit(p, q.Semantic(embeddings[p]))
  {
    seq(|embeddings|, p requires 0 <= p < |embeddings| => CosineHit(p, q.Semantic(embeddings[p])))
  }

  /** `rank_by_cosine` */
  function RankByCosine(q: Query, embeddings: seq<seq<real>>, limit: nat): (hits: seq<CosineHit>)
    ensures Positions(hits, |embeddings|)
  {
    SortedPositions(q, embeddings);
    Truncate(Sort(ByScore(), AllHits(q, embeddings)), limit)
  }

  lemma SortedPositions(q: Query, embeddings: seq<seq<real>>)
    ensures Positions(Sort(ByScore(), AllHits(q, embeddings)), |embeddings|)
    ensures forall h :: h in Sort(ByScore(), AllHits(q, embeddings)) <==> h in AllHits(q, embeddings)
  {
    var all, sorted := AllHits(q, embeddings), Sort(ByScore(), AllHits(q, embeddings));
    forall h ensures h in sorted <==> h in all {
      assert h in sorted <==> h in multiset(sorted);
    }
    assert forall k :: 0 <= k < |sorted| ==> sorted[k] in sorted;
  }

  function ScopeFilter(q: Query): nat -> bool {
    (i: nat) => q.InScope(i)
  }

  function ScopedIndices(q: Query): (scoped: seq<nat>)
    ensures Indexes(scoped, |q.skills|)
  {
    SelectMembers(ScopeFilter(q), Identity(|q.skills|));
    var scoped := Select(ScopeFilter(q), Identity(|q.skills|));
    assert forall k :: 0 <= k < |scoped| ==> scoped[k] in scoped;
    scoped
  }

  function EmbeddingsOf(q: Query, indices: seq<nat>): (r: seq<seq<real>>)
    requires Indexes(indices, |q.skills|)
    ensures |r| == |indices| && forall p :: 0 <= p < |r| ==> r[p] == q.skills[indices[p]].embedding
  {
    seq(|indices|, p requires 0 <= p < |indices| => q.skills[indices[p]].embedding)
  }

  /** The scoped index of each hit. */
  function Remap(hits: seq<CosineHit>, scoped: seq<nat>): (r: seq<nat>)
    requires Positions(hits, |scoped|)
    ensures |r| == |hits| && forall k :: 0 <= k < |r| ==> r[k] == scoped[hits[k].position]
  {
    seq(|hits|, k requires 0 <= k < |hits| => scoped[hits[k].position])
  }

  /** `search_graph`'s evidence per candidate index, as the map it is looked up in. */
  function GraphHitsBySkill(q: Query, indices: seq<nat>): map<nat, real> {
    map i | i in indices && i < |q.skills| :: q.Evidence(q.skills[i])
  }

  /** A hit turned into a candidate, its evidence looked up by skill index. */
  function Fuse(q: Query, index: nat, semantic: real, evidenceBySkill: map<nat, real>): Candidate
    requires index < |q.skills|
  {
    var skill := q.skills[index];
    var evidence := if index in evidenceBySkill then evidenceBySkill[index] else 0.0;
    Candidate(index, q.ScoreEq3(semantic, evidence, skill.prior, q.Boost(skill)), semantic, evidence, skill.embedding)
  }

  function AboveFloor(q: Query): Candidate -> bool {
    (c: Candidate) => c.score >= q.config.relevanceThreshold
  }

  function ByFusedScore(): (Candidate, Candidate) -> bool {
    (a: Candidate, b: Candidate) => a.score >= b.score
  }

  // ---- The cosine pass is the rank order ----

  predicate Ahead(a: CosineHit, b: CosineHit) {
    a.score > b.score || (a.score == b.score && a.position < b.position)
  }

  ghost predicate Ranked(hits: seq<CosineHit>) {
    forall i, j :: 0 <= i < j < |hits| ==> Ahead(hits[i], hits[j])
  }

  lemma {:induction false} InsertKeepsRanked(x: CosineHit, hits: seq<CosineHit>)
    requires Ranked(hits) && forall h :: h in hits ==> x.position < h.position
    ensures Ranked(Insert(ByScore(), x, hits))
  {
    if hits == [] || ByScore()(x, hits[0]) {
      assert Insert(ByScore(), x, hits) == [x] + hits;
      forall j | 0 <= j < |hits| ensures Ahead(x, hits[j]) {
        assert hits[j] in hits && (j > 0 ==> Ahead(hits[0], hits[j]));
      }
    } else {
      var rest := Insert(ByScore(), x, hits[1..]);
      InsertKeepsRanked(x, hits[1..]);
      assert Insert(ByScore(), x, hits) == [hits[0]] + rest;
      forall h | h in rest ensures Ahead(hits[0], h) {
        assert h in multiset(rest);
      }
    }
  }

  /** The stable sort breaks ties by position. */
  lemma {:induction false} StableSortRanks(hits: seq<CosineHit>)
    requires forall i, j :: 0 <= i < j < |hits| ==> hits[i].position < hits[j].position
    ensures Ranked(Sort(ByScore(), hits))
  {
    if hits != [] {
      StableSortRanks(hits[1..]);
      forall h | h in Sort(ByScore(), hits[1..]) ensures hits[0].position < h.position {
        assert h in multiset(Sort(ByScore(), hits[1..]));
      }
      InsertKeepsRanked(hits[0], Sort(ByScore(), hits[1..]));
    }
  }

  /** The scoped indices in rank order: every skill of the scope, once, each ahead of the next. */
  ghost predicate RankOrder(q: Query, order: seq<nat>) {
    && (forall i :: i in order <==> q.InScope(i))
    && (forall k, l :: 0 <= k < l < |order| ==>
          order[k] < |q.skills| && order[l] < |q.skills| && q.Beats(order[k], order[l]))
  }

  lemma {:induction false} SelectAscends(keep: nat -> bool, xs: seq<nat>)
    requires forall i, j :: 0 <= i < j < |xs| ==> xs[i] < xs[j]
    ensures forall i, j :: 0 <= i < j < |Select(keep, xs)| ==> Select(keep, xs)[i] < Select(keep, xs)[j]
  {
    if xs != [] {
      var init, last := xs[..|xs| - 1], xs[|xs| - 1];
      SelectAscends(keep, init);
      SelectMembers(keep, init);
      forall k | 0 <= k < |Select(keep, init)| ensures Select(keep, init)[k] < last {
        assert Select(keep, init)[k] in init;
      }
    }
  }

  lemma ScopedIndicesAscend(q: Query)
    ensures var scoped := ScopedIndices(q);
      && (forall i :: i in scoped <==> q.InScope(i))
      && (forall i, j :: 0 <= i < j < |scoped| ==> scoped[i] < scoped[j])
  {
    SelectAscends(ScopeFilter(q), Identity(|q.skills|));
    SelectMembers(ScopeFilter(q), Identity(|q.skills|));
    forall i: nat ensures i in Identity(|q.skills|) <==> i < |q.skills| {
      assert i < |q.skills| ==> Identity(|q.skills|)[i] == i;
    }
  }

  /** All hits in order, before the limit cuts them. */
  function SortedHits(q: Query): (hits: seq<CosineHit>)
    ensures Positions(hits, |ScopedIndices(q)|) && |hits| == |ScopedIndices(q)|
  {
    SortedPositions(q, EmbeddingsOf(q, ScopedIndices(q)));
    Sort(ByScore(), AllHits(q, EmbeddingsOf(q, ScopedIndices(q))))
  }

  /** A hit carries the score of the skill its position stands for. */
  ghost predicate OwnScores(q: Query, hits: seq<CosineHit>, scoped: seq<nat>)
    requires Positions(hits, |scoped|) && Indexes(scoped, |q.skills|)
  {
    forall k :: 0 <= k < |hits| ==> hits[k].score == q.Semantic(q.skills[scoped[hits[k].position]].embedding)
  }

  lemma SortedHitsOwnTheirScores(q: Query)
    ensures OwnScores(q, SortedHits(q), ScopedIndices(q))
    ensures forall p: nat :: p < |ScopedIndices(q)| ==>
      CosineHit(p, q.Semantic(q.skills[ScopedIndices(q)[p]].embedding)) in SortedHits(q)
  {
    var scoped := ScopedIndices(q);
    var embeddings := EmbeddingsOf(q, scoped);
    SortedPositions(q, embeddings);
    forall k | 0 <= k < |SortedHits(q)|
      ensures SortedHits(q)[k].score == q.Semantic(q.skills[scoped[SortedHits(q)[k].position]].embedding)
    {
      assert SortedHits(q)[k] in AllHits(q, embeddings);
    }
    forall p: nat | p < |scoped|
      ensures CosineHit(p, q.Semantic(q.skills[scoped[p]].embedding)) in SortedHits(q)
    {
      assert AllHits(q, embeddings)[p] in AllHits(q, embeddings);
    }
  }

  lemma RemapCoversScope(q: Query)
    ensures forall i :: i in Remap(SortedHits(q), ScopedIndices(q)) <==> q.InScope(i)
  {
    var scoped, hits := ScopedIndices(q), SortedHits(q);
    var order := Remap(hits, scoped);
    ScopedIndicesAscend(q);
    SortedHitsOwnTheirScores(q);
    forall i | q.InScope(i) ensures i in order {
      assert i in scoped;
      var p :| 0 <= p < |scoped| && scoped[p] == i;
      var k :| 0 <= k < |hits| && hits[k] == CosineHit(p, q.Semantic(q.skills[scoped[p]].embedding));
      assert order[k] == i;
    }
    forall i | i in order ensures q.InScope(i) {
      var k :| 0 <= k < |order| && order[k] == i;
      assert scoped[hits[k].position] in scoped;
    }
  }

  lemma SortedHitsAreRankOrder(q: Query)
    ensures RankOrder(q, Remap(SortedHits(q), ScopedIndices(q)))
  {
    var scoped, hits := ScopedIndices(q), SortedHits(q);
    var order := Remap(hits, scoped);
    RemapCoversScope(q);
    ScopedIndicesAscend(q);
    SortedHitsOwnTheirScores(q);
    StableSortRanks(AllHits(q, EmbeddingsOf(q, scoped)));
    forall k, l | 0 <= k < l < |order|
      ensures order[k] < |q.skills| && order[l] < |q.skills| && q.Beats(order[k], order[l])
    {
      assert Ahead(hits[k], hits[l]);
    }
  }

  /** A skill's place in the rank order is the number of skills that beat it. */
  lemma PlaceIsRank(q: Query, order: seq<nat>, m: nat)
    requires RankOrder(q, order) && m < |order|
    ensures order[m] < |q.skills| && q.Rank(order[m]) == m
  {
    assert order[m] in order;
    var i := order[m];
    var ahead := order[..m];
    forall j: nat ensures j in ahead <==> j < |q.skills| && q.InScope(j) && q.Beats(j, i) {
      if j in ahead {
        var k :| 0 <= k < m && order[k] == j;
        assert order[k] in order;
      }
      if j < |q.skills| && q.InScope(j) && q.Beats(j, i) {
        assert j in order;
        var k :| 0 <= k < |order| && order[k] == j;
        assert k < m;
        assert ahead[k] == j;
      }
    }
    assert (set j: nat | j < |q.skills| && q.InScope(j) && q.Beats(j, i)) == ToSet(ahead);
    assert NoRepeats(ahead);
    DistinctCount(ahead);
  }

  // ---- The whole search ----

  /** The fused candidates before the floor: one for each of the closest skills of the scope. */
  function FuseHits(q: Query, hits: seq<CosineHit>, scoped: seq<nat>): (r: seq<Candidate>)
    requires Positions(hits, |scoped|) && Indexes(scoped, |q.skills|)
    ensures |r| == |hits|
  {
    var evidenceBySkill := GraphHitsBySkill(q, Remap(hits, scoped));
    seq(|hits|, k requires 0 <= k < |hits| =>
      Fuse(q, scoped[hits[k].position], hits[k].score, evidenceBySkill))
  }

  /** Looking evidence up by skill index gives each candidate its own. */
  lemma FusedHitsAreFaithful(q: Query, hits: seq<CosineHit>, scoped: seq<nat>)
    requires Positions(hits, |scoped|) && Indexes(scoped, |q.skills|) && OwnScores(q, hits, scoped)
    ensures forall k :: 0 <= k < |hits| ==> FuseHits(q, hits, scoped)[k] == Faithful(q, scoped[hits[k].position])
  {
    var order := Remap(hits, scoped);
    forall k | 0 <= k < |hits| ensures FuseHits(q, hits, scoped)[k] == Faithful(q, scoped[hits[k].position]) {
      assert order[k] in order;
    }
  }

  ghost predicate DistinctSkills(candidates: seq<Candidate>) {
    forall k, l :: 0 <= k < l < |candidates| ==> candidates[k].skillIndex != candidates[l].skillIndex
  }

  ghost predicate SoundFor(q: Query, candidates: seq<Candidate>) {
    forall c :: c in candidates ==> q.Relevant(c.skillIndex) && c == Faithful(q, c.skillIndex)
  }

  ghost predicate CompleteFor(q: Query, candidates: seq<Candidate>) {
    forall i :: q.Relevant(i) ==> exists c :: c in candidates && c.skillIndex == i
  }

  /** Exactly the relevant skills, once each, with their own numbers. */
  ghost predicate RelevantOnly(q: Query, candidates: seq<Candidate>) {
    SoundFor(q, candidates) && CompleteFor(q, candidates) && DistinctSkills(candidates)
  }

  lemma {:induction false} SelectKeepsDistinctSkills(keep: Candidate -> bool, candidates: seq<Candidate>)
    requires DistinctSkills(candidates)
    ensures DistinctSkills(Select(keep, candidates))
  {
    if candidates != [] {
      var init, last := candidates[..|candidates| - 1], candidates[|candidates| - 1];
      SelectKeepsDistinctSkills(keep, init);
      SelectMembers(keep, init);
      forall k | 0 <= k < |Select(keep, init)| ensures Select(keep, init)[k].skillIndex != last.skillIndex {
        assert Select(keep, init)[k] in init;
      }
    }
  }

  /** Everything before the final reordering. */
  function FusedCandidates(q: Query): seq<Candidate> {
    Select(AboveFloor(q), Fused(q))
  }

  /** One candidate for each of the closest skills of the scope, in rank order. */
  function Fused(q: Query): seq<Candidate> {
    FuseHits(q, RankByCosine(q, EmbeddingsOf(q, ScopedIndices(q)), q.config.candidateLimit), ScopedIndices(q))
  }

  /** The k-th fused candidate is the skill of rank k. */
  lemma FusedFollowsRank(q: Query)
    ensures var order := Remap(SortedHits(q), ScopedIndices(q));
      && |Fused(q)| == Min(|order|, q.config.candidateLimit)
      && (forall i :: i in order <==> q.InScope(i))
      && (forall k :: 0 <= k < |order| ==> order[k] < |q.skills| && q.InScope(order[k]) && q.Rank(order[k]) == k)
      && (forall k :: 0 <= k < |Fused(q)| ==> Fused(q)[k] == Faithful(q, order[k]))
      && (forall k, l :: 0 <= k < l < |order| ==> order[k] != order[l])
  {
    var scoped, sorted := ScopedIndices(q), SortedHits(q);
    var hits := Truncate(sorted, q.config.candidateLimit);
    var order := Remap(sorted, scoped);
    SortedHitsAreRankOrder(q);
    SortedHitsOwnTheirScores(q);
    FusedHitsAreFaithful(q, hits, scoped);
    forall k | 0 <= k < |order| ensures order[k] < |q.skills| && q.InScope(order[k]) && q.Rank(order[k]) == k {
      assert order[k] in order;
      PlaceIsRank(q, order, k);
    }
    forall k, l | 0 <= k < l < |order| ensures order[k] != order[l] {
      assert q.Beats(order[k], order[l]);
    }
  }

  lemma FusedCandidatesAreSound(q: Query)
    ensures SoundFor(q, FusedCandidates(q))
  {
    var fused := Fused(q);
    FusedFollowsRank(q);
    SelectMembers(AboveFloor(q), fused);
    forall c | c in Select(AboveFloor(q), fused) ensures q.Relevant(c.skillIndex) && c == Faithful(q, c.skillIndex) {
      var k :| 0 <= k < |fused| && fused[k] == c;
    }
  }

  lemma FusedCandidatesAreComplete(q: Query)
    ensures CompleteFor(q, FusedCandidates(q))
  {
    var fused, order := Fused(q), Remap(SortedHits(q), ScopedIndices(q));
    FusedFollowsRank(q);
    SelectMembers(AboveFloor(q), fused);
    forall i | q.Relevant(i) ensures exists c :: c in Select(AboveFloor(q), fused) && c.skillIndex == i {
      assert i in order;
      var m :| 0 <= m < |order| && order[m] == i;
      assert fused[m] in fused && fused[m].skillIndex == i;
    }
  }

  lemma FusedCandidatesAreDistinct(q: Query)
    ensures DistinctSkills(FusedCandidates(q)) && |FusedCandidates(q)| <= q.config.candidateLimit
  {
    FusedFollowsRank(q);
    SelectKeepsDistinctSkills(AboveFloor(q), Fused(q));
  }

  lemma FusedCandidatesAreRelevant(q: Query)
    ensures RelevantOnly(q, FusedCandidates(q)) && |FusedCandidates(q)| <= q.config.candidateLimit
  {
    FusedCandidatesAreSound(q);
    FusedCandidatesAreComplete(q);
    FusedCandidatesAreDistinct(q);
  }

  function ScoresOf(candidates: seq<Candidate>): (r: seq<real>)
    ensures |r| == |candidates| && forall k :: 0 <= k < |r| ==> r[k] == candidates[k].score
  {
    seq(|candidates|, k requires 0 <= k < |candidates| => candidates[k].score)
  }

  function PickAll(candidates: seq<Candidate>, picks: seq<nat>): (r: seq<Candidate>)
    requires Indexes(picks, |candidates|)
    ensures |r| == |picks| && forall k :: 0 <= k < |r| ==> r[k] == candidates[picks[k]]
  {
    seq(|picks|, k requires 0 <= k < |picks| => candidates[picks[k]])
  }

  function PoolOf(q: Query, candidates: seq<Candidate>): Pool {
    Pool(ScoresOf(candidates),
         (i: nat, j: nat) => if i < |candidates| && j < |candidates|
                             then q.cosine(candidates[i].embedding, candidates[j].embedding) else 0.0,
         q.config.mmrLambda)
  }

  /** Picking every position once leaves no candidate out and adds none. */
  lemma PickingKeepsMembers(candidates: seq<Candidate>, picks: seq<nat>)
    requires |picks| == |candidates| && NoRepeats(picks) && Indexes(picks, |candidates|)
    ensures forall c :: c in PickAll(candidates, picks) <==> c in candidates
  {
    var picked := PickAll(candidates, picks);
    FullSelectionIsPermutation(|candidates|, picks);
    forall c | c in picked ensures c in candidates {
      var k :| 0 <= k < |picked| && picked[k] == c;
      assert picks[k] in picks;
    }
    forall c | c in candidates ensures c in picked {
      var p :| 0 <= p < |candidates| && candidates[p] == c;
      assert Identity(|candidates|)[p] in multiset(Identity(|candidates|));
      assert p in multiset(picks);
      var k :| 0 <= k < |picks| && picks[k] == p;
      assert picked[k] == c;
    }
  }

  lemma PickingKeepsDistinct(candidates: seq<Candidate>, picks: seq<nat>)
    requires NoRepeats(picks) && Indexes(picks, |candidates|) && DistinctSkills(candidates)
    ensures DistinctSkills(PickAll(candidates, picks))
  {
    var picked := PickAll(candidates, picks);
    forall k, l | 0 <= k < l < |picked| ensures picked[k].skillIndex != picked[l].skillIndex {
      assert picks[k] in picks && picks[l] in picks && picks[k] != picks[l];
    }
  }

  lemma PickingEveryone(q: Query, candidates: seq<Candidate>, picks: seq<nat>)
    requires RelevantOnly(q, candidates)
    requires |picks| == |candidates| && NoRepeats(picks) && Indexes(picks, |candidates|)
    ensures RelevantOnly(q, PickAll(candidates, picks))
  {
    var picked := PickAll(candidates, picks);
    PickingKeepsMembers(candidates, picks);
    PickingKeepsDistinct(candidates, picks);
    forall i | q.Relevant(i) ensures exists c :: c in picked && c.skillIndex == i {
      var c :| c in candidates && c.skillIndex == i;
      assert c in picked;
    }
  }

  lemma SortingKeepsRelevant(q: Query, candidates: seq<Candidate>)
    requires RelevantOnly(q, candidates)
    ensures RelevantOnly(q, Sort(ByFusedScore(), candidates))
  {
    var sorted := Sort(ByFusedScore(), candidates);
    DistinctIndicesNoRepeats(candidates);
    PermutationKeepsNoRepeats(candidates, sorted);
    forall c | c in sorted ensures c == Faithful(q, c.skillIndex) {
      assert c in candidates;
    }
    forall k, l | 0 <= k < l < |sorted| ensures sorted[k].skillIndex != sorted[l].skillIndex {
      assert sorted[k] in sorted && sorted[l] in sorted && sorted[k] != sorted[l];
    }
    forall i | q.Relevant(i) ensures exists c :: c in sorted && c.skillIndex == i {
      var c :| c in candidates && c.skillIndex == i;
      assert c in sorted;
    }
  }

  lemma DistinctIndicesNoRepeats(candidates: seq<Candidate>)
    requires DistinctSkills(candidates)
    ensures NoRepeats(candidates)
  {
  }

  /**
   The search is sound and complete: it returns, without duplicates, exactly the
   skills of the scope among the `candidateLimit` closest whose own score clears the
   floor, each with its own numbers; the final selection only reorders them greedily.
   */
  method PerformScopeSearch(q: Query) returns (result: seq<Candidate>, ghost sorted: seq<Candidate>, ghost picks: seq<nat>)
    ensures RelevantOnly(q, result)
    ensures Indexes(picks, |sorted|) && result == PickAll(sorted, picks)
    ensures sorted == Sort(ByFusedScore(), FusedCandidates(q)) && Sorted(ByFusedScore(), sorted)
    ensures PoolOf(q, sorted).Greedy(picks)
  {
    FusedCandidatesAreRelevant(q);
    var fused := FusedCandidates(q);
    assert TotalPreorder(ByFusedScore());
    SortSorts(ByFusedScore(), fused);
    SortingKeepsRelevant(q, fused);
    var byScore := Sort(ByFusedScore(), fused);
    var selected := MmrSelect(PoolOf(q, byScore), q.config.candidateLimit);
    assert forall k :: 0 <= k < |selected| ==> selected[k] in selected;
    PickingEveryone(q, byScore, selected);
    result := PickAll(byScore, selected);
    sorted, picks := byScore, selected;
  }
}
