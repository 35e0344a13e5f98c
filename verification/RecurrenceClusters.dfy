/**
 Cross-project recurrence clustering (crates/maintenance/src/promote.rs): an
 all-pairs loop over a disjoint-set forest, and the pass that turns clusters
 spanning enough project roots into promotion proposals.
 */
module RecurrenceClusters {
  import opened UnionFind
  import opened Wrappers
  import opened Filtering

  /** The embedding and language-model services, as functions of an index pair. */
  datatype Services = Services(
    similarity: (nat, nat) -> real,
    threshold: real,
    decideEquivalence: (nat, nat) -> Result<bool, string>)
  {
    /** The verifier is asked about a pair only when its similarity clears the threshold. */
    predicate Linked(i: nat, j: nat) {
      similarity(i, j) >= threshold && decideEquivalence(i, j) == Success(true)
    }

    predicate Fails(i: nat, j: nat) {
      similarity(i, j) >= threshold && decideEquivalence(i, j).Failure?
    }

    /** The pairs i < j < n whose skills the service calls near-duplicates. */
    ghost function Links(n: nat): set<(nat, nat)> {
      set i: nat, j: nat | i < j < n && Linked(i, j) :: (i, j)
    }
  }

  // ---- Connectivity ----

  ghost predicate Adjacent(edges: set<(nat, nat)>, a: nat, b: nat) {
    (a, b) in edges || (b, a) in edges
  }

  ghost predicate Chain(edges: set<(nat, nat)>, path: seq<nat>) {
    |path| > 0 && forall k :: 0 < k < |path| ==> Adjacent(edges, path[k - 1], path[k])
  }

  ghost predicate Joins(edges: set<(nat, nat)>, path: seq<nat>, a: nat, b: nat) {
    Chain(edges, path) && path[0] == a && path[|path| - 1] == b
  }

  /** A chain of linked pairs leads from `a` to `b`. */
  ghost predicate Connected(edges: set<(nat, nat)>, a: nat, b: nat) {
    exists path :: Joins(edges, path, a, b)
  }

  lemma ConnectedReflexive(edges: set<(nat, nat)>, a: nat)
    ensures Connected(edges, a, a)
  {
    assert Joins(edges, [a], a, a);
  }

  lemma ConnectedEdge(edges: set<(nat, nat)>, a: nat, b: nat)
    requires Adjacent(edges, a, b)
    ensures Connected(edges, a, b)
  {
    assert Joins(edges, [a, b], a, b);
  }

  lemma ConnectedTransitive(edges: set<(nat, nat)>, a: nat, b: nat, c: nat)
    requires Connected(edges, a, b) && Connected(edges, b, c)
    ensures Connected(edges, a, c)
  {
    var p :| Joins(edges, p, a, b);
    var q :| Joins(edges, q, b, c);
    var r := p + q[1..];
    forall k | 0 < k < |r| ensures Adjacent(edges, r[k - 1], r[k]) {
      if k >= |p| {
        assert r[k] == q[k - |p| + 1] && r[k - 1] == q[k - |p|];
      }
    }
    assert Joins(edges, r, a, c);
  }

  lemma ConnectedSymmetric(edges: set<(nat, nat)>, a: nat, b: nat)
    requires Connected(edges, a, b)
    ensures Connected(edges, b, a)
  {
    var p :| Joins(edges, p, a, b);
    var r := seq(|p|, k requires 0 <= k < |p| => p[|p| - 1 - k]);
    forall k | 0 < k < |r| ensures Adjacent(edges, r[k - 1], r[k]) {
      assert Adjacent(edges, p[|p| - 1 - k], p[|p| - k]);
    }
    assert Joins(edges, r, b, a);
  }

  lemma ConnectedMonotone(edges: set<(nat, nat)>, more: set<(nat, nat)>, a: nat, b: nat)
    requires edges <= more && Connected(edges, a, b)
    ensures Connected(more, a, b)
  {
    var p :| Joins(edges, p, a, b);
    assert Joins(more, p, a, b);
  }

  // ---- Representatives describe connectivity ----

  /** Equal representatives mean connected by `edges`, and nothing else does. */
  ghost predicate Describes(roots: seq<nat>, edges: set<(nat, nat)>) {
    forall a: nat, b: nat :: a < |roots| && b < |roots| ==>
      (roots[a] == roots[b] <==> Connected(edges, a, b))
  }

  ghost predicate Within(edges: set<(nat, nat)>, n: nat) {
    forall e :: e in edges ==> e.0 < n && e.1 < n
  }

  /** A map that agrees across every edge agrees along every chain. */
  lemma {:induction false} AgreesAlongChain(roots: seq<nat>, edges: set<(nat, nat)>, path: seq<nat>)
    requires Within(edges, |roots|) && Chain(edges, path) && path[0] < |roots|
    requires forall e :: e in edges ==> roots[e.0] == roots[e.1]
    ensures path[|path| - 1] < |roots| && roots[path[|path| - 1]] == roots[path[0]]
  {
    if |path| > 1 {
      assert Adjacent(edges, path[0], path[1]);
      var e := if (path[0], path[1]) in edges then (path[0], path[1]) else (path[1], path[0]);
      assert e in edges;
      forall k | 0 < k < |path[1..]| ensures Adjacent(edges, path[1..][k - 1], path[1..][k]) {
        assert Adjacent(edges, path[k], path[k + 1]);
      }
      AgreesAlongChain(roots, edges, path[1..]);
    }
  }

  lemma EmptyDescribes(roots: seq<nat>)
    requires forall x :: 0 <= x < |roots| ==> roots[x] == x
    ensures Describes(roots, {})
  {
    forall a: nat, b: nat | a < |roots| && b < |roots|
      ensures roots[a] == roots[b] <==> Connected({}, a, b)
    {
      ConnectedReflexive({}, a);
      if Connected({}, a, b) {
        var path :| Joins({}, path, a, b);
        AgreesAlongChain(roots, {}, path);
      }
    }
  }

  /** Merging the classes of a new edge's ends keeps the map describing connectivity. */
  lemma MergeDescribes(roots: seq<nat>, edges: set<(nat, nat)>, i: nat, j: nat)
    requires Describes(roots, edges) && Within(edges, |roots|) && i < |roots| && j < |roots|
    ensures Describes(Redirect(roots, roots[i], roots[j]), edges + {(i, j)})
  {
    var more := edges + {(i, j)};
    var merged := Redirect(roots, roots[i], roots[j]);
    forall e | e in edges ensures merged[e.0] == merged[e.1] {
      ConnectedEdge(edges, e.0, e.1);
    }
    ConnectedEdge(more, i, j);
    ConnectedSymmetric(more, i, j);
    forall a: nat, b: nat | a < |roots| && b < |roots|
      ensures merged[a] == merged[b] <==> Connected(more, a, b)
    {
      if Connected(more, a, b) {
        var path :| Joins(more, path, a, b);
        AgreesAlongChain(merged, more, path);
      }
      if merged[a] == merged[b] {
        MergedMeansConnected(roots, edges, i, j, a, b);
      }
    }
  }

  lemma MergedMeansConnected(roots: seq<nat>, edges: set<(nat, nat)>, i: nat, j: nat, a: nat, b: nat)
    requires Describes(roots, edges) && i < |roots| && j < |roots| && a < |roots| && b < |roots|
    requires var merged := Redirect(roots, roots[i], roots[j]); merged[a] == merged[b]
    ensures Connected(edges + {(i, j)}, a, b)
  {
    var more := edges + {(i, j)};
    if roots[a] == roots[b] {
      ConnectedMonotone(edges, more, a, b);
    } else if roots[a] == roots[i] {
      BridgeConnects(roots, edges, i, j, a, b);
    } else {
      BridgeConnects(roots, edges, i, j, b, a);
      ConnectedSymmetric(more, b, a);
    }
  }

  /** a - i - j - b. */
  lemma BridgeConnects(roots: seq<nat>, edges: set<(nat, nat)>, i: nat, j: nat, a: nat, b: nat)
    requires Describes(roots, edges) && i < |roots| && j < |roots| && a < |roots| && b < |roots|
    requires roots[a] == roots[i] && roots[j] == roots[b]
    ensures Connected(edges + {(i, j)}, a, b)
  {
    var more := edges + {(i, j)};
    ConnectedMonotone(edges, more, a, i);
    ConnectedMonotone(edges, more, j, b);
    ConnectedEdge(more, i, j);
    ConnectedTransitive(more, a, i, j);
    ConnectedTransitive(more, a, j, b);
  }

  // ---- Building the clusters ----

  /** Pair (a, b) comes before (i, j) in the order the nested loops visit pairs. */
  predicate Before(a: nat, b: nat, i: nat, j: nat) {
    a < i || (a == i && b < j)
  }

  /** The links among the pairs visited before (i, j). */
  ghost function LinksBefore(services: Services, n: nat, i: nat, j: nat): set<(nat, nat)> {
    set e | e in services.Links(n) && Before(e.0, e.1, i, j)
  }

  /** No pair visited before (i, j) made the verifier fail. */
  ghost predicate NoFailureBefore(services: Services, n: nat, i: nat, j: nat) {
    forall a: nat, b: nat :: a < b < n && Before(a, b, i, j) ==> !services.Fails(a, b)
  }

  ghost predicate NeverFails(services: Services, n: nat) {
    forall a: nat, b: nat :: a < b < n ==> !services.Fails(a, b)
  }

  /** (i, j) is the first consulted pair whose verdict is an error, and `error` is that error. */
  ghost predicate FirstFailure(services: Services, n: nat, i: nat, j: nat, error: string) {
    && i < j < n
    && services.similarity(i, j) >= services.threshold && services.decideEquivalence(i, j) == Failure(error)
    && NoFailureBefore(services, n, i, j)
  }

  predicate Ascending(members: seq<nat>) {
    forall k :: 0 < k < |members| ==> members[k - 1] < members[k]
  }

  ghost predicate Listed(clusters: seq<seq<nat>>, x: nat) {
    exists c :: 0 <= c < |clusters| && x in clusters[c]
  }

  /** Every index below `n` is listed in exactly one cluster, once, and no cluster is empty. */
  ghost predicate Partition(clusters: seq<seq<nat>>, n: nat) {
    && (forall c :: 0 <= c < |clusters| ==> clusters[c] != [] && Ascending(clusters[c]))
    && (forall c, x :: 0 <= c < |clusters| && x in clusters[c] ==> x < n)
    && (forall x: nat :: x < n ==> Listed(clusters, x))
    && (forall c, d, x :: 0 <= c < |clusters| && 0 <= d < |clusters| && x in clusters[c] && x in clusters[d] ==> c == d)
  }

  /** Sharing a cluster means being connected by a chain of links. */
  ghost predicate ClustersAreComponents(clusters: seq<seq<nat>>, links: set<(nat, nat)>, n: nat) {
    && Partition(clusters, n)
    && forall c, x: nat, y: nat :: 0 <= c < |clusters| && x in clusters[c] && y < n ==>
         (y in clusters[c] <==> Connected(links, x, y))
  }

  /** The pairs before (i, j) are dealt with: none failed, and the forest describes their links. */
  ghost predicate Explored(services: Services, parent: seq<nat>, i: nat, j: nat) {
    && Rooted(parent)
    && Describes(Roots(parent), LinksBefore(services, |parent|, i, j))
    && NoFailureBefore(services, |parent|, i, j)
  }

  /** One row of the all-pairs loop: the pairs (i, j) for j from i + 1 on. */
  method UniteRow(services: Services, parent: array<nat>, i: nat) returns (outcome: Result<(), string>)
    requires i < parent.Length && Explored(services, parent[..], i, i + 1)
    modifies parent
    ensures outcome.Success? ==> Explored(services, parent[..], i, parent.Length)
    ensures outcome.Failure? ==> exists j: nat :: FirstFailure(services, parent.Length, i, j, outcome.error)
  {
    var j := i + 1;
    while j < parent.Length
      invariant i + 1 <= j <= parent.Length && Explored(services, parent[..], i, j)
    {
      outcome := ConsiderPair(services, parent, i, j);
      if outcome.Failure? {
        assert FirstFailure(services, parent.Length, i, j, outcome.error);
        return;
      }
      j := j + 1;
    }
    outcome := Success(());
  }

  /** The all-pairs loop: the forest ends up describing the connectivity of all links. */
  method UniteLinkedPairs(services: Services, parent: array<nat>) returns (outcome: Result<(), string>)
    requires forall x :: 0 <= x < parent.Length ==> parent[x] == x
    modifies parent
    ensures outcome.Success? <==> NeverFails(services, parent.Length)
    ensures outcome.Failure? ==> exists i: nat, j: nat :: FirstFailure(services, parent.Length, i, j, outcome.error)
    ensures outcome.Success? ==>
      Rooted(parent[..]) && Describes(Roots(parent[..]), services.Links(parent.Length))
  {
    ghost var n := parent.Length;
    NothingExplored(services, parent[..]);
    var i := 0;
    while i < parent.Length
      invariant 0 <= i <= n && Explored(services, parent[..], i, 0)
    {
      NextRow(services, parent[..], i, 0, i, i + 1);
      outcome := UniteRow(services, parent, i);
      if outcome.Failure? {
        ghost var j: nat :| FirstFailure(services, n, i, j, outcome.error);
        SomePairFails(services, n, i, j, outcome.error);
        return;
      }
      NextRow(services, parent[..], i, n, i + 1, 0);
      i := i + 1;
    }
    AllExplored(services, parent[..]);
    outcome := Success(());
  }

  lemma NothingExplored(services: Services, parent: seq<nat>)
    requires forall x :: 0 <= x < |parent| ==> parent[x] == x
    ensures Explored(services, parent, 0, 0)
  {
    IdentityIsRooted(parent);
    EmptyDescribes(Roots(parent));
    assert LinksBefore(services, |parent|, 0, 0) == {};
  }

  lemma AllExplored(services: Services, parent: seq<nat>)
    requires Explored(services, parent, |parent|, 0)
    ensures NeverFails(services, |parent|)
    ensures Rooted(parent) && Describes(Roots(parent), services.Links(|parent|))
  {
    assert LinksBefore(services, |parent|, |parent|, 0) == services.Links(|parent|);
  }

  lemma SomePairFails(services: Services, n: nat, i: nat, j: nat, error: string)
    requires FirstFailure(services, n, i, j, error)
    ensures !NeverFails(services, n)
  {
    assert services.Fails(i, j);
  }

  /** Between the two positions the loops visit no pair. */
  lemma NextRow(services: Services, parent: seq<nat>, i: nat, j: nat, i': nat, j': nat)
    requires Explored(services, parent, i, j)
    requires (i' == i && j <= j' <= i + 1) || (i' == i + 1 && j' == 0 && j >= |parent|)
    ensures Explored(services, parent, i', j')
  {
    assert LinksBefore(services, |parent|, i, j) == LinksBefore(services, |parent|, i', j');
  }

  /** One pair of the loop: below the threshold it is skipped, otherwise the verdict decides. */
  method ConsiderPair(services: Services, parent: array<nat>, i: nat, j: nat) returns (outcome: Result<(), string>)
    requires i < j < parent.Length && Explored(services, parent[..], i, j)
    modifies parent
    ensures outcome.Success? ==> Explored(services, parent[..], i, j + 1)
    ensures outcome.Failure? ==> FirstFailure(services, parent.Length, i, j, outcome.error)
  {
    ghost var n := parent.Length;
    VisitPair(services, n, i, j);
    if services.similarity(i, j) < services.threshold {
      return Success(());
    }
    match services.decideEquivalence(i, j) {
      case Failure(error) => return Failure(error);
      case Success(equivalent) =>
        if equivalent {
          MergeDescribes(Roots(parent[..]), LinksBefore(services, n, i, j), i, j);
          Union(parent, i, j);
        }
    }
    outcome := Success(());
  }

  lemma IdentityIsRooted(parent: seq<nat>)
    requires forall x :: 0 <= x < |parent| ==> parent[x] == x
    ensures Rooted(parent) && Roots(parent) == parent
  {
    var rank := seq(|parent|, _ => 0);
    assert forall x: nat :: x < |parent| ==> Certified(parent, parent, rank, x);
    ForestIsRooted(parent, parent, rank);
  }

  lemma VisitPair(services: Services, n: nat, i: nat, j: nat)
    requires i < j < n
    ensures LinksBefore(services, n, i, j + 1)
         == if services.Linked(i, j) then LinksBefore(services, n, i, j) + {(i, j)} else LinksBefore(services, n, i, j)
    ensures NoFailureBefore(services, n, i, j) && !services.Fails(i, j) ==> NoFailureBefore(services, n, i, j + 1)
  {
    forall e
      ensures e in LinksBefore(services, n, i, j + 1)
         <==> e in LinksBefore(services, n, i, j) || (services.Linked(i, j) && e == (i, j))
    {
    }
  }

  /** `members` lists, in order, the indices below `upTo` whose representative is `root`. */
  ghost predicate ListsClass(members: seq<nat>, roots: seq<nat>, root: nat, upTo: nat)
    requires upTo <= |roots|
  {
    && members != []
    && Ascending(members)
    && forall x: nat :: x in members <==> x < upTo && roots[x] == root
  }

  ghost predicate GroupsClasses(groups: map<nat, seq<nat>>, roots: seq<nat>, upTo: nat)
    requires upTo <= |roots|
  {
    && (forall x: nat :: x < upTo ==> roots[x] in groups)
    && (forall root :: root in groups ==> ListsClass(groups[root], roots, root, upTo))
  }

  lemma AscendingBound(members: seq<nat>, k: nat, l: nat)
    requires Ascending(members) && k < l < |members|
    ensures members[k] < members[l]
  {
    if k + 1 < l {
      AscendingBound(members, k, l - 1);
    }
  }

  lemma GroupNext(groups: map<nat, seq<nat>>, roots: seq<nat>, x: nat)
    requires x < |roots| && GroupsClasses(groups, roots, x)
    ensures var soFar := if roots[x] in groups then groups[roots[x]] else [];
      GroupsClasses(groups[roots[x] := soFar + [x]], roots, x + 1)
  {
    var root := roots[x];
    var soFar := if root in groups then groups[root] else [];
    var grown := groups[root := soFar + [x]];
    assert forall y: nat :: y in soFar <==> y < x && roots[y] == root;
    forall k | 0 < k < |soFar + [x]| ensures (soFar + [x])[k - 1] < (soFar + [x])[k] {
      if k == |soFar| {
        assert soFar[k - 1] in soFar;
      }
    }
    assert ListsClass(soFar + [x], roots, root, x + 1);
    forall other | other in grown ensures ListsClass(grown[other], roots, other, x + 1) {
      if other != root {
        assert ListsClass(groups[other], roots, other, x);
      }
    }
  }

  /** Groups indices by representative; path halving during the lookups changes nothing. */
  method GroupByRoot(parent: array<nat>) returns (groups: map<nat, seq<nat>>)
    requires Rooted(parent[..])
    modifies parent
    ensures Rooted(parent[..]) && Roots(parent[..]) == old(Roots(parent[..]))
    ensures GroupsClasses(groups, Roots(parent[..]), parent.Length)
  {
    groups := map[];
    for i := 0 to parent.Length
      invariant Rooted(parent[..]) && Roots(parent[..]) == old(Roots(parent[..]))
      invariant GroupsClasses(groups, Roots(parent[..]), i)
    {
      GroupNext(groups, Roots(parent[..]), i);
      var root := Find(parent, i);
      var members := if root in groups then groups[root] else [];
      groups := groups[root := members + [i]];
    }
  }

  /** The map's values in whatever order the map yields its keys. */
  method Values(groups: map<nat, seq<nat>>) returns (values: seq<seq<nat>>, ghost keys: seq<nat>)
    ensures |keys| == |values|
    ensures forall c :: 0 <= c < |keys| ==> keys[c] in groups && values[c] == groups[keys[c]]
    ensures forall c, d :: 0 <= c < d < |keys| ==> keys[c] != keys[d]
    ensures forall root :: root in groups ==> root in keys
  {
    values, keys := [], [];
    var left := groups.Keys;
    while left != {}
      invariant left <= groups.Keys
      invariant |keys| == |values|
      invariant forall c :: 0 <= c < |keys| ==> keys[c] in groups && keys[c] !in left && values[c] == groups[keys[c]]
      invariant forall c, d :: 0 <= c < d < |keys| ==> keys[c] != keys[d]
      invariant forall root :: root in groups ==> root in left || root in keys
      decreases left
    {
      var root :| root in left;
      values, keys := values + [groups[root]], keys + [root];
      left := left - {root};
    }
  }

  // ---- What a cluster means for the two services ----

  ghost predicate Together(clusters: seq<seq<nat>>, x: nat, y: nat) {
    exists c :: 0 <= c < |clusters| && x in clusters[c] && y in clusters[c]
  }

  /** Two skills, in either order, similar enough and judged equivalent. */
  ghost predicate NearDuplicates(services: Services, a: nat, b: nat) {
    || (a < b && services.similarity(a, b) >= services.threshold && services.decideEquivalence(a, b) == Success(true))
    || (b < a && services.similarity(b, a) >= services.threshold && services.decideEquivalence(b, a) == Success(true))
  }

  /** Near-duplicates lead from `x` to `y`, one after the other. */
  ghost predicate LeadsTo(services: Services, n: nat, path: seq<nat>, x: nat, y: nat) {
    && path != [] && path[0] == x && path[|path| - 1] == y
    && (forall k :: 0 <= k < |path| ==> path[k] < n)
    && forall k :: 0 < k < |path| ==> NearDuplicates(services, path[k - 1], path[k])
  }

  lemma LinksAreNearDuplicates(services: Services, n: nat, a: nat, b: nat)
    requires a < n && b < n
    ensures Adjacent(services.Links(n), a, b) <==> NearDuplicates(services, a, b)
  {
  }

  lemma {:induction false} ChainStaysBelow(services: Services, n: nat, path: seq<nat>, k: nat)
    requires Chain(services.Links(n), path) && path[0] < n && k < |path|
    ensures path[k] < n
  {
    if k > 0 {
      assert Adjacent(services.Links(n), path[k - 1], path[k]);
    }
  }

  lemma ConnectedIffLeadsTo(services: Services, n: nat, x: nat, y: nat)
    requires x < n && y < n
    ensures Connected(services.Links(n), x, y) <==> exists path :: LeadsTo(services, n, path, x, y)
  {
    var links := services.Links(n);
    if path :| Joins(links, path, x, y) {
      forall k | 0 <= k < |path| ensures path[k] < n {
        ChainStaysBelow(services, n, path, k);
      }
      forall k | 0 < k < |path| ensures NearDuplicates(services, path[k - 1], path[k]) {
        LinksAreNearDuplicates(services, n, path[k - 1], path[k]);
      }
      assert LeadsTo(services, n, path, x, y);
    }
    if path :| LeadsTo(services, n, path, x, y) {
      forall k | 0 < k < |path| ensures Adjacent(links, path[k - 1], path[k]) {
        LinksAreNearDuplicates(services, n, path[k - 1], path[k]);
      }
      assert Joins(links, path, x, y);
    }
  }

  /** Sharing a cluster means being led to by near-duplicates. */
  lemma TogetherIffLeadsTo(clusters: seq<seq<nat>>, services: Services, n: nat, x: nat, y: nat)
    requires ClustersAreComponents(clusters, services.Links(n), n) && x < n && y < n
    ensures Together(clusters, x, y) <==> exists path :: LeadsTo(services, n, path, x, y)
  {
    ConnectedIffLeadsTo(services, n, x, y);
    assert Listed(clusters, x);
    var c :| 0 <= c < |clusters| && x in clusters[c];
    assert y in clusters[c] <==> Connected(services.Links(n), x, y);
  }

  /** Only pairs similar enough can fail. */
  lemma NeverFailsIff(services: Services, n: nat)
    ensures NeverFails(services, n) <==> forall i: nat, j: nat ::
      i < j < n && services.similarity(i, j) >= services.threshold ==> services.decideEquivalence(i, j).Success?
  {
    if NeverFails(services, n) {
      forall i: nat, j: nat | i < j < n && services.similarity(i, j) >= services.threshold
        ensures services.decideEquivalence(i, j).Success?
      {
        assert !services.Fails(i, j);
      }
    } else {
      var i: nat, j: nat :| i < j < n && services.Fails(i, j);
      assert services.similarity(i, j) >= services.threshold && !services.decideEquivalence(i, j).Success?;
    }
  }

  lemma HigherThresholdFewerLinks(services: Services, stricter: Services, n: nat)
    requires stricter == services.(threshold := stricter.threshold) && services.threshold <= stricter.threshold
    ensures stricter.Links(n) <= services.Links(n)
  {
    forall e | e in stricter.Links(n) ensures e in services.Links(n) {
      assert services.Linked(e.0, e.1);
    }
  }

  /** A stricter threshold only takes links away, and splits clusters without mixing them. */
  lemma HigherThresholdRefines(services: Services, stricter: Services, n: nat, coarse: seq<seq<nat>>, fine: seq<seq<nat>>)
    requires stricter == services.(threshold := stricter.threshold) && services.threshold <= stricter.threshold
    requires ClustersAreComponents(coarse, services.Links(n), n)
    requires ClustersAreComponents(fine, stricter.Links(n), n)
    ensures stricter.Links(n) <= services.Links(n)
    ensures forall c :: 0 <= c < |fine| ==> FallsWithin(fine[c], coarse)
  {
    HigherThresholdFewerLinks(services, stricter, n);
    forall c | 0 <= c < |fine| ensures FallsWithin(fine[c], coarse) {
      var d := ClusterFallsIn(stricter.Links(n), services.Links(n), n, coarse, fine, c);
    }
  }

  /** Some cluster holds all of these skills. */
  ghost predicate FallsWithin(members: seq<nat>, clusters: seq<seq<nat>>) {
    exists d :: 0 <= d < |clusters| && Inside(members, clusters[d])
  }

  ghost predicate Inside(small: seq<nat>, large: seq<nat>) {
    forall x :: x in small ==> x in large
  }

  lemma ClusterFallsIn(few: set<(nat, nat)>, many: set<(nat, nat)>, n: nat, coarse: seq<seq<nat>>, fine: seq<seq<nat>>, c: nat)
    returns (d: nat)
    requires few <= many && ClustersAreComponents(coarse, many, n) && ClustersAreComponents(fine, few, n) && c < |fine|
    ensures d < |coarse| && Inside(fine[c], coarse[d])
  {
    var first := fine[c][0];
    assert first in fine[c] && Listed(coarse, first);
    d :| 0 <= d < |coarse| && first in coarse[d];
    forall x | x in fine[c] ensures x in coarse[d] {
      assert Connected(few, first, x);
      ConnectedMonotone(few, many, first, x);
    }
  }

  /**
   Clusters of skill indices: two skills share one exactly when near-duplicates lead from
   one to the other. They are the connected components of the links; the only other
   outcome is the first verifier failure the pair loop runs into.
   */
  method BuildRecurrenceClusters(n: nat, services: Services) returns (outcome: Result<seq<seq<nat>>, string>)
    ensures outcome.Success? ==> forall x: nat, y: nat :: x < n && y < n ==>
      (Together(outcome.value, x, y) <==> exists path :: LeadsTo(services, n, path, x, y))
    ensures outcome.Failure? ==> exists i: nat, j: nat ::
      i < j < n && services.similarity(i, j) >= services.threshold && services.decideEquivalence(i, j) == Failure(outcome.error)
    ensures outcome.Success? <==> forall i: nat, j: nat ::
      i < j < n && services.similarity(i, j) >= services.threshold ==> services.decideEquivalence(i, j).Success?
    ensures outcome.Success? <==> NeverFails(services, n)
    ensures outcome.Failure? ==> exists i: nat, j: nat :: FirstFailure(services, n, i, j, outcome.error)
    ensures outcome.Success? ==> ClustersAreComponents(outcome.value, services.Links(n), n)
  {
    NeverFailsIff(services, n);
    var parent := new nat[n](x => x);
    var united := UniteLinkedPairs(services, parent);
    if united.Failure? {
      return Failure(united.error);
    }
    ghost var roots := Roots(parent[..]);
    var groups := GroupByRoot(parent);
    var clusters, keys := Values(groups);
    GroupsAreComponents(groups, roots, services.Links(n), clusters, keys);
    forall x: nat, y: nat | x < n && y < n
      ensures Together(clusters, x, y) <==> exists path :: LeadsTo(services, n, path, x, y)
    {
      TogetherIffLeadsTo(clusters, services, n, x, y);
    }
    outcome := Success(clusters);
  }

  lemma GroupsAreComponents(groups: map<nat, seq<nat>>, roots: seq<nat>, links: set<(nat, nat)>,
                            clusters: seq<seq<nat>>, keys: seq<nat>)
    requires GroupsClasses(groups, roots, |roots|) && Describes(roots, links)
    requires |keys| == |clusters|
    requires forall c :: 0 <= c < |keys| ==> keys[c] in groups && clusters[c] == groups[keys[c]]
    requires forall c, d :: 0 <= c < d < |keys| ==> keys[c] != keys[d]
    requires forall root :: root in groups ==> root in keys
    ensures ClustersAreComponents(clusters, links, |roots|)
  {
    forall c | 0 <= c < |clusters| ensures ListsClass(clusters[c], roots, keys[c], |roots|) {
    }
    forall x: nat | x < |roots| ensures Listed(clusters, x) {
      assert roots[x] in groups && roots[x] in keys;
      var c :| 0 <= c < |keys| && keys[c] == roots[x];
      assert x in clusters[c];
    }
  }

  // ---- The pass around it ----

  /** One promotion proposal: its representative skill and the number of project roots behind it. */
  datatype Proposal = Proposal(representative: nat, projectCount: nat)

  /** The distinct project-root keys of the listed skills; a skill may have none. */
  function ProjectRoots(rootKeys: seq<Option<string>>, members: seq<nat>): (roots: set<string>)
    requires forall x :: x in members ==> x < |rootKeys|
    ensures forall x :: x in members && rootKeys[x].Some? ==> rootKeys[x].value in roots
    ensures forall root :: root in roots ==> exists x :: x in members && rootKeys[x] == Some(root)
  {
    set x | x in members && rootKeys[x].Some? :: rootKeys[x].value
  }

  function AllIndices(n: nat): (all: seq<nat>)
    ensures |all| == n && forall x :: 0 <= x < n ==> all[x] == x
  {
    seq(n, x => x)
  }

  ghost predicate InComponent(links: set<(nat, nat)>, n: nat, x: nat, y: nat) {
    y < n && Connected(links, x, y)
  }

  /** The distinct project roots of everything connected to `x`. */
  ghost function ComponentRoots(rootKeys: seq<Option<string>>, links: set<(nat, nat)>, x: nat): set<string> {
    set y: nat | y < |rootKeys| && InComponent(links, |rootKeys|, x, y) && rootKeys[y].Some? :: rootKeys[y].value
  }

  /** `x` is the smallest index of a component that spans at least `minRoots` project roots. */
  ghost predicate Qualifies(rootKeys: seq<Option<string>>, links: set<(nat, nat)>, minRoots: nat, x: nat) {
    && x < |rootKeys|
    && (forall y :: InComponent(links, |rootKeys|, x, y) ==> x <= y)
    && |ComponentRoots(rootKeys, links, x)| >= minRoots
  }

  ghost predicate Proposed(proposals: seq<Proposal>, x: nat) {
    exists p :: p in proposals && p.representative == x
  }

  /** One proposal for every qualifying component, carrying its root count, and no other proposal. */
  ghost predicate ProposesQualifying(proposals: seq<Proposal>, rootKeys: seq<Option<string>>,
                                     links: set<(nat, nat)>, minRoots: nat)
  {
    && (forall p :: p in proposals ==>
          Qualifies(rootKeys, links, minRoots, p.representative)
          && p.projectCount == |ComponentRoots(rootKeys, links, p.representative)|)
    && (forall x :: Qualifies(rootKeys, links, minRoots, x) ==> Proposed(proposals, x))
    && (forall k, l :: 0 <= k < l < |proposals| ==> proposals[k].representative != proposals[l].representative)
  }

  /** The proposal of every qualifying component can be written. */
  ghost predicate AllWrite(write: nat -> Result<(), string>, rootKeys: seq<Option<string>>, links: set<(nat, nat)>,
                           minRoots: nat)
  {
    forall x :: Qualifies(rootKeys, links, minRoots, x) ==> write(x).Success?
  }

  /**
   The early return hides nothing: when too few distinct roots exist overall, no
   component can span enough of them, so proposing nothing is already exact.
   */
  lemma EarlyReturnIsExact(rootKeys: seq<Option<string>>, links: set<(nat, nat)>, minRoots: nat)
    requires |ProjectRoots(rootKeys, AllIndices(|rootKeys|))| < minRoots
    ensures ProposesQualifying([], rootKeys, links, minRoots)
  {
    var all := AllIndices(|rootKeys|);
    forall x: nat | x < |rootKeys| ensures !Qualifies(rootKeys, links, minRoots, x) {
      forall root | root in ComponentRoots(rootKeys, links, x) ensures root in ProjectRoots(rootKeys, all) {
        var y: nat :| y < |rootKeys| && rootKeys[y] == Some(root);
        assert all[y] == y && y in all;
      }
      SubsetIsSmaller(ComponentRoots(rootKeys, links, x), ProjectRoots(rootKeys, all));
    }
  }

  /** A cluster's own root set and first member are those of the component of its first member. */
  lemma ClusterIsComponentOfFirst(clusters: seq<seq<nat>>, c: nat, rootKeys: seq<Option<string>>, links: set<(nat, nat)>)
    requires ClustersAreComponents(clusters, links, |rootKeys|) && c < |clusters|
    ensures clusters[c] != [] && clusters[c][0] < |rootKeys|
    ensures forall y :: InComponent(links, |rootKeys|, clusters[c][0], y) <==> y in clusters[c]
    ensures forall y :: y in clusters[c] ==> clusters[c][0] <= y
    ensures ProjectRoots(rootKeys, clusters[c]) == ComponentRoots(rootKeys, links, clusters[c][0])
  {
    var members := clusters[c];
    assert members[0] in members;
    forall y | y in members ensures members[0] <= y {
      var k :| 0 <= k < |members| && members[k] == y;
      if k > 0 {
        AscendingBound(members, 0, k);
      }
    }
  }

  /** A qualifying index is the first member of some cluster. */
  lemma QualifyingIsAFirst(clusters: seq<seq<nat>>, rootKeys: seq<Option<string>>, links: set<(nat, nat)>,
                           minRoots: nat, x: nat) returns (c: nat)
    requires ClustersAreComponents(clusters, links, |rootKeys|) && Qualifies(rootKeys, links, minRoots, x)
    ensures c < |clusters| && clusters[c] != [] && clusters[c][0] == x
  {
    assert Listed(clusters, x);
    c :| 0 <= c < |clusters| && x in clusters[c];
    ClusterIsComponentOfFirst(clusters, c, rootKeys, links);
    assert InComponent(links, |rootKeys|, x, clusters[c][0]);
  }

  /** `x` is the first member of one of the first `c` clusters. */
  ghost predicate FirstOfSome(clusters: seq<seq<nat>>, c: nat, x: nat)
    requires c <= |clusters|
  {
    exists d :: 0 <= d < c && clusters[d] != [] && clusters[d][0] == x
  }

  /** The proposal is right and was written. */
  ghost predicate RightlyProposed(p: Proposal, rootKeys: seq<Option<string>>, links: set<(nat, nat)>, minRoots: nat,
                                  write: nat -> Result<(), string>)
  {
    && Qualifies(rootKeys, links, minRoots, p.representative)
    && p.projectCount == |ComponentRoots(rootKeys, links, p.representative)|
    && write(p.representative).Success?
  }

  /** The first `c` clusters are dealt with. */
  ghost predicate ProposedUpTo(proposals: seq<Proposal>, clusters: seq<seq<nat>>, rootKeys: seq<Option<string>>,
                               links: set<(nat, nat)>, minRoots: nat, write: nat -> Result<(), string>, c: nat)
    requires c <= |clusters|
  {
    && (forall p :: p in proposals ==>
          RightlyProposed(p, rootKeys, links, minRoots, write) && FirstOfSome(clusters, c, p.representative))
    && (forall x :: FirstOfSome(clusters, c, x) && Qualifies(rootKeys, links, minRoots, x) ==> Proposed(proposals, x))
    && (forall k, l :: 0 <= k < l < |proposals| ==> proposals[k].representative != proposals[l].representative)
  }

  /** Two clusters do not begin alike. */
  lemma NewFirst(clusters: seq<seq<nat>>, n: nat, c: nat)
    requires Partition(clusters, n) && c < |clusters|
    ensures clusters[c] != [] && !FirstOfSome(clusters, c, clusters[c][0])
    ensures forall x :: FirstOfSome(clusters, c + 1, x) <==> FirstOfSome(clusters, c, x) || x == clusters[c][0]
  {
    assert clusters[c][0] in clusters[c];
    forall d | 0 <= d < c && clusters[d] != [] ensures clusters[d][0] != clusters[c][0] {
      assert clusters[d][0] in clusters[d];
    }
  }

  lemma ProposeOne(proposals: seq<Proposal>, p: Proposal, clusters: seq<seq<nat>>, rootKeys: seq<Option<string>>,
                   links: set<(nat, nat)>, minRoots: nat, write: nat -> Result<(), string>, c: nat)
    requires c < |clusters| && Partition(clusters, |rootKeys|)
    requires ProposedUpTo(proposals, clusters, rootKeys, links, minRoots, write, c)
    requires RightlyProposed(p, rootKeys, links, minRoots, write) && clusters[c] != [] && p.representative == clusters[c][0]
    ensures ProposedUpTo(proposals + [p], clusters, rootKeys, links, minRoots, write, c + 1)
  {
    var more := proposals + [p];
    NewFirst(clusters, |rootKeys|, c);
    assert p in more && forall q :: q in more <==> q in proposals || q == p;
    forall x | FirstOfSome(clusters, c + 1, x) && Qualifies(rootKeys, links, minRoots, x) ensures Proposed(more, x) {
      if x != p.representative {
        assert Proposed(proposals, x);
      }
    }
    forall k, l | 0 <= k < l < |more| ensures more[k].representative != more[l].representative {
      assert more[k] in proposals;
    }
  }

  lemma ProposeNone(proposals: seq<Proposal>, clusters: seq<seq<nat>>, rootKeys: seq<Option<string>>,
                    links: set<(nat, nat)>, minRoots: nat, write: nat -> Result<(), string>, c: nat)
    requires c < |clusters| && Partition(clusters, |rootKeys|)
    requires ProposedUpTo(proposals, clusters, rootKeys, links, minRoots, write, c)
    requires clusters[c] != [] && !Qualifies(rootKeys, links, minRoots, clusters[c][0])
    ensures ProposedUpTo(proposals, clusters, rootKeys, links, minRoots, write, c + 1)
  {
    NewFirst(clusters, |rootKeys|, c);
  }

  lemma AllProposed(proposals: seq<Proposal>, clusters: seq<seq<nat>>, rootKeys: seq<Option<string>>,
                    links: set<(nat, nat)>, minRoots: nat, write: nat -> Result<(), string>)
    requires ClustersAreComponents(clusters, links, |rootKeys|)
    requires ProposedUpTo(proposals, clusters, rootKeys, links, minRoots, write, |clusters|)
    ensures ProposesQualifying(proposals, rootKeys, links, minRoots) && AllWrite(write, rootKeys, links, minRoots)
  {
    forall x | Qualifies(rootKeys, links, minRoots, x) ensures Proposed(proposals, x) && write(x).Success? {
      var c := QualifyingIsAFirst(clusters, rootKeys, links, minRoots, x);
      assert FirstOfSome(clusters, |clusters|, x);
    }
  }

  /** Writes a proposal for each cluster that spans enough roots; the first write that fails ends the pass. */
  method ProposeClusters(clusters: seq<seq<nat>>, rootKeys: seq<Option<string>>, minRoots: nat,
                         write: nat -> Result<(), string>, ghost links: set<(nat, nat)>)
    returns (outcome: Result<seq<Proposal>, string>)
    requires ClustersAreComponents(clusters, links, |rootKeys|)
    ensures outcome.Success? ==> ProposesQualifying(outcome.value, rootKeys, links, minRoots)
    ensures outcome.Success? <==> AllWrite(write, rootKeys, links, minRoots)
    ensures outcome.Failure? ==>
      exists x: nat :: Qualifies(rootKeys, links, minRoots, x) && write(x) == Failure(outcome.error)
  {
    var proposals: seq<Proposal> := [];
    var c := 0;
    while c < |clusters|
      invariant 0 <= c <= |clusters|
      invariant ProposedUpTo(proposals, clusters, rootKeys, links, minRoots, write, c)
    {
      ClusterIsComponentOfFirst(clusters, c, rootKeys, links);
      var members := clusters[c];
      var rootCount := |ProjectRoots(rootKeys, members)|;
      if rootCount < minRoots {
        ProposeNone(proposals, clusters, rootKeys, links, minRoots, write, c);
        c := c + 1;
        continue;
      }
      var written := write(members[0]);
      if written.Failure? {
        assert Qualifies(rootKeys, links, minRoots, members[0]);
        return Failure(written.error);
      }
      var proposal := Proposal(members[0], rootCount);
      ProposeOne(proposals, proposal, clusters, rootKeys, links, minRoots, write, c);
      proposals := proposals + [proposal];
      c := c + 1;
    }
    AllProposed(proposals, clusters, rootKeys, links, minRoots, write);
    outcome := Success(proposals);
  }

  // ---- What the proposals cover ----

  ghost predicate Reaches(services: Services, n: nat, x: nat, y: nat) {
    y < n && exists path :: LeadsTo(services, n, path, x, y)
  }

  /** The distinct project roots of all skills that near-duplicates lead to from `x`. */
  ghost function RootsReached(services: Services, rootKeys: seq<Option<string>>, x: nat): set<string> {
    set y: nat | y < |rootKeys| && Reaches(services, |rootKeys|, x, y) && rootKeys[y].Some? :: rootKeys[y].value
  }

  lemma RootsReachedAreTheComponents(services: Services, rootKeys: seq<Option<string>>, x: nat)
    requires x < |rootKeys|
    ensures RootsReached(services, rootKeys, x) == ComponentRoots(rootKeys, services.Links(|rootKeys|), x)
  {
    forall y: nat | y < |rootKeys|
      ensures Reaches(services, |rootKeys|, x, y) <==> InComponent(services.Links(|rootKeys|), |rootKeys|, x, y)
    {
      ConnectedIffLeadsTo(services, |rootKeys|, x, y);
    }
  }

  /** The smallest index connected to `x`. */
  lemma {:induction false} LeastInComponent(links: set<(nat, nat)>, n: nat, x: nat, y: nat) returns (least: nat)
    requires x < n && InComponent(links, n, x, y)
    ensures InComponent(links, n, x, least)
    ensures forall z :: InComponent(links, n, x, z) ==> least <= z
    decreases y
  {
    if z: nat :| InComponent(links, n, x, z) && z < y {
      least := LeastInComponent(links, n, x, z);
    } else {
      least := y;
    }
  }

  lemma SameComponentSameRoots(rootKeys: seq<Option<string>>, links: set<(nat, nat)>, x: nat, y: nat)
    requires x < |rootKeys| && InComponent(links, |rootKeys|, x, y)
    ensures forall z :: InComponent(links, |rootKeys|, x, z) <==> InComponent(links, |rootKeys|, y, z)
    ensures ComponentRoots(rootKeys, links, x) == ComponentRoots(rootKeys, links, y)
  {
    ConnectedSymmetric(links, x, y);
    forall z ensures InComponent(links, |rootKeys|, x, z) <==> InComponent(links, |rootKeys|, y, z) {
      if InComponent(links, |rootKeys|, x, z) {
        ConnectedTransitive(links, y, x, z);
      }
      if InComponent(links, |rootKeys|, y, z) {
        ConnectedTransitive(links, x, y, z);
      }
    }
  }

  /** A proposal for the skill, found where near-duplicates lead from it. */
  ghost predicate CoveredBy(services: Services, n: nat, x: nat, p: Proposal) {
    Reaches(services, n, x, p.representative)
  }

  /**
   Every proposal counts at least `minRoots` project roots; and whoever reaches that many
   through near-duplicates is covered by a proposal that counts exactly those roots.
   */
  lemma ProposalsCoverComponents(services: Services, rootKeys: seq<Option<string>>, minRoots: nat, proposals: seq<Proposal>)
    requires ProposesQualifying(proposals, rootKeys, services.Links(|rootKeys|), minRoots)
    ensures forall p :: p in proposals ==> p.representative < |rootKeys| && p.projectCount >= minRoots
    ensures forall x: nat :: x < |rootKeys| && |RootsReached(services, rootKeys, x)| >= minRoots ==>
      exists p :: p in proposals && CoveredBy(services, |rootKeys|, x, p)
                  && p.projectCount == |RootsReached(services, rootKeys, x)|
  {
    var n, links := |rootKeys|, services.Links(|rootKeys|);
    forall x: nat | x < n && |RootsReached(services, rootKeys, x)| >= minRoots
      ensures exists p :: p in proposals && CoveredBy(services, n, x, p)
                          && p.projectCount == |RootsReached(services, rootKeys, x)|
    {
      ConnectedReflexive(links, x);
      var least := LeastInComponent(links, n, x, x);
      SameComponentSameRoots(rootKeys, links, x, least);
      RootsReachedAreTheComponents(services, rootKeys, x);
      assert Qualifies(rootKeys, links, minRoots, least) && Proposed(proposals, least);
      var p :| p in proposals && p.representative == least;
      ConnectedIffLeadsTo(services, n, x, least);
    }
  }

  /** What the pass can fail with. */
  datatype PassError =
    | StoreFailed(error: string)
    | EmbeddingFailed(skill: nat, error: string)
    | ClusteringFailed(error: string)
    | WriteFailed(error: string)

  ghost predicate AllEmbed(embed: nat -> Result<(), string>, n: nat) {
    forall x: nat :: x < n ==> embed(x).Success?
  }

  predicate TooFewRoots(rootKeys: seq<Option<string>>, minRoots: nat) {
    |ProjectRoots(rootKeys, AllIndices(|rootKeys|))| < minRoots
  }

  /** The error is the first thing that went wrong with these rows. */
  ghost predicate Explains(error: PassError, rootKeys: seq<Option<string>>, embed: nat -> Result<(), string>,
                           services: Services, minRoots: nat, write: nat -> Result<(), string>)
  {
    var n := |rootKeys|;
    !TooFewRoots(rootKeys, minRoots) && match error
      case StoreFailed(_) => false
      case EmbeddingFailed(x, e) => x < n && embed(x) == Failure(e) && AllEmbed(embed, x)
      case ClusteringFailed(e) => AllEmbed(embed, n) && exists i: nat, j: nat :: FirstFailure(services, n, i, j, e)
      case WriteFailed(e) =>
        && AllEmbed(embed, n) && NeverFails(services, n)
        && exists x: nat :: Qualifies(rootKeys, services.Links(n), minRoots, x) && write(x) == Failure(e)
  }

  /** Embeds the rows in order up to the first failure. */
  method EmbedRows(n: nat, embed: nat -> Result<(), string>) returns (outcome: Result<(), PassError>)
    ensures outcome.Success? <==> AllEmbed(embed, n)
    ensures outcome.Failure? ==>
      && outcome.error.EmbeddingFailed? && outcome.error.skill < n && AllEmbed(embed, outcome.error.skill)
      && embed(outcome.error.skill) == Failure(outcome.error.error)
  {
    for x := 0 to n
      invariant AllEmbed(embed, x)
    {
      var embedded := embed(x);
      if embedded.Failure? {
        return Failure(EmbeddingFailed(x, embedded.error));
      }
    }
    outcome := Success(());
  }

  /**
   The recurrence pass over the project roots of the stored rows. Whenever it succeeds,
   early return or not, it proposes exactly the components of near-duplicates that span
   at least `minRoots` roots; otherwise it reports the first thing that went wrong.
   */
  method RunRecurrencePass(configured: bool, fetched: Result<seq<Option<string>>, string>,
                           embed: nat -> Result<(), string>, services: Services, minRoots: nat,
                           write: nat -> Result<(), string>)
    returns (outcome: Result<seq<Proposal>, PassError>)
    ensures !configured ==> outcome == Success([])
    ensures configured && fetched.Failure? ==> outcome == Failure(StoreFailed(fetched.error))
    ensures configured && fetched.Success? ==>
      var rows, links := fetched.value, services.Links(|fetched.value|);
      && (outcome.Success? ==> ProposesQualifying(outcome.value, rows, links, minRoots))
      && (outcome.Success? <==>
            || TooFewRoots(rows, minRoots)
            || (AllEmbed(embed, |rows|) && NeverFails(services, |rows|) && AllWrite(write, rows, links, minRoots)))
      && (outcome.Failure? ==> Explains(outcome.error, rows, embed, services, minRoots, write))
  {
    if !configured {
      return Success([]);
    }
    if fetched.Failure? {
      return Failure(StoreFailed(fetched.error));
    }
    var rootKeys := fetched.value;
    var rootsSeen := |ProjectRoots(rootKeys, AllIndices(|rootKeys|))|;
    if rootsSeen < minRoots {
      EarlyReturnIsExact(rootKeys, services.Links(|rootKeys|), minRoots);
      return Success([]);
    }
    var embedded := EmbedRows(|rootKeys|, embed);
    if embedded.Failure? {
      return Failure(embedded.error);
    }
    var clusters := BuildRecurrenceClusters(|rootKeys|, services);
    if clusters.Failure? {
      return Failure(ClusteringFailed(clusters.error));
    }
    var proposals := ProposeClusters(clusters.value, rootKeys, minRoots, write, services.Links(|rootKeys|));
    if proposals.Failure? {
      return Failure(WriteFailed(proposals.error));
    }
    outcome := Success(proposals.value);
  }
}
