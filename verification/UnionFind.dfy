/**
 The disjoint-set forest inside `build_recurrence_clusters`
 (crates/maintenance/src/promote.rs): a parent array, a `find` that halves paths
 as it walks, and a union that hangs one root under another without any rank.
 */
module UnionFind {

  /** The index reached after following `steps` parent links from `x`. */
  ghost function Follow(parent: seq<nat>, x: nat, steps: nat): (y: nat)
    requires InBounds(parent) && x < |parent|
    ensures y < |parent|
    decreases steps
  {
    if steps == 0 then x else Follow(parent, parent[x], steps - 1)
  }

  ghost predicate InBounds(parent: seq<nat>) {
    forall x :: 0 <= x < |parent| ==> parent[x] < |parent|
  }

  ghost predicate LeadsToRoot(parent: seq<nat>, x: nat, steps: nat)
    requires InBounds(parent) && x < |parent|
  {
    var y := Follow(parent, x, steps);
    parent[y] == y
  }

  /** Every parent chain ends: exactly what a walk to the root needs to terminate. */
  ghost predicate Rooted(parent: seq<nat>) {
    InBounds(parent) && forall x: nat :: x < |parent| ==> ReachesRoot(parent, x)
  }

  ghost predicate ReachesRoot(parent: seq<nat>, x: nat)
    requires InBounds(parent) && x < |parent|
  {
    exists steps: nat :: LeadsToRoot(parent, x, steps)
  }

  /** The least number of steps, at most `bound`, that reaches a root. */
  ghost function LeastSteps(parent: seq<nat>, x: nat, bound: nat): (steps: nat)
    requires InBounds(parent) && x < |parent| && LeadsToRoot(parent, x, bound)
    ensures LeadsToRoot(parent, x, steps)
    ensures forall fewer: nat :: fewer < steps ==> !LeadsToRoot(parent, x, fewer)
  {
    if exists fewer: nat :: fewer < bound && LeadsToRoot(parent, x, fewer) then
      var fewer: nat :| fewer < bound && LeadsToRoot(parent, x, fewer);
      LeastSteps(parent, x, fewer)
    else
      bound
  }

  ghost function Depth(parent: seq<nat>, x: nat): (steps: nat)
    requires Rooted(parent) && x < |parent|
    ensures LeadsToRoot(parent, x, steps)
    ensures forall fewer: nat :: fewer < steps ==> !LeadsToRoot(parent, x, fewer)
  {
    assert ReachesRoot(parent, x);
    var bound: nat :| LeadsToRoot(parent, x, bound);
    LeastSteps(parent, x, bound)
  }

  /** The representative `x` leads to. */
  ghost function RootOf(parent: seq<nat>, x: nat): (root: nat)
    requires Rooted(parent) && x < |parent|
    ensures root < |parent| && parent[root] == root
  {
    Follow(parent, x, Depth(parent, x))
  }

  /** The representatives of all indices. */
  ghost function Roots(parent: seq<nat>): (roots: seq<nat>)
    requires Rooted(parent)
    ensures |roots| == |parent|
    ensures forall x :: 0 <= x < |parent| ==> roots[x] == RootOf(parent, x)
  {
    seq(|parent|, x requires 0 <= x < |parent| => RootOf(parent, x))
  }

  /**
   A certificate that a parent array is a forest: `rep` is constant along links
   and `rank` rises strictly along them. The program keeps no rank; proofs do.
   */
  ghost predicate Forest(parent: seq<nat>, rep: seq<nat>, rank: seq<nat>) {
    && |rep| == |rank| == |parent|
    && InBounds(parent)
    && InBounds(rep)
    && forall x: nat :: x < |parent| ==> Certified(parent, rep, rank, x)
  }

  ghost predicate Certified(parent: seq<nat>, rep: seq<nat>, rank: seq<nat>, x: nat)
    requires |rep| == |rank| == |parent| && InBounds(parent) && InBounds(rep) && x < |parent|
  {
    && rep[parent[x]] == rep[x]
    && (parent[x] == x <==> rep[x] == x)
    && rep[rep[x]] == rep[x]
    && rank[x] <= rank[rep[x]]
    && (parent[x] != x ==> rank[x] < rank[parent[x]])
  }

  /** From a root, following links goes nowhere. */
  lemma {:induction false} FollowStaysAtRoot(parent: seq<nat>, x: nat, steps: nat)
    requires InBounds(parent) && x < |parent| && parent[x] == x
    ensures Follow(parent, x, steps) == x
  {
    if steps > 0 {
      FollowStaysAtRoot(parent, x, steps - 1);
    }
  }

  /** Whatever number of steps ends at a root, it is the same root. */
  lemma {:induction false} RootIsUnique(parent: seq<nat>, x: nat, m: nat, n: nat)
    requires InBounds(parent) && x < |parent|
    requires LeadsToRoot(parent, x, m) && LeadsToRoot(parent, x, n)
    ensures Follow(parent, x, m) == Follow(parent, x, n)
    decreases m
  {
    if parent[x] == x {
      FollowStaysAtRoot(parent, x, m);
      FollowStaysAtRoot(parent, x, n);
    } else {
      assert m > 0 && n > 0;
      RootIsUnique(parent, parent[x], m - 1, n - 1);
    }
  }

  /** In a certified forest every index leads to its `rep`. */
  lemma {:induction false} ForestLeadsToRep(parent: seq<nat>, rep: seq<nat>, rank: seq<nat>, x: nat)
    returns (steps: nat)
    requires Forest(parent, rep, rank) && x < |parent|
    ensures LeadsToRoot(parent, x, steps) && Follow(parent, x, steps) == rep[x]
    decreases rank[rep[x]] as int - rank[x] as int
  {
    assert Certified(parent, rep, rank, x);
    if parent[x] == x {
      steps := 0;
    } else {
      assert Certified(parent, rep, rank, parent[x]);
      var rest := ForestLeadsToRep(parent, rep, rank, parent[x]);
      steps := rest + 1;
    }
  }

  /** A certificate makes the array rooted, and its `rep` is the representative map. */
  lemma ForestIsRooted(parent: seq<nat>, rep: seq<nat>, rank: seq<nat>)
    requires Forest(parent, rep, rank)
    ensures Rooted(parent) && Roots(parent) == rep
  {
    forall x: nat | x < |parent|
      ensures ReachesRoot(parent, x)
    {
      var steps := ForestLeadsToRep(parent, rep, rank, x);
    }
    forall x: nat | x < |parent|
      ensures RootOf(parent, x) == rep[x]
    {
      var steps := ForestLeadsToRep(parent, rep, rank, x);
      RootIsUnique(parent, x, steps, Depth(parent, x));
    }
  }

  ghost function MaxDepth(parent: seq<nat>, upTo: nat): (most: nat)
    requires Rooted(parent) && upTo <= |parent|
    ensures forall x: nat :: x < upTo ==> Depth(parent, x) <= most
  {
    if upTo == 0 then 0
    else
      var rest := MaxDepth(parent, upTo - 1);
      if Depth(parent, upTo - 1) > rest then Depth(parent, upTo - 1) else rest
  }

  lemma DepthDropsAlongLink(parent: seq<nat>, x: nat)
    requires Rooted(parent) && x < |parent| && parent[x] != x
    ensures Depth(parent, x) == Depth(parent, parent[x]) + 1
  {
    var d, e := Depth(parent, x), Depth(parent, parent[x]);
    assert d > 0;
    assert LeadsToRoot(parent, parent[x], d - 1);
    assert LeadsToRoot(parent, x, e + 1);
  }

  lemma RootOfParent(parent: seq<nat>, x: nat)
    requires Rooted(parent) && x < |parent|
    ensures RootOf(parent, parent[x]) == RootOf(parent, x)
    ensures parent[x] == x <==> RootOf(parent, x) == x
  {
    var here, there := Depth(parent, x), Depth(parent, parent[x]);
    if parent[x] == x {
      RootIsUnique(parent, x, here, there);
      assert LeadsToRoot(parent, x, 0);
      RootIsUnique(parent, x, here, 0);
    } else {
      assert LeadsToRoot(parent, x, there + 1);
      RootIsUnique(parent, x, here, there + 1);
    }
  }

  /** Conversely, every rooted array has a certificate: no stored rank is needed. */
  lemma RootedIsForest(parent: seq<nat>) returns (rank: seq<nat>)
    requires Rooted(parent)
    ensures Forest(parent, Roots(parent), rank)
  {
    var most := MaxDepth(parent, |parent|);
    rank := seq(|parent|, x requires 0 <= x < |parent| => most - Depth(parent, x));
    var rep := Roots(parent);
    forall x: nat | x < |parent|
      ensures Certified(parent, rep, rank, x)
    {
      RootOfParent(parent, x);
      RootOfParent(parent, rep[x]);
      assert LeadsToRoot(parent, rep[x], 0);
      if parent[x] != x {
        DepthDropsAlongLink(parent, x);
      }
    }
  }

  /** Pointing a non-root at its grandparent keeps the same certificate. */
  lemma HalvingKeepsForest(parent: seq<nat>, rep: seq<nat>, rank: seq<nat>, x: nat)
    requires Forest(parent, rep, rank) && x < |parent| && parent[x] != x
    ensures Forest(parent[x := parent[parent[x]]], rep, rank)
    ensures rank[x] < rank[parent[parent[x]]]
  {
    var p := parent[x];
    assert Certified(parent, rep, rank, x) && Certified(parent, rep, rank, p);
    var halved := parent[x := parent[p]];
    forall y: nat | y < |parent|
      ensures Certified(halved, rep, rank, y)
    {
      assert Certified(parent, rep, rank, y);
    }
  }

  /**
   `find` with path halving. It needs only that every chain ends, and although it
   rewrites the array as it walks, no index changes representative.
   */
  method Find(parent: array<nat>, start: nat) returns (root: nat)
    requires Rooted(parent[..]) && start < parent.Length
    modifies parent
    ensures Rooted(parent[..]) && Roots(parent[..]) == old(Roots(parent[..]))
    ensures root == Roots(parent[..])[start]
    ensures parent[root] == root
  {
    ghost var rep := Roots(parent[..]);
    ghost var rank := RootedIsForest(parent[..]);
    var x: nat := start;
    while parent[x] != x
      invariant x < parent.Length
      invariant Forest(parent[..], rep, rank)
      invariant rep[x] == rep[start]
      decreases rank[rep[start]] as int - rank[x] as int
    {
      assert Certified(parent[..], rep, rank, x) && Certified(parent[..], rep, rank, parent[x]);
      HalvingKeepsForest(parent[..], rep, rank, x);
      ghost var halved := parent[..][x := parent[parent[x]]];
      parent[x] := parent[parent[x]];
      assert parent[..] == halved;
      x := parent[x];
      assert Certified(parent[..], rep, rank, x);
    }
    assert Certified(parent[..], rep, rank, x);
    ForestIsRooted(parent[..], rep, rank);
    root := x;
  }

  /** The representative map after class `from` is merged into class `into`. */
  ghost function Redirect(roots: seq<nat>, from: nat, into: nat): (merged: seq<nat>)
    ensures |merged| == |roots|
    ensures forall x :: 0 <= x < |roots| ==> merged[x] == if roots[x] == from then into else roots[x]
  {
    seq(|roots|, x requires 0 <= x < |roots| => if roots[x] == from then into else roots[x])
  }

  /** Hanging one root under another merges exactly their two classes. */
  lemma LinkKeepsForest(parent: seq<nat>, rep: seq<nat>, rank: seq<nat>, from: nat, into: nat)
    requires Forest(parent, rep, rank)
    requires from < |parent| && into < |parent| && from != into
    requires parent[from] == from && parent[into] == into
    ensures Rooted(parent[from := into])
    ensures Roots(parent[from := into]) == Redirect(rep, from, into)
  {
    var linked := parent[from := into];
    var raised := rank[into := rank[from] + rank[into] + 1];
    var merged := Redirect(rep, from, into);
    assert Certified(parent, rep, rank, from) && Certified(parent, rep, rank, into);
    forall x: nat | x < |parent|
      ensures Certified(linked, merged, raised, x)
    {
      assert Certified(parent, rep, rank, x);
    }
    ForestIsRooted(linked, merged, raised);
  }

  /** Hangs the root of `i` under the root of `j`: exactly those two classes become one. */
  method Union(parent: array<nat>, i: nat, j: nat)
    requires Rooted(parent[..]) && i < parent.Length && j < parent.Length
    modifies parent
    ensures Rooted(parent[..])
    ensures var before := old(Roots(parent[..])); Roots(parent[..]) == Redirect(before, before[i], before[j])
  {
    var rootI := Find(parent, i);
    var rootJ := Find(parent, j);
    ghost var rep := Roots(parent[..]);
    ghost var rank := RootedIsForest(parent[..]);
    if rootI != rootJ {
      LinkKeepsForest(parent[..], rep, rank, rootI, rootJ);
      ghost var linked := parent[..][rootI := rootJ];
      parent[rootI] := rootJ;
      assert parent[..] == linked;
    } else {
      assert Redirect(rep, rootI, rootJ) == rep;
    }
  }
}
