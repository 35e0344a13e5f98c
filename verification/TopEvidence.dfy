/**
 Subunit evidence (crates/retrieval/src/graph_search.rs): the mean of the k largest
 subunit scores, found by sorting. It is the best mean any k subunits have.
 */
module TopEvidence {
  import opened Wrappers
  import opened Sorting

  function Descending(): (real, real) -> bool {
    (a: real, b: real) => a >= b
  }

  function Sum(xs: seq<real>): real {
    if xs == [] then 0.0 else xs[0] + Sum(xs[1..])
  }

  /** `subunit_evidence` as the program computes it. */
  function SubunitEvidence(scores: seq<real>, maxSubunits: nat): real {
    var k := Min(|scores|, maxSubunits);
    if k == 0 then 0.0 else Sum(Sort(Descending(), scores)[..k]) / (k as real)
  }

  // ---- Choosing subunits ----

  function Chosen(choice: seq<bool>): nat {
    if choice == [] then 0 else (if choice[0] then 1 else 0) + Chosen(choice[1..])
  }

  /** The sum of the scores a choice picks out. */
  function ChoiceSum(scores: seq<real>, choice: seq<bool>): real
    requires |choice| == |scores|
  {
    if scores == [] then 0.0 else (if choice[0] then scores[0] else 0.0) + ChoiceSum(scores[1..], choice[1..])
  }

  lemma DescendingIsOrder()
    ensures TotalPreorder(Descending())
  {
  }

  lemma {:induction false} SumPrefixStep(s: seq<real>, k: nat)
    requires 0 < k <= |s|
    ensures Sum(s[..k]) == Sum(s[..k - 1]) + s[k - 1]
  {
    if k > 1 {
      SumPrefixStep(s[1..], k - 1);
      assert s[..k][1..] == s[1..][..k - 1] && s[..k - 1][1..] == s[1..][..k - 2];
    }
  }

  /** How the sum of a new top k relates to the old tops: it takes the value in or leaves it out, whichever is more. */
  predicate TopStep(top: real, x: real, s: seq<real>, k: nat)
    requires k <= |s| + 1
  {
    && (k >= 1 ==> top >= x + Sum(s[..k - 1]))
    && (k <= |s| ==> top >= Sum(s[..k]))
    && ((k >= 1 && top == x + Sum(s[..k - 1])) || (k <= |s| && top == Sum(s[..k])))
  }

  lemma PrependTop(x: real, s: seq<real>, k: nat)
    requires Sorted(Descending(), s) && k <= |s| + 1 && (s == [] || x >= s[0])
    ensures TopStep(Sum(([x] + s)[..k]), x, s, k)
  {
    if k > 0 {
      assert ([x] + s)[..k][1..] == s[..k - 1];
      if k <= |s| {
        SumPrefixStep(s, k);
        assert k == 1 || Descending()(s[0], s[k - 1]);
      }
    }
  }

  lemma PrefixCons(head: real, tail: seq<real>, k: nat)
    requires 0 < k <= |tail| + 1
    ensures Sum(([head] + tail)[..k]) == head + Sum(tail[..k - 1])
  {
    assert ([head] + tail)[..k][1..] == tail[..k - 1];
  }

  lemma BehindHead(x: real, s: seq<real>, inserted: seq<real>, k: nat)
    requires s != [] && |inserted| == |s| && 0 < k <= |s| + 1 && x < s[0]
    requires TopStep(Sum(inserted[..k - 1]), x, s[1..], k - 1)
    ensures TopStep(Sum(([s[0]] + inserted)[..k]), x, s, k)
  {
    var head, tail := s[0], s[1..];
    assert s == [head] + tail;
    PrefixCons(head, inserted, k);
    if k <= |tail| + 1 {
      PrefixCons(head, tail, k);
    }
    if k > 1 {
      PrefixCons(head, tail, k - 1);
    }
  }

  lemma InsertsBehindHead(x: real, s: seq<real>)
    requires s != [] && x < s[0]
    ensures Insert(Descending(), x, s) == [s[0]] + Insert(Descending(), x, s[1..])
  {
  }

  lemma {:induction false} InsertTop(x: real, s: seq<real>, k: nat)
    requires Sorted(Descending(), s) && k <= |s| + 1
    ensures TopStep(Sum(Insert(Descending(), x, s)[..k]), x, s, k)
  {
    if s == [] || x >= s[0] {
      assert Insert(Descending(), x, s) == [x] + s;
      PrependTop(x, s, k);
    } else if k == 0 {
      assert Insert(Descending(), x, s)[..0] == s[..0] == [];
    } else {
      InsertsBehindHead(x, s);
      InsertTop(x, s[1..], k - 1);
      BehindHead(x, s, Insert(Descending(), x, s[1..]), k);
    }
  }

  /** No choice of k scores sums to more than the k largest. */
  lemma {:induction false} TopIsUpperBound(scores: seq<real>, choice: seq<bool>)
    requires |choice| == |scores|
    ensures Chosen(choice) <= |scores|
    ensures ChoiceSum(scores, choice) <= Sum(Sort(Descending(), scores)[..Chosen(choice)])
  {
    if scores != [] {
      var rest, k := Sort(Descending(), scores[1..]), Chosen(choice);
      TopIsUpperBound(scores[1..], choice[1..]);
      DescendingIsOrder();
      SortSorts(Descending(), scores[1..]);
      InsertTop(scores[0], rest, k);
    }
  }

  lemma Prepend(scores: seq<real>, take: bool, tail: seq<bool>)
    requires scores != [] && |tail| == |scores| - 1
    ensures Chosen([take] + tail) == Chosen(tail) + if take then 1 else 0
    ensures ChoiceSum(scores, [take] + tail) == ChoiceSum(scores[1..], tail) + if take then scores[0] else 0.0
  {
    assert ([take] + tail)[1..] == tail;
  }

  /** Some choice of k scores attains it. */
  lemma {:induction false} TopIsAttained(scores: seq<real>, k: nat) returns (choice: seq<bool>)
    requires k <= |scores|
    ensures |choice| == |scores| && Chosen(choice) == k
    ensures ChoiceSum(scores, choice) == Sum(Sort(Descending(), scores)[..k])
  {
    if scores == [] {
      choice := [];
    } else {
      var x, rest := scores[0], Sort(Descending(), scores[1..]);
      DescendingIsOrder();
      SortSorts(Descending(), scores[1..]);
      InsertTop(x, rest, k);
      var take := k >= 1 && Sum(Insert(Descending(), x, rest)[..k]) == x + Sum(rest[..k - 1]);
      var tail := TopIsAttained(scores[1..], if take then k - 1 else k);
      Prepend(scores, take, tail);
      choice := [take] + tail;
    }
  }

  /** The evidence is the greatest mean of any min(k, n) subunits, and 0 when there are none. */
  lemma EvidenceIsBestMean(scores: seq<real>, maxSubunits: nat)
    ensures var k, evidence := Min(|scores|, maxSubunits), SubunitEvidence(scores, maxSubunits);
      if k == 0 then evidence == 0.0
      else
        && (forall choice :: |choice| == |scores| && Chosen(choice) == k ==> ChoiceSum(scores, choice) / (k as real) <= evidence)
        && (exists choice :: |choice| == |scores| && Chosen(choice) == k && ChoiceSum(scores, choice) / (k as real) == evidence)
  {
    var k := Min(|scores|, maxSubunits);
    if k > 0 {
      forall choice | |choice| == |scores| && Chosen(choice) == k
        ensures ChoiceSum(scores, choice) / (k as real) <= SubunitEvidence(scores, maxSubunits)
      {
        TopIsUpperBound(scores, choice);
        DivideMonotone(ChoiceSum(scores, choice), Sum(Sort(Descending(), scores)[..k]), k as real);
      }
      var best := TopIsAttained(scores, k);
    }
  }

  lemma DivideMonotone(a: real, b: real, d: real)
    requires a <= b && d > 0.0
    ensures a / d <= b / d
  {
    assert b / d - a / d == (b - a) / d;
  }
}
