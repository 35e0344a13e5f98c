/** Filtering a sequence from the left, and counting facts about duplicate-free lists and sets. */
module Filtering {

  function Select<T(!new)>(keep: T -> bool, xs: seq<T>): (r: seq<T>)
    ensures |r| <= |xs|
  {
    if xs == [] then []
    else
      var last := xs[|xs| - 1];
      Select(keep, xs[..|xs| - 1]) + if keep(last) then [last] else []
  }

  lemma {:induction false} SelectMembers<T(!new)>(keep: T -> bool, xs: seq<T>)
    ensures forall x :: x in Select(keep, xs) <==> x in xs && keep(x)
  {
    if xs != [] {
      SelectMembers(keep, xs[..|xs| - 1]);
      assert xs == xs[..|xs| - 1] + [xs[|xs| - 1]];
    }
  }

  lemma {:induction false} SelectConcat<T(!new)>(keep: T -> bool, xs: seq<T>, ys: seq<T>)
    ensures Select(keep, xs + ys) == Select(keep, xs) + Select(keep, ys)
  {
    if ys == [] {
      assert xs + ys == xs;
    } else {
      var init := ys[..|ys| - 1];
      assert (xs + ys)[..|xs + ys| - 1] == xs + init;
      SelectConcat(keep, xs, init);
    }
  }

  lemma SelectAppend<T(!new)>(keep: T -> bool, xs: seq<T>, x: T)
    ensures Select(keep, xs + [x]) == if keep(x) then Select(keep, xs) + [x] else Select(keep, xs)
  {
    assert (xs + [x])[..|xs|] == xs;
  }

  lemma {:induction false} SelectAll<T(!new)>(keep: T -> bool, xs: seq<T>)
    requires forall x :: x in xs ==> keep(x)
    ensures Select(keep, xs) == xs
  {
    if xs != [] {
      SelectAll(keep, xs[..|xs| - 1]);
      assert xs == xs[..|xs| - 1] + [xs[|xs| - 1]];
    }
  }

  lemma {:induction false} SelectDropsIffSomeFails<T(!new)>(keep: T -> bool, xs: seq<T>)
    ensures |Select(keep, xs)| == |xs| <==> forall x :: x in xs ==> keep(x)
  {
    if xs != [] {
      SelectDropsIffSomeFails(keep, xs[..|xs| - 1]);
      assert xs == xs[..|xs| - 1] + [xs[|xs| - 1]];
    }
  }

  lemma {:induction false} SelectAgrees<T(!new)>(p: T -> bool, q: T -> bool, xs: seq<T>)
    requires forall x :: x in xs ==> (p(x) <==> q(x))
    ensures Select(p, xs) == Select(q, xs)
  {
    if xs != [] {
      SelectAgrees(p, q, xs[..|xs| - 1]);
    }
  }

  /** Selecting twice is selecting once, when the first selection spares what the second keeps. */
  lemma {:induction false} SelectWithin<T(!new)>(keep: T -> bool, wide: T -> bool, xs: seq<T>)
    requires forall x :: x in xs && keep(x) ==> wide(x)
    ensures Select(keep, Select(wide, xs)) == Select(keep, xs)
  {
    if xs != [] {
      var init, last := xs[..|xs| - 1], xs[|xs| - 1];
      assert xs == init + [last] && last in xs;
      SelectWithin(keep, wide, init);
      SelectAppend(wide, init, last);
      SelectAppend(keep, init, last);
      SelectAppend(keep, Select(wide, init), last);
    }
  }

  lemma SelectNone<T(!new)>(keep: T -> bool, xs: seq<T>)
    requires forall x :: x in xs ==> !keep(x)
    ensures Select(keep, xs) == []
  {
    SelectMembers(keep, xs);
    assert forall x :: x !in Select(keep, xs);
  }

  lemma SelectWithout<T(!new)>(keep: T -> bool, before: seq<T>, x: T, after: seq<T>)
    ensures |Select(keep, before + [x] + after)| == |Select(keep, before + after)| + if keep(x) then 1 else 0
  {
    SelectConcat(keep, before, after);
    SelectConcat(keep, before + [x], after);
    SelectAppend(keep, before, x);
  }

  /** An element taken out of a list that holds a smaller one with it. */
  lemma TakeOut<T>(init: seq<T>, last: T, many: seq<T>) returns (before: seq<T>, after: seq<T>)
    requires multiset(init) + multiset{last} <= multiset(many)
    ensures many == before + [last] + after && multiset(init) <= multiset(before + after)
  {
    assert last in multiset(many);
    var i :| 0 <= i < |many| && many[i] == last;
    before, after := many[..i], many[i + 1..];
    assert many == before + [last] + after;
    var rest := multiset(before + after);
    assert multiset(many) == rest + multiset{last};
    forall x ensures multiset(init)[x] <= rest[x] {
      assert (multiset(init) + multiset{last})[x] <= (rest + multiset{last})[x];
    }
  }

  lemma {:induction false} SelectMonotone<T(!new)>(keep: T -> bool, few: seq<T>, many: seq<T>)
    requires multiset(few) <= multiset(many)
    ensures |Select(keep, few)| <= |Select(keep, many)|
  {
    if few != [] {
      var init, last := few[..|few| - 1], few[|few| - 1];
      assert few == init + [last];
      var before, after := TakeOut(init, last, many);
      SelectMonotone(keep, init, before + after);
      SelectWithout(keep, before, last, after);
    }
  }

  /** Rearranging a list keeps the size of every selection. */
  lemma SelectPermuted<T(!new)>(keep: T -> bool, xs: seq<T>, ys: seq<T>)
    requires multiset(xs) == multiset(ys)
    ensures |Select(keep, xs)| == |Select(keep, ys)|
  {
    SelectMonotone(keep, xs, ys);
    SelectMonotone(keep, ys, xs);
  }

  ghost predicate NoRepeats<T>(xs: seq<T>) {
    forall i, j :: 0 <= i < j < |xs| ==> xs[i] != xs[j]
  }

  lemma {:induction false} NoRepeatsCount<T>(xs: seq<T>, x: T)
    requires NoRepeats(xs)
    ensures multiset(xs)[x] <= 1
  {
    if xs != [] {
      assert xs == xs[..|xs| - 1] + [xs[|xs| - 1]];
      NoRepeatsCount(xs[..|xs| - 1], x);
    }
  }

  lemma RepeatCount<T>(xs: seq<T>, i: nat, j: nat)
    requires i < j < |xs| && xs[i] == xs[j]
    ensures multiset(xs)[xs[i]] >= 2
  {
    assert xs == xs[..j] + [xs[j]] + xs[j + 1..];
    assert xs[..j][i] in multiset(xs[..j]);
  }

  /** Two halves of a duplicate-free list have no repeats and nothing in common. */
  lemma HalvesOfNoRepeats<T>(a: seq<T>, b: seq<T>, whole: seq<T>)
    requires NoRepeats(whole) && multiset(a) + multiset(b) == multiset(whole)
    ensures NoRepeats(a) && NoRepeats(b)
    ensures forall x :: x in whole <==> x in a || x in b
    ensures forall x :: x in a ==> x !in b
  {
    forall i, j | 0 <= i < j < |a| ensures a[i] != a[j] {
      NoRepeatsCount(whole, a[i]);
      if a[i] == a[j] {
        RepeatCount(a, i, j);
      }
    }
    forall i, j | 0 <= i < j < |b| ensures b[i] != b[j] {
      NoRepeatsCount(whole, b[i]);
      if b[i] == b[j] {
        RepeatCount(b, i, j);
      }
    }
    forall x ensures x in whole <==> x in a || x in b {
      assert x in whole <==> x in multiset(whole);
    }
    forall x | x in a ensures x !in b {
      NoRepeatsCount(whole, x);
      assert x in multiset(a) && (x in b <==> x in multiset(b));
    }
  }

  /** Taking the last element of a list out of any rearrangement leaves a rearrangement of the rest. */
  lemma RemoveFromPermutation<T>(init: seq<T>, last: T, b: seq<T>) returns (i: nat)
    requires multiset(init + [last]) == multiset(b)
    ensures i < |b| && b[i] == last && b == b[..i] + [last] + b[i + 1..]
    ensures multiset(b[..i] + b[i + 1..]) == multiset(init)
  {
    assert last in multiset(b);
    i :| 0 <= i < |b| && b[i] == last;
    assert b == b[..i] + [last] + b[i + 1..];
    AddsOne(b[..i], last, b[i + 1..]);
    CancelOne(multiset(b[..i] + b[i + 1..]), multiset(init), last);
  }

  lemma AddsOne<T>(before: seq<T>, x: T, after: seq<T>)
    ensures multiset(before + [x] + after) == multiset(before + after) + multiset{x}
  {
  }

  lemma CancelOne<T>(a: multiset<T>, b: multiset<T>, x: T)
    requires a + multiset{x} == b + multiset{x}
    ensures a == b
  {
    assert a == (a + multiset{x}) - multiset{x};
    assert b == (b + multiset{x}) - multiset{x};
  }

  lemma PermutationKeepsNoRepeats<T>(xs: seq<T>, ys: seq<T>)
    requires NoRepeats(xs) && multiset(xs) == multiset(ys)
    ensures NoRepeats(ys)
    ensures forall x :: x in xs <==> x in ys
  {
    var none: seq<T> := [];
    HalvesOfNoRepeats(ys, none, xs);
  }

  /** A duplicate-free list drawn from another is no bigger as a multiset. */
  lemma {:induction false} NoRepeatsWithin<T>(xs: seq<T>, ys: seq<T>)
    requires NoRepeats(xs) && forall x :: x in xs ==> x in ys
    ensures multiset(xs) <= multiset(ys)
  {
    forall x ensures multiset(xs)[x] <= multiset(ys)[x] {
      NoRepeatsCount(xs, x);
      if x in multiset(xs) {
        assert x in xs && x in ys && x in multiset(ys);
      }
    }
  }

  function ToSet<T>(xs: seq<T>): set<T> {
    set x | x in xs
  }

  /** A duplicate-free list has as many elements as it has distinct ones. */
  lemma {:induction false} DistinctCount<T>(xs: seq<T>)
    requires NoRepeats(xs)
    ensures |ToSet(xs)| == |xs|
  {
    if xs != [] {
      var init, last := xs[..|xs| - 1], xs[|xs| - 1];
      DistinctCount(init);
      assert xs == init + [last] && last !in init;
      assert ToSet(xs) == ToSet(init) + {last};
    }
  }

  lemma {:induction false} SubsetIsSmaller<T>(small: set<T>, large: set<T>)
    requires small <= large
    ensures |small| <= |large|
  {
    if small != {} {
      var x :| x in small;
      SubsetIsSmaller(small - {x}, large - {x});
    }
  }
}
