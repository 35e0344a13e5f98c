/** Rust's stable `sort_by`, as an insertion sort over an explicit order. */
module Sorting {

  ghost predicate TotalPreorder<T(!new)>(le: (T, T) -> bool) {
    && (forall x, y :: le(x, y) || le(y, x))
    && (forall x, y, z :: le(x, y) && le(y, z) ==> le(x, z))
  }

  ghost predicate Sorted<T>(le: (T, T) -> bool, xs: seq<T>) {
    forall i, j :: 0 <= i < j < |xs| ==> le(xs[i], xs[j])
  }

  /** Puts `x` before the first element it does not exceed, so equal elements keep their order. */
  function Insert<T>(le: (T, T) -> bool, x: T, xs: seq<T>): (r: seq<T>)
    ensures multiset(r) == multiset{x} + multiset(xs)
    ensures |r| == |xs| + 1
  {
    if xs == [] then [x]
    else if le(x, xs[0]) then
      assert [x] + xs == [x] + xs;
      [x] + xs
    else
      assert xs == [xs[0]] + xs[1..];
      [xs[0]] + Insert(le, x, xs[1..])
  }

  function Sort<T>(le: (T, T) -> bool, xs: seq<T>): (r: seq<T>)
    ensures multiset(r) == multiset(xs)
    ensures |r| == |xs|
  {
    if xs == [] then []
    else
      assert xs == [xs[0]] + xs[1..];
      Insert(le, xs[0], Sort(le, xs[1..]))
  }

  lemma {:induction false} InsertKeepsSorted<T(!new)>(le: (T, T) -> bool, x: T, xs: seq<T>)
    requires TotalPreorder(le) && Sorted(le, xs)
    ensures Sorted(le, Insert(le, x, xs))
  {
    if xs != [] && !le(x, xs[0]) {
      var rest := Insert(le, x, xs[1..]);
      InsertKeepsSorted(le, x, xs[1..]);
      forall y | y in rest ensures le(xs[0], y) {
        assert y in multiset(rest);
      }
    }
  }

  lemma {:induction false} SortSorts<T(!new)>(le: (T, T) -> bool, xs: seq<T>)
    requires TotalPreorder(le)
    ensures Sorted(le, Sort(le, xs))
  {
    if xs != [] {
      SortSorts(le, xs[1..]);
      InsertKeepsSorted(le, xs[0], Sort(le, xs[1..]));
    }
  }

  /** Elements that compare both ways are equal. */
  ghost predicate NoTies<T>(le: (T, T) -> bool, xs: seq<T>) {
    forall x, y :: x in xs && y in xs && le(x, y) && le(y, x) ==> x == y
  }

  predicate Tied<T>(le: (T, T) -> bool, x: T, y: T) {
    le(x, y) && le(y, x)
  }

  /** `truncate` */
  function Truncate<T>(xs: seq<T>, n: nat): seq<T> {
    if |xs| <= n then xs else xs[..n]
  }

  /** No element among the first `n` ties with a different one behind it. */
  ghost predicate UntiedTop<T>(le: (T, T) -> bool, xs: seq<T>, n: nat) {
    forall i, j :: 0 <= i < j < |xs| && i < n && Tied(le, xs[i], xs[j]) ==> xs[i] == xs[j]
  }

  lemma SortedHeadsAgree<T>(le: (T, T) -> bool, xs: seq<T>, ys: seq<T>)
    requires Sorted(le, xs) && Sorted(le, ys) && multiset(xs) == multiset(ys)
    requires UntiedTop(le, xs, 1) && xs != [] && ys != []
    ensures xs[0] == ys[0]
  {
    assert xs[0] in multiset(ys) && ys[0] in multiset(xs);
    var i :| 0 <= i < |ys| && ys[i] == xs[0];
    var j :| 0 <= j < |xs| && xs[j] == ys[0];
    if i > 0 && j > 0 {
      assert Tied(le, xs[0], xs[j]);
    }
  }

  lemma TruncateCons<T>(xs: seq<T>, n: nat)
    requires xs != [] && n > 0
    ensures Truncate(xs, n) == [xs[0]] + Truncate(xs[1..], n - 1)
  {
  }

  lemma UntiedTail<T>(le: (T, T) -> bool, xs: seq<T>, n: nat)
    requires Sorted(le, xs) && UntiedTop(le, xs, n) && xs != [] && n > 0
    ensures Sorted(le, xs[1..]) && UntiedTop(le, xs[1..], n - 1)
    ensures multiset(xs[1..]) == multiset(xs) - multiset{xs[0]}
  {
    assert xs == [xs[0]] + xs[1..];
  }

  lemma SortedTail<T>(le: (T, T) -> bool, xs: seq<T>)
    requires Sorted(le, xs) && xs != []
    ensures Sorted(le, xs[1..]) && multiset(xs[1..]) == multiset(xs) - multiset{xs[0]}
  {
    assert xs == [xs[0]] + xs[1..];
  }

  /** Sorted arrangements of the same elements agree as far as no two elements tie. */
  lemma {:induction false} SortedTopsAgree<T>(le: (T, T) -> bool, xs: seq<T>, ys: seq<T>, n: nat)
    requires Sorted(le, xs) && Sorted(le, ys) && multiset(xs) == multiset(ys)
    requires UntiedTop(le, xs, n)
    ensures Truncate(xs, n) == Truncate(ys, n)
  {
    assert |xs| == |multiset(xs)| == |multiset(ys)| == |ys|;
    if xs != [] && n > 0 {
      SortedHeadsAgree(le, xs, ys);
      UntiedTail(le, xs, n);
      SortedTail(le, ys);
      SortedTopsAgree(le, xs[1..], ys[1..], n - 1);
      TruncateCons(xs, n);
      TruncateCons(ys, n);
    }
  }

  /** Sorting forgets the order of its input when no two elements tie. */
  lemma SortForgetsOrder<T(!new)>(le: (T, T) -> bool, xs: seq<T>, ys: seq<T>)
    requires TotalPreorder(le) && multiset(xs) == multiset(ys)
    requires NoTies(le, xs)
    ensures Sort(le, xs) == Sort(le, ys)
  {
    SortSorts(le, xs);
    SortSorts(le, ys);
    forall x | x in Sort(le, xs) ensures x in xs {
      assert x in multiset(Sort(le, xs));
    }
    assert |ys| == |multiset(ys)| == |multiset(xs)| == |xs|;
    SortedTopsAgree(le, Sort(le, xs), Sort(le, ys), |xs|);
  }

  // ---- When sorting forgets the order of its input ----

  lemma {:induction false} SortOfSorted<T>(le: (T, T) -> bool, xs: seq<T>)
    requires Sorted(le, xs)
    ensures Sort(le, xs) == xs
  {
    if xs != [] {
      SortOfSorted(le, xs[1..]);
      assert xs == [xs[0]] + xs[1..];
      assert |xs| > 1 ==> le(xs[0], xs[1]);
    }
  }

  function Swapped<T>(xs: seq<T>, i: nat, j: nat): (r: seq<T>)
    requires i < j < |xs|
    ensures multiset(r) == multiset(xs)
  {
    xs[i := xs[j]][j := xs[i]]
  }

  /** Tied elements of a sorted list may change places. */
  lemma SwappedStaysSorted<T(!new)>(le: (T, T) -> bool, xs: seq<T>, i: nat, j: nat)
    requires TotalPreorder(le) && Sorted(le, xs) && i < j < |xs| && Tied(le, xs[i], xs[j])
    ensures Sorted(le, Swapped(xs, i, j))
  {
    var ys := Swapped(xs, i, j);
    forall k | 0 <= k < |xs| ensures le(xs[k], ys[k]) && le(ys[k], xs[k]) {
      assert le(xs[k], xs[k]);
    }
    forall a, b | 0 <= a < b < |ys| ensures le(ys[a], ys[b]) {
      assert le(xs[a], xs[b]);
      assert le(ys[a], xs[b]);
    }
  }

  /** However the same elements are arranged before sorting, the first `n` come out alike. */
  ghost predicate StableTop<T(!new)>(le: (T, T) -> bool, xs: seq<T>, n: nat) {
    forall ys, zs :: multiset(ys) == multiset(xs) && multiset(zs) == multiset(xs) ==>
      Truncate(Sort(le, ys), n) == Truncate(Sort(le, zs), n)
  }

  /** That is so exactly when no element among the first `n` ties with a different one behind it. */
  lemma TopIsStableIffUntied<T(!new)>(le: (T, T) -> bool, xs: seq<T>, n: nat)
    requires TotalPreorder(le)
    ensures StableTop(le, xs, n) <==> UntiedTop(le, Sort(le, xs), n)
  {
    var sorted := Sort(le, xs);
    SortSorts(le, xs);
    if UntiedTop(le, sorted, n) {
      forall ys, zs | multiset(ys) == multiset(xs) && multiset(zs) == multiset(xs)
        ensures Truncate(Sort(le, ys), n) == Truncate(Sort(le, zs), n)
      {
        SortSorts(le, ys);
        SortSorts(le, zs);
        SortedTopsAgree(le, sorted, Sort(le, ys), n);
        SortedTopsAgree(le, sorted, Sort(le, zs), n);
      }
    } else {
      var i, j :| 0 <= i < j < |sorted| && i < n && Tied(le, sorted[i], sorted[j]) && sorted[i] != sorted[j];
      TieShows(le, sorted, i, j, n);
      assert multiset(sorted) == multiset(Swapped(sorted, i, j)) == multiset(xs);
    }
  }

  lemma TruncatesDiffer<T>(xs: seq<T>, ys: seq<T>, i: nat, n: nat)
    requires |xs| == |ys| && i < |xs| && i < n && xs[i] != ys[i]
    ensures Truncate(xs, n) != Truncate(ys, n)
  {
    assert Truncate(xs, n)[i] == xs[i] && Truncate(ys, n)[i] == ys[i];
  }

  lemma TieShows<T(!new)>(le: (T, T) -> bool, sorted: seq<T>, i: nat, j: nat, n: nat)
    requires TotalPreorder(le) && Sorted(le, sorted)
    requires i < j < |sorted| && i < n && Tied(le, sorted[i], sorted[j]) && sorted[i] != sorted[j]
    ensures Truncate(Sort(le, sorted), n) != Truncate(Sort(le, Swapped(sorted, i, j)), n)
  {
    SwappedStaysSorted(le, sorted, i, j);
    SortOfSorted(le, sorted);
    SortOfSorted(le, Swapped(sorted, i, j));
    TruncatesDiffer(sorted, Swapped(sorted, i, j), i, n);
  }

  lemma NoTiesIffUntied<T>(le: (T, T) -> bool, xs: seq<T>)
    ensures NoTies(le, xs) <==> UntiedTop(le, xs, |xs|)
  {
    if UntiedTop(le, xs, |xs|) {
      forall x, y | x in xs && y in xs && le(x, y) && le(y, x) ensures x == y {
        var i :| 0 <= i < |xs| && xs[i] == x;
        var j :| 0 <= j < |xs| && xs[j] == y;
        assert Tied(le, xs[i], xs[j]) && Tied(le, xs[j], xs[i]);
      }
    } else {
      var i, j :| 0 <= i < j < |xs| && Tied(le, xs[i], xs[j]) && xs[i] != xs[j];
      assert xs[i] in xs && xs[j] in xs;
    }
  }

  /** In full: every arrangement sorts alike exactly when no two different elements tie. */
  lemma SortIsStableIffNoTies<T(!new)>(le: (T, T) -> bool, xs: seq<T>)
    requires TotalPreorder(le)
    ensures StableTop(le, xs, |xs|) <==> NoTies(le, xs)
  {
    TopIsStableIffUntied(le, xs, |xs|);
    NoTiesIffUntied(le, Sort(le, xs));
    SameMembers(Sort(le, xs), xs);
  }

  lemma SameMembers<T>(xs: seq<T>, ys: seq<T>)
    requires multiset(xs) == multiset(ys)
    ensures forall x :: x in xs <==> x in ys
  {
    forall x ensures x in xs <==> x in ys {
      assert x in multiset(xs) <==> x in multiset(ys);
    }
  }

  /** Byte-wise comparison of strings, as `Ord for str`. */
  predicate TextLe(a: string, b: string) {
    a == [] || (b != [] && (a[0] < b[0] || (a[0] == b[0] && TextLe(a[1..], b[1..]))))
  }

  /** The texts first differ at `i`, where `a` has the smaller character. */
  predicate SmallerAt(a: string, b: string, i: nat) {
    i < |a| && i < |b| && a[..i] == b[..i] && a[i] < b[i]
  }

  lemma SmallerBehindHead(a: string, b: string, i: nat)
    requires a != [] && b != [] && a[0] == b[0]
    ensures SmallerAt(a, b, i + 1) <==> SmallerAt(a[1..], b[1..], i)
  {
    if i < |a[1..]| && i < |b[1..]| {
      assert a[..i + 1] == [a[0]] + a[1..][..i] && b[..i + 1] == [b[0]] + b[1..][..i];
      assert a[..i + 1][1..] == a[1..][..i] && b[..i + 1][1..] == b[1..][..i];
    }
  }

  /** At the first difference the smaller character decides; a prefix comes first. */
  lemma {:induction false} TextLeIsLexicographic(a: string, b: string)
    ensures TextLe(a, b) <==> a <= b || exists i :: SmallerAt(a, b, i)
  {
    if a != [] && b != [] && a[0] == b[0] {
      TextLeIsLexicographic(a[1..], b[1..]);
      assert a == [a[0]] + a[1..] && b == [b[0]] + b[1..];
      assert !SmallerAt(a, b, 0);
      if i: nat :| SmallerAt(a, b, i) {
        SmallerBehindHead(a, b, i - 1);
      }
      if i :| SmallerAt(a[1..], b[1..], i) {
        SmallerBehindHead(a, b, i);
      }
    } else if a != [] && b != [] {
      assert SmallerAt(a, b, 0) <==> a[0] < b[0];
      assert forall i :: i > 0 && i < |a| && i < |b| ==> a[..i][0] != b[..i][0];
    }
  }

  lemma {:induction false} TextLeTotal(a: string, b: string)
    ensures TextLe(a, b) || TextLe(b, a)
  {
    if a != [] && b != [] {
      TextLeTotal(a[1..], b[1..]);
    }
  }

  lemma {:induction false} TextLeTransitive(a: string, b: string, c: string)
    requires TextLe(a, b) && TextLe(b, c)
    ensures TextLe(a, c)
  {
    if a != [] && a[0] == b[0] && b[0] == c[0] {
      TextLeTransitive(a[1..], b[1..], c[1..]);
    }
  }

  lemma {:induction false} TextLeAntisymmetric(a: string, b: string)
    requires TextLe(a, b) && TextLe(b, a)
    ensures a == b
  {
    if a != [] {
      TextLeAntisymmetric(a[1..], b[1..]);
      assert a == [a[0]] + a[1..] && b == [b[0]] + b[1..];
    }
  }
}
