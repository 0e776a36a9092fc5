/**
 * `v.sort(); v.dedup();` over a strict total order: the result is the unique
 * strictly increasing sequence holding exactly the input's elements.
 */
module Sorting {

  ghost predicate StrictTotalOrder<T(!new)>(lt: (T, T) -> bool) {
    && (forall x :: !lt(x, x))
    && (forall x, y, z :: lt(x, y) && lt(y, z) ==> lt(x, z))
    && (forall x, y :: x != y ==> lt(x, y) || lt(y, x))
  }

  predicate StrictlySorted<T>(xs: seq<T>, lt: (T, T) -> bool) {
    forall i, j :: 0 <= i < j < |xs| ==> lt(xs[i], xs[j])
  }

  /** Insert `x` into a strictly sorted sequence unless it is already there. */
  function InsertUnique<T(==,!new)>(xs: seq<T>, x: T, lt: (T, T) -> bool): (r: seq<T>)
    requires StrictTotalOrder(lt) && StrictlySorted(xs, lt)
    ensures StrictlySorted(r, lt)
    ensures forall y :: y in r <==> y in xs || y == x
  {
    if |xs| == 0 then [x]
    else if xs[0] == x then xs
    else if lt(x, xs[0]) then [x] + xs
    else
      var rest := InsertUnique(xs[1..], x, lt);
      assert forall y :: y in rest ==> lt(xs[0], y) by {
        forall y | y in rest ensures lt(xs[0], y) {
          if y != x {
            var k :| 1 <= k < |xs| && xs[k] == y;
          }
        }
      }
      [xs[0]] + rest
  }

  /** The sorted, duplicate-free rearrangement of `xs`. */
  function SortDedup<T(==,!new)>(xs: seq<T>, lt: (T, T) -> bool): (r: seq<T>)
    requires StrictTotalOrder(lt)
    ensures StrictlySorted(r, lt)
    ensures forall y :: y in r <==> y in xs
    ensures |r| <= |xs|
  {
    if |xs| == 0 then []
    else
      var rest := SortDedup(xs[..|xs| - 1], lt);
      var r := InsertUnique(rest, xs[|xs| - 1], lt);
      assert forall y :: y in xs <==> y in xs[..|xs| - 1] || y == xs[|xs| - 1] by {
        assert xs == xs[..|xs| - 1] + [xs[|xs| - 1]];
      }
      CardinalityBound(r, xs);
      r
  }

  /** A duplicate-free sequence is no longer than any sequence holding all its elements. */
  lemma CardinalityBound<T>(r: seq<T>, xs: seq<T>)
    requires forall i, j :: 0 <= i < j < |r| ==> r[i] != r[j]
    requires forall y :: y in r ==> y in xs
    ensures |r| <= |xs|
  {
    var s := set y | y in r;
    var t := set y | y in xs;
    DistinctCard(r);
    SeqSetCard(xs);
    assert s <= t;
    assert t == s + (t - s) && s !! (t - s);
  }

  lemma {:induction false} DistinctCard<T>(r: seq<T>)
    requires forall i, j :: 0 <= i < j < |r| ==> r[i] != r[j]
    ensures |set y | y in r| == |r|
  {
    if |r| > 0 {
      var init := r[..|r| - 1];
      DistinctCard(init);
      assert (set y | y in r) == (set y | y in init) + {r[|r| - 1]};
      assert r[|r| - 1] !in (set y | y in init);
    } else {
      assert (set y | y in r) == {};
    }
  }

  lemma {:induction false} SeqSetCard<T>(xs: seq<T>)
    ensures |set y | y in xs| <= |xs|
  {
    if |xs| > 0 {
      var init := xs[..|xs| - 1];
      SeqSetCard(init);
      assert (set y | y in xs) == (set y | y in init) + {xs[|xs| - 1]};
    } else {
      assert (set y | y in xs) == {};
    }
  }

  /**
   * Two strictly sorted sequences with the same elements are equal; so the
   * result of sorting and then removing adjacent duplicates is determined by
   * the set of input elements alone, and `SortDedup` is that result.
   */
  lemma {:induction false} SortedUnique<T(!new)>(a: seq<T>, b: seq<T>, lt: (T, T) -> bool)
    requires StrictTotalOrder(lt)
    requires StrictlySorted(a, lt) && StrictlySorted(b, lt)
    requires forall y :: y in a <==> y in b
    ensures a == b
    decreases |a|
  {
    assert |a| > 0 ==> a[0] in b;
    assert |b| > 0 ==> b[0] in a;
    if |a| > 0 {
      assert a == [a[0]] + a[1..] && b == [b[0]] + b[1..];
      // the two heads are each the least element of the common set
      HeadIsLeast(a, b[0], lt);
      HeadIsLeast(b, a[0], lt);
      assert a[0] == b[0];
      forall y ensures y in a[1..] <==> y in b[1..] {
        if y in a[1..] {
          var k :| 1 <= k < |a| && a[k] == y;
          assert lt(a[0], y) && y in b && y != b[0];
        }
        if y in b[1..] {
          var m :| 1 <= m < |b| && b[m] == y;
          assert lt(b[0], y) && y in a && y != a[0];
        }
      }
      SortedUnique(a[1..], b[1..], lt);
    }
  }

  lemma HeadIsLeast<T(!new)>(a: seq<T>, y: T, lt: (T, T) -> bool)
    requires StrictlySorted(a, lt) && y in a
    ensures y == a[0] || lt(a[0], y)
  {
    var k :| 0 <= k < |a| && a[k] == y;
  }

  // ---------------------------------------------------------------------------
  // `v.sort()` without `dedup`: a stable rearrangement in non-decreasing order.

  predicate Sorted<T>(xs: seq<T>, lt: (T, T) -> bool) {
    forall i, j :: 0 <= i < j < |xs| ==> !lt(xs[j], xs[i])
  }

  /** Insert `x` before the first element that is not less than it. */
  function Insert<T(!new)>(xs: seq<T>, x: T, lt: (T, T) -> bool): (r: seq<T>)
    requires StrictTotalOrder(lt) && Sorted(xs, lt)
    ensures Sorted(r, lt)
    ensures multiset(r) == multiset(xs) + multiset{x}
  {
    if |xs| == 0 then [x]
    else if !lt(xs[0], x) then
      [x] + xs
    else
      var rest := Insert(xs[1..], x, lt);
      assert xs == [xs[0]] + xs[1..];
      assert forall y :: y in rest ==> !lt(y, xs[0]) by {
        forall y | y in rest ensures !lt(y, xs[0]) {
          assert y in multiset(rest);
          if y != x {
            assert y in multiset(xs[1..]);
            var k :| 0 <= k < |xs[1..]| && xs[1..][k] == y;
            assert xs[k + 1] == y;
          }
        }
      }
      var r := [xs[0]] + rest;
      assert forall j :: 0 < j < |r| ==> r[j] in rest;
      r
  }

  /** `v.sort()`: insertion sort, so the result is sorted and a permutation of `xs`. */
  function Sort<T(!new)>(xs: seq<T>, lt: (T, T) -> bool): (r: seq<T>)
    requires StrictTotalOrder(lt)
    ensures Sorted(r, lt)
    ensures multiset(r) == multiset(xs)
    ensures |r| == |xs|
  {
    if |xs| == 0 then []
    else
      assert xs == xs[..|xs| - 1] + [xs[|xs| - 1]];
      var r := Insert(Sort(xs[..|xs| - 1], lt), xs[|xs| - 1], lt);
      assert |r| == |multiset(r)|;
      r
  }
}
