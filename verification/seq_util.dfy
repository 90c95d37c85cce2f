/** Sequence operations the transform relies on: pandas `unique()` /
    `drop_duplicates()` (first occurrence wins) and boolean-mask sums. */
module SeqUtil {

  predicate Distinct<T(==)>(xs: seq<T>)
  {
    forall i, j :: 0 <= i < j < |xs| ==> xs[i] != xs[j]
  }

  function Elements<T(==)>(xs: seq<T>): set<T>
  {
    set x | x in xs
  }

  /** Position of the first occurrence of `x`. */
  function IndexOf<T(==)>(xs: seq<T>, x: T): (i: nat)
    requires x in xs
    ensures i < |xs| && xs[i] == x && x !in xs[..i]
  {
    if xs[0] == x then 0 else 1 + IndexOf(xs[1..], x)
  }

  lemma {:induction false} IndexOfPrefix<T>(xs: seq<T>, n: nat, x: T)
    requires n <= |xs| && x in xs[..n]
    ensures IndexOf(xs, x) == IndexOf(xs[..n], x)
  {
    var i, k := IndexOf(xs, x), IndexOf(xs[..n], x);
    assert xs[k] == x by {
      assert xs[..n][k] == xs[k];
    }
    forall j | 0 <= j < k
      ensures xs[j] != x
    {
      assert xs[..n][..k][j] == xs[j];
    }
    forall j | 0 <= j < i
      ensures xs[j] != x
    {
      assert xs[..i][j] == xs[j];
    }
  }

  /** Duplicates removed, each element kept at its first occurrence. */
  function Unique<T(==)>(xs: seq<T>): (u: seq<T>)
    ensures Distinct(u)
    ensures forall i :: 0 <= i < |u| ==> u[i] in xs
    ensures forall i :: 0 <= i < |xs| ==> xs[i] in u
    ensures |u| <= |xs|
  {
    if xs == [] then []
    else
      var n := |xs| - 1;
      var p := Unique(xs[..n]);
      assert xs == xs[..n] + [xs[n]];
      if xs[n] in p then p else p + [xs[n]]
  }

  /** `Unique` lists the elements in the order of their first occurrence. */
  lemma {:induction false} UniqueKeepsFirstOccurrenceOrder<T>(xs: seq<T>)
    ensures forall i, j :: 0 <= i < j < |Unique(xs)| ==> IndexOf(xs, Unique(xs)[i]) < IndexOf(xs, Unique(xs)[j])
  {
    if xs != [] {
      var n := |xs| - 1;
      var prefix := xs[..n];
      var p := Unique(prefix);
      UniqueKeepsFirstOccurrenceOrder(prefix);
      forall y | y in p
        ensures IndexOf(xs, y) == IndexOf(prefix, y) < n
      {
        IndexOfPrefix(xs, n, y);
      }
      if xs[n] !in p {
        assert xs[n] !in prefix;
        assert IndexOf(xs, xs[n]) == n;
      }
    }
  }

  /** A sequence has at least as many positions as distinct elements. */
  lemma {:induction false} ElementsCardinality<T>(xs: seq<T>)
    ensures |Elements(xs)| <= |xs|
  {
    if xs != [] {
      var n := |xs| - 1;
      ElementsCardinality(xs[..n]);
      assert Elements(xs) == Elements(xs[..n]) + {xs[n]};
    }
  }

  lemma {:induction false} DistinctCardinality<T>(xs: seq<T>)
    requires Distinct(xs)
    ensures |Elements(xs)| == |xs|
  {
    if xs != [] {
      var n := |xs| - 1;
      DistinctCardinality(xs[..n]);
      assert Elements(xs) == Elements(xs[..n]) + {xs[n]};
      assert xs[n] !in Elements(xs[..n]);
    }
  }

  /** A duplicate-free sequence drawn from `ys` is no longer than `ys`. */
  lemma DistinctWithinBound<T>(xs: seq<T>, ys: seq<T>)
    requires Distinct(xs)
    requires forall i :: 0 <= i < |xs| ==> xs[i] in ys
    ensures |xs| <= |ys|
  {
    DistinctCardinality(xs);
    ElementsCardinality(ys);
    assert Elements(xs) <= Elements(ys);
    SubsetCardinality(Elements(xs), Elements(ys));
  }

  lemma SubsetCardinality<T>(a: set<T>, b: set<T>)
    requires a <= b
    ensures |a| <= |b|
  {
    assert b == a + (b - a);
  }

  /** Distinctness is a property of the multiset of elements. */
  lemma {:induction false} DistinctByMultiset<T>(xs: seq<T>)
    ensures Distinct(xs) <==> forall x :: multiset(xs)[x] <= 1
  {
    if xs != [] {
      var n := |xs| - 1;
      DistinctByMultiset(xs[..n]);
      assert xs == xs[..n] + [xs[n]];
      assert multiset(xs) == multiset(xs[..n]) + multiset{xs[n]};
      if Distinct(xs) {
        assert xs[n] !in xs[..n];
      } else {
        var i, j :| 0 <= i < j < |xs| && xs[i] == xs[j];
        if j < n {
          assert xs[..n][i] == xs[..n][j];
          var x :| multiset(xs[..n])[x] > 1;
          assert multiset(xs)[x] > 1;
        } else {
          assert xs[..n][i] == xs[n];
          assert multiset(xs[..n])[xs[n]] >= 1;
          assert multiset(xs)[xs[n]] > 1;
        }
      }
    }
  }

  lemma PermutationKeepsDistinct<T>(xs: seq<T>, ys: seq<T>)
    requires multiset(xs) == multiset(ys) && Distinct(xs)
    ensures Distinct(ys)
  {
    DistinctByMultiset(xs);
    DistinctByMultiset(ys);
  }

  /** `mask.sum()`: how many elements satisfy `p`. */
  function Count<T>(xs: seq<T>, p: T -> bool): (n: nat)
    ensures n <= |xs|
  {
    if xs == [] then 0 else Count(xs[..|xs| - 1], p) + (if p(xs[|xs| - 1]) then 1 else 0)
  }

  lemma {:induction false} CountMonotone<T>(xs: seq<T>, p: T -> bool, q: T -> bool)
    requires forall x :: p(x) ==> q(x)
    ensures Count(xs, p) <= Count(xs, q)
  {
    if xs != [] {
      CountMonotone(xs[..|xs| - 1], p, q);
    }
  }

  lemma {:induction false} CountAll<T>(xs: seq<T>, p: T -> bool)
    ensures Count(xs, p) == |xs| <==> forall i :: 0 <= i < |xs| ==> p(xs[i])
  {
    if xs != [] {
      var n := |xs| - 1;
      CountAll(xs[..n], p);
      assert forall i :: 0 <= i < n ==> xs[..n][i] == xs[i];
    }
  }

  lemma {:induction false} CountNone<T>(xs: seq<T>, p: T -> bool)
    requires forall i :: 0 <= i < |xs| ==> !p(xs[i])
    ensures Count(xs, p) == 0
  {
    if xs != [] {
      CountNone(xs[..|xs| - 1], p);
    }
  }

  lemma {:induction false} CountConcat<T>(xs: seq<T>, ys: seq<T>, p: T -> bool)
    ensures Count(xs + ys, p) == Count(xs, p) + Count(ys, p)
    decreases |ys|
  {
    if ys != [] {
      var n := |ys| - 1;
      assert (xs + ys)[..|xs + ys| - 1] == xs + ys[..n];
      CountConcat(xs, ys[..n], p);
    } else {
      assert xs + ys == xs;
    }
  }

  /** Two tests that agree everywhere count the same. */
  lemma {:induction false} CountSameTest<T>(xs: seq<T>, p: T -> bool, q: T -> bool)
    requires forall x :: p(x) == q(x)
    ensures Count(xs, p) == Count(xs, q)
  {
    CountMonotone(xs, p, q);
    CountMonotone(xs, q, p);
  }

  /** The positions whose element satisfies `p`. */
  function Positions<T>(xs: seq<T>, p: T -> bool): set<nat>
  {
    set i: nat | i < |xs| && p(xs[i])
  }

  /** `Count` agrees with the size of the set of matching positions. */
  lemma {:induction false} CountIsPositions<T>(xs: seq<T>, p: T -> bool)
    ensures Count(xs, p) == |Positions(xs, p)|
  {
    if xs == [] {
      assert Positions(xs, p) == {};
    } else {
      var n := |xs| - 1;
      var front := xs[..n];
      CountIsPositions(front, p);
      assert forall i :: 0 <= i < n ==> front[i] == xs[i];
      if p(xs[n]) {
        assert Positions(xs, p) == Positions(front, p) + {n};
      } else {
        assert Positions(xs, p) == Positions(front, p);
      }
    }
  }

  /** The concatenation of `f(x)` for each `x` in order. */
  function FlatMap<A, B>(xs: seq<A>, f: A -> seq<B>): seq<B>
  {
    if xs == [] then [] else FlatMap(xs[..|xs| - 1], f) + f(xs[|xs| - 1])
  }

  lemma {:induction false} FlatMapConcat<A, B>(xs: seq<A>, ys: seq<A>, f: A -> seq<B>)
    ensures FlatMap(xs + ys, f) == FlatMap(xs, f) + FlatMap(ys, f)
    decreases |ys|
  {
    if ys == [] {
      assert xs + ys == xs;
    } else {
      var n := |ys| - 1;
      var zs := xs + ys;
      assert zs[..|zs| - 1] == xs + ys[..n];
      assert zs[|zs| - 1] == ys[n];
      FlatMapConcat(xs, ys[..n], f);
    }
  }

  lemma {:induction false} FlatMapLength<A, B>(xs: seq<A>, f: A -> seq<B>)
    requires forall i :: 0 <= i < |xs| ==> 1 <= |f(xs[i])|
    ensures |xs| <= |FlatMap(xs, f)|
  {
    if xs != [] {
      FlatMapLength(xs[..|xs| - 1], f);
    }
  }
}
