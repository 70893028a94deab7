/**
 * Python's built-in sorting (`sorted(...)` and `list.sort()`), as used by the
 * transform and its inverse, together with the facts about sorted sequences
 * that the inverse transform relies on.
 *
 * Python sorts stably; here that is an insertion sort that places each element
 * in front of the first element it is "less than or equal" to, working from
 * the back of the list, so that earlier equal elements stay earlier.
 */
module Sorting {

  /** `le` is a total preorder: any two values compare, and `le` chains. */
  ghost predicate TotalPreorder<T(!new)>(le: (T, T) -> bool) {
    && (forall a, b :: le(a, b) || le(b, a))
    && (forall a, b, c :: le(a, b) && le(b, c) ==> le(a, c))
  }

  /** Values that are each `le` the other are equal. */
  ghost predicate Antisymmetric<T(!new)>(le: (T, T) -> bool) {
    forall a, b :: le(a, b) && le(b, a) ==> a == b
  }

  ghost predicate SortedBy<T>(xs: seq<T>, le: (T, T) -> bool) {
    forall i, j :: 0 <= i < j < |xs| ==> le(xs[i], xs[j])
  }

  ghost predicate Distinct<T>(xs: seq<T>) {
    forall i, j :: 0 <= i < j < |xs| ==> xs[i] != xs[j]
  }

  /** `[f(x) for x in xs]`, for an `f` defined on every element. */
  function Map<A, B>(f: A --> B, xs: seq<A>): (r: seq<B>)
    requires forall i :: 0 <= i < |xs| ==> f.requires(xs[i])
    ensures |r| == |xs|
    ensures forall i :: 0 <= i < |xs| ==> r[i] == f(xs[i])
  {
    seq(|xs|, i requires 0 <= i < |xs| => f(xs[i]))
  }

  /** Puts `x` in front of the first element of `xs` that it is `le` to. */
  function Insert<T>(x: T, xs: seq<T>, le: (T, T) -> bool): (r: seq<T>)
    ensures multiset(r) == multiset(xs) + multiset{x}
    decreases |xs|
  {
    if xs == [] then [x]
    else if le(x, xs[0]) then [x] + xs
    else
      assert xs == [xs[0]] + xs[1..];
      [xs[0]] + Insert(x, xs[1..], le)
  }

  /** The list that Python's stable sort returns for `xs` under `le`. */
  function InsertionSort<T>(xs: seq<T>, le: (T, T) -> bool): (r: seq<T>)
    ensures multiset(r) == multiset(xs)
    ensures |r| == |xs|
    decreases |xs|
  {
    if xs == [] then []
    else
      assert xs == [xs[0]] + xs[1..];
      Insert(xs[0], InsertionSort(xs[1..], le), le)
  }

  lemma {:induction false} InsertSorted<T(!new)>(x: T, xs: seq<T>, le: (T, T) -> bool)
    requires TotalPreorder(le)
    requires SortedBy(xs, le)
    ensures SortedBy(Insert(x, xs, le), le)
    decreases |xs|
  {
    if xs != [] && !le(x, xs[0]) {
      var rest := Insert(x, xs[1..], le);
      InsertSorted(x, xs[1..], le);
      forall y | y in rest ensures le(xs[0], y) {
        assert y in multiset(rest);
      }
      var r := [xs[0]] + rest;
      forall i, j | 0 <= i < j < |r| ensures le(r[i], r[j]) {
        if i > 0 {
          assert r[i] == rest[i - 1] && r[j] == rest[j - 1];
        } else {
          assert r[j] == rest[j - 1] && r[j] in rest;
        }
      }
    }
  }

  /** Under a total preorder the sort's result is in nondecreasing order. */
  lemma {:induction false} SortSorted<T(!new)>(xs: seq<T>, le: (T, T) -> bool)
    requires TotalPreorder(le)
    ensures SortedBy(InsertionSort(xs, le), le)
    decreases |xs|
  {
    if xs != [] {
      SortSorted(xs[1..], le);
      InsertSorted(xs[0], InsertionSort(xs[1..], le), le);
    }
  }

  /** Removing the element at `k` removes one occurrence of it. */
  lemma RemoveAt<T>(xs: seq<T>, k: nat)
    requires k < |xs|
    ensures multiset(xs) == multiset(xs[..k] + xs[k + 1..]) + multiset{xs[k]}
  {
    assert xs == xs[..k] + [xs[k]] + xs[k + 1..];
    assert multiset(xs) == multiset(xs[..k]) + multiset{xs[k]} + multiset(xs[k + 1..]);
  }

  /** The tail of a sorted sequence is sorted. */
  lemma TailSorted<T>(xs: seq<T>, le: (T, T) -> bool)
    requires xs != [] && SortedBy(xs, le)
    ensures SortedBy(xs[1..], le)
  {
    forall i, j | 0 <= i < j < |xs| - 1 ensures le(xs[1..][i], xs[1..][j]) {
      assert xs[1..][i] == xs[i + 1] && xs[1..][j] == xs[j + 1];
    }
  }

  /** The first elements of two sorted permutations of each other are equal. */
  lemma SortedHeads<T(!new)>(a: seq<T>, b: seq<T>, le: (T, T) -> bool)
    requires Antisymmetric(le)
    requires SortedBy(a, le) && SortedBy(b, le)
    requires multiset(a) == multiset(b)
    requires a != [] && b != []
    ensures a[0] == b[0]
  {
    assert a[0] in multiset(b) && b[0] in multiset(a);
    var k :| 0 <= k < |b| && b[k] == a[0];
    var m :| 0 <= m < |a| && a[m] == b[0];
    assert k > 0 ==> le(b[0], a[0]);
    assert m > 0 ==> le(a[0], b[0]);
  }

  /** Two sorted permutations of each other are equal when `le` is antisymmetric. */
  lemma {:induction false} SortedUnique<T(!new)>(a: seq<T>, b: seq<T>, le: (T, T) -> bool)
    requires Antisymmetric(le)
    requires SortedBy(a, le) && SortedBy(b, le)
    requires multiset(a) == multiset(b)
    ensures a == b
    decreases |a|
  {
    assert |a| == |multiset(a)| == |multiset(b)| == |b|;
    if a != [] {
      assert a == [a[0]] + a[1..] && b == [b[0]] + b[1..];
      SortedHeads(a, b, le);
      TailMultiset(a);
      TailMultiset(b);
      TailSorted(a, le);
      TailSorted(b, le);
      UnionCancel(multiset(a[1..]), multiset(b[1..]), a[0]);
      SortedUnique(a[1..], b[1..], le);
    }
  }

  /** Adding the same value to two multisets keeps them apart or equal. */
  lemma UnionCancel<T>(m: multiset<T>, n: multiset<T>, x: T)
    requires m + multiset{x} == n + multiset{x}
    ensures m == n
  {
    forall y ensures m[y] == n[y] {
      assert (m + multiset{x})[y] == m[y] + multiset{x}[y];
      assert (n + multiset{x})[y] == n[y] + multiset{x}[y];
    }
  }

  /** Dropping the head removes one occurrence of it. */
  lemma TailMultiset<T>(xs: seq<T>)
    requires xs != []
    ensures multiset(xs) == multiset(xs[1..]) + multiset{xs[0]}
  {
    assert xs == [xs[0]] + xs[1..];
  }

  /** In a sequence without repeats every value occurs at most once. */
  lemma {:induction false} DistinctCount<T>(xs: seq<T>, x: T)
    requires Distinct(xs)
    ensures multiset(xs)[x] == if x in xs then 1 else 0
    decreases |xs|
  {
    if xs != [] {
      assert xs == [xs[0]] + xs[1..];
      assert Distinct(xs[1..]) by {
        forall i, j | 0 <= i < j < |xs[1..]| ensures xs[1..][i] != xs[1..][j] {
          assert xs[1..][i] == xs[i + 1] && xs[1..][j] == xs[j + 1];
        }
      }
      DistinctCount(xs[1..], x);
      DistinctCount(xs[1..], xs[0]);
      assert xs[0] !in xs[1..] by {
        forall k | 0 <= k < |xs[1..]| ensures xs[1..][k] != xs[0] {
          assert xs[1..][k] == xs[k + 1];
        }
      }
    }
  }

  /** A value at two positions of `xs` occurs at least twice. */
  lemma RepeatCount<T>(xs: seq<T>, i: nat, j: nat)
    requires i < j < |xs|
    ensures xs[i] == xs[j] ==> multiset(xs)[xs[i]] >= 2
  {
    assert xs == xs[..j] + xs[j..];
    assert xs[..j][i] == xs[i] && xs[j..][0] == xs[j];
    assert xs[i] in multiset(xs[..j]);
    assert multiset(xs) == multiset(xs[..j]) + multiset(xs[j..]);
  }

  /** A permutation of a sequence without repeats has no repeats. */
  lemma DistinctPermutation<T>(a: seq<T>, b: seq<T>)
    requires multiset(a) == multiset(b)
    requires Distinct(b)
    ensures Distinct(a)
  {
    forall i, j | 0 <= i < j < |a| ensures a[i] != a[j] {
      RepeatCount(a, i, j);
      DistinctCount(b, a[i]);
    }
  }

  /** Sequences without repeats holding the same values are permutations of each other. */
  lemma DistinctSameElements<T>(a: seq<T>, b: seq<T>)
    requires Distinct(a) && Distinct(b)
    requires forall x :: x in a <==> x in b
    ensures multiset(a) == multiset(b)
  {
    forall x ensures multiset(a)[x] == multiset(b)[x] {
      DistinctCount(a, x);
      DistinctCount(b, x);
    }
  }

  /** Mapping preserves being a permutation. */
  lemma {:induction false} MapPermutation<A, B>(f: A --> B, a: seq<A>, b: seq<A>)
    requires forall i :: 0 <= i < |a| ==> f.requires(a[i])
    requires forall i :: 0 <= i < |b| ==> f.requires(b[i])
    requires multiset(a) == multiset(b)
    ensures multiset(Map(f, a)) == multiset(Map(f, b))
    decreases |a|
  {
    assert |a| == |multiset(a)| == |multiset(b)| == |b|;
    if a != [] {
      assert a[0] in multiset(b);
      var k :| 0 <= k < |b| && b[k] == a[0];
      var b' := b[..k] + b[k + 1..];
      TailMultiset(a);
      RemoveAt(b, k);
      UnionCancel(multiset(a[1..]), multiset(b'), a[0]);
      forall i | 0 <= i < |b'| ensures f.requires(b'[i]) {
        assert b'[i] == if i < k then b[i] else b[i + 1];
      }
      MapPermutation(f, a[1..], b');
      MapRemoveAt(f, b, k);
      assert Map(f, a)[1..] == Map(f, a[1..]);
      TailMultiset(Map(f, a));
    }
  }

  /** Mapping commutes with removing the element at `k`. */
  lemma MapRemoveAt<A, B>(f: A --> B, xs: seq<A>, k: nat)
    requires k < |xs|
    requires forall i :: 0 <= i < |xs| ==> f.requires(xs[i])
    ensures multiset(Map(f, xs)) == multiset(Map(f, xs[..k] + xs[k + 1..])) + multiset{f(xs[k])}
  {
    var ys := xs[..k] + xs[k + 1..];
    forall i | 0 <= i < |ys| ensures f.requires(ys[i]) && ys[i] == if i < k then xs[i] else xs[i + 1] {
      assert ys[i] == if i < k then xs[i] else xs[i + 1];
    }
    var m := Map(f, xs);
    assert Map(f, ys) == m[..k] + m[k + 1..];
    RemoveAt(m, k);
  }
}
