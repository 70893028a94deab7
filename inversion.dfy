/**
 * The inverse transform `bwt_inverse`. It makes sure the input holds a
 * sentinel, stable-sorts the positions of the input by character, and walks
 * that permutation from the position of the first sentinel, collecting one
 * character per step. The sorted `(char, index)` tuples and the first column
 * it also builds feed only a display table and a loop whose result is
 * overwritten.
 */
module Inversion {
  import opened Sorting
  import opened Transform

  /** `bwt_encoded` after `if '$' not in bwt_encoded: bwt_encoded += '$'`. */
  function WithSentinel(s: string): (r: string)
    ensures Sentinel in r
  {
    if Sentinel in s then s else s + [Sentinel]
  }

  /** `s.index(c)`: the first position holding `c`. */
  function IndexOf(s: string, c: char): (i: nat)
    requires c in s
    ensures i < |s| && s[i] == c
    ensures forall j :: 0 <= j < i ==> s[j] != c
  {
    if s[0] == c then 0
    else
      assert c in s[1..] by {
        var k :| 0 <= k < |s| && s[k] == c;
        assert s[1..][k - 1] == c;
      }
      1 + IndexOf(s[1..], c)
  }

  /** `range(n)` */
  function Range(n: nat): (r: seq<nat>)
    ensures |r| == n && forall i :: 0 <= i < n ==> r[i] == i
  {
    seq(n, (i: int) requires 0 <= i < n => i as nat)
  }

  /** `[(char, i) for i, char in enumerate(s)]` */
  function Enumerate(s: string): (r: seq<(char, nat)>)
    ensures |r| == |s| && forall i :: 0 <= i < |s| ==> r[i] == (s[i], i)
  {
    seq(|s|, (i: int) requires 0 <= i < |s| => (s[i], i as nat))
  }

  /**
   * Python's `<=` on `(char, int)` tuples: the first component that differs
   * decides, and tuples equal in both components compare equal.
   */
  function PairLe(p: (char, nat), q: (char, nat)): (le: bool)
    ensures p.0 != q.0 ==> (le <==> p.0 < q.0)
    ensures p.0 == q.0 ==> (le <==> p.1 <= q.1)
  {
    p.0 < q.0 || (p.0 == q.0 && p.1 <= q.1)
  }

  lemma PairLeTotalOrder()
    ensures TotalPreorder(PairLe) && Antisymmetric(PairLe)
  {
  }

  /**
   * The sort key `lambda x: s[x]`. Positions are always in range where it is
   * used; any other position gets the sentinel.
   */
  function CharAt(s: string, i: nat): (c: char)
    ensures i < |s| ==> c == s[i]
    ensures |s| <= i ==> c == Sentinel
  {
    if i < |s| then s[i] else Sentinel
  }

  /** Comparing positions by the sort key: a total preorder, as `sorted` needs. */
  function ByChar(s: string): (le: (nat, nat) -> bool)
    ensures TotalPreorder(le)
  {
    (i: nat, j: nat) => CharAt(s, i) <= CharAt(s, j)
  }

  /** Ordered by key, and positions with equal keys in ascending order. */
  ghost predicate StablyOrdered(s: string, xs: seq<nat>) {
    forall r, r' :: 0 <= r < r' < |xs| ==>
      CharAt(s, xs[r]) < CharAt(s, xs[r'])
      || (CharAt(s, xs[r]) == CharAt(s, xs[r']) && xs[r] < xs[r'])
  }

  /** The tail of a stably ordered sequence is stably ordered. */
  lemma StablyOrderedTail(s: string, ys: seq<nat>)
    requires ys != [] && StablyOrdered(s, ys)
    ensures StablyOrdered(s, ys[1..])
  {
    forall i, j | 0 <= i < j < |ys| - 1 ensures ys[1..][i] == ys[i + 1] && ys[1..][j] == ys[j + 1] {}
  }

  /** `x` goes first: its key is at most the first key, and it precedes all equal keys. */
  lemma InsertStableFront(s: string, x: nat, ys: seq<nat>)
    requires StablyOrdered(s, ys)
    requires forall y :: y in ys ==> x < y
    requires ys != [] && CharAt(s, x) <= CharAt(s, ys[0])
    ensures StablyOrdered(s, [x] + ys)
  {
    var r := [x] + ys;
    forall i, j | 0 <= i < j < |r|
      ensures CharAt(s, r[i]) < CharAt(s, r[j]) || (CharAt(s, r[i]) == CharAt(s, r[j]) && r[i] < r[j])
    {
      assert r[j] == ys[j - 1] && r[j] in ys;
      if i > 0 {
        assert r[i] == ys[i - 1];
      } else {
        assert j - 1 > 0 ==> CharAt(s, ys[0]) <= CharAt(s, ys[j - 1]);
      }
    }
  }

  /** `ys[0]` stays first: its key is below `x`'s and the rest came from `ys`. */
  lemma InsertStableBehind(s: string, x: nat, ys: seq<nat>, rest: seq<nat>)
    requires StablyOrdered(s, ys) && StablyOrdered(s, rest)
    requires ys != [] && CharAt(s, ys[0]) < CharAt(s, x)
    requires forall z :: z in rest ==> z == x || z in ys[1..]
    ensures StablyOrdered(s, [ys[0]] + rest)
  {
    var r := [ys[0]] + rest;
    forall i, j | 0 <= i < j < |r|
      ensures CharAt(s, r[i]) < CharAt(s, r[j]) || (CharAt(s, r[i]) == CharAt(s, r[j]) && r[i] < r[j])
    {
      assert r[j] == rest[j - 1] && r[j] in rest;
      if i > 0 {
        assert r[i] == rest[i - 1];
      } else if r[j] != x {
        var k :| 0 <= k < |ys[1..]| && ys[1..][k] == r[j];
        assert r[j] == ys[k + 1];
      }
    }
  }

  lemma {:induction false} InsertStable(s: string, x: nat, ys: seq<nat>)
    requires StablyOrdered(s, ys)
    requires forall y :: y in ys ==> x < y
    ensures StablyOrdered(s, Insert(x, ys, ByChar(s)))
    decreases |ys|
  {
    if ys != [] {
      if ByChar(s)(x, ys[0]) {
        InsertStableFront(s, x, ys);
      } else {
        var rest := Insert(x, ys[1..], ByChar(s));
        StablyOrderedTail(s, ys);
        assert forall y :: y in ys[1..] ==> y in ys;
        InsertStable(s, x, ys[1..]);
        forall z | z in rest ensures z == x || z in ys[1..] {
          assert z in multiset(rest);
        }
        InsertStableBehind(s, x, ys, rest);
      }
    }
  }

  /** Python's sort is stable: sorting ascending positions by key keeps equal keys ascending. */
  lemma {:induction false} SortStable(s: string, xs: seq<nat>)
    requires forall i, j :: 0 <= i < j < |xs| ==> xs[i] < xs[j]
    ensures StablyOrdered(s, InsertionSort(xs, ByChar(s)))
    decreases |xs|
  {
    if xs != [] {
      var rest := InsertionSort(xs[1..], ByChar(s));
      assert forall i, j :: 0 <= i < j < |xs| - 1 ==> xs[1..][i] == xs[i + 1] && xs[1..][j] == xs[j + 1];
      SortStable(s, xs[1..]);
      forall y | y in rest ensures xs[0] < y {
        assert y in multiset(xs[1..]);
        var k :| 0 <= k < |xs[1..]| && xs[1..][k] == y;
        assert y == xs[k + 1];
      }
      InsertStable(s, xs[0], rest);
    }
  }

  /** `sorted_indices` maps positions to positions of `s`. */
  predicate IndexTable(s: string, si: seq<nat>) {
    |si| == |s| && forall r :: 0 <= r < |si| ==> si[r] < |s|
  }

  /** The stable sort of the positions is a permutation of them. */
  lemma PositionsPermutation(s: string)
    ensures forall r :: 0 <= r < |s| ==> InsertionSort<nat>(Range(|s|), ByChar(s))[r] < |s|
    ensures forall i :: 0 <= i < |s| ==> i in InsertionSort<nat>(Range(|s|), ByChar(s))
    ensures Distinct(InsertionSort<nat>(Range(|s|), ByChar(s)))
  {
    var si := InsertionSort<nat>(Range(|s|), ByChar(s));
    DistinctPermutation(si, Range(|s|));
    forall r | 0 <= r < |s| ensures si[r] < |s| {
      assert si[r] in multiset(Range(|s|));
    }
    forall i | 0 <= i < |s| ensures i in si {
      assert Range(|s|)[i] in multiset(si);
    }
  }

  /**
   * `sorted(range(ln), key=lambda x: s[x])`; it holds positions of `s`, and
   * `SortedIndicesOrder` below states the rest of what it is.
   */
  function SortedIndices(s: string): (si: seq<nat>)
    ensures IndexTable(s, si)
  {
    PositionsPermutation(s);
    InsertionSort<nat>(Range(|s|), ByChar(s))
  }

  /**
   * `sorted_indices` is a permutation of the positions of `s`, ordered by
   * character, with equal characters in ascending position.
   */
  lemma SortedIndicesOrder(s: string)
    ensures forall i :: 0 <= i < |s| ==> i in SortedIndices(s)
    ensures Distinct(SortedIndices(s))
    ensures forall r, r' :: 0 <= r < r' < |s| ==>
              s[SortedIndices(s)[r]] < s[SortedIndices(s)[r']]
              || (s[SortedIndices(s)[r]] == s[SortedIndices(s)[r']] && SortedIndices(s)[r] < SortedIndices(s)[r'])
  {
    SortStable(s, Range(|s|));
    PositionsPermutation(s);
  }

  /** Two entries of `sorted_indices`: ordered by character, and on a tie by position. */
  lemma SortedIndicesPair(s: string, r: nat, r': nat)
    requires r < r' < |s|
    ensures var si := SortedIndices(s);
            s[si[r]] < s[si[r']] || (s[si[r]] == s[si[r']] && si[r] < si[r'])
  {
    SortedIndicesOrder(s);
  }

  /** `[char for char, n in tuples]` */
  function First(p: (char, nat)): (c: char)
    ensures c == p.0
  {
    p.0
  }

  /**
   * After `tuples.sort()`, the tuples are the characters paired with the
   * positions of `sorted_indices`, in the same order.
   */
  lemma SortedTuples(s: string)
    ensures |InsertionSort(Enumerate(s), PairLe)| == |s|
    ensures forall r :: 0 <= r < |s| ==>
              InsertionSort(Enumerate(s), PairLe)[r] == (s[SortedIndices(s)[r]], SortedIndices(s)[r])
  {
    var si := SortedIndices(s);
    SortedIndicesOrder(s);
    var tuples := InsertionSort(Enumerate(s), PairLe);
    var expected := seq(|s|, r requires 0 <= r < |s| => (s[si[r]], si[r]));
    PairLeTotalOrder();
    SortSorted(Enumerate(s), PairLe);
    assert SortedBy(expected, PairLe);
    assert Distinct(Enumerate(s));
    assert Distinct(expected);
    forall p ensures p in expected <==> p in Enumerate(s) {
      if p in Enumerate(s) {
        var i :| 0 <= i < |s| && Enumerate(s)[i] == p;
        assert i in si;
        var r :| 0 <= r < |s| && si[r] == i;
        assert expected[r] == p;
      }
    }
    DistinctSameElements(expected, Enumerate(s));
    SortedUnique(tuples, expected, PairLe);
  }

  /** `column_1` holds the characters of `s` in nondecreasing order. */
  lemma FirstColumn(s: string)
    ensures multiset(Map(First, InsertionSort(Enumerate(s), PairLe))) == multiset(s)
    ensures forall i, j :: 0 <= i < j < |s| ==>
              Map(First, InsertionSort(Enumerate(s), PairLe))[i] <= Map(First, InsertionSort(Enumerate(s), PairLe))[j]
  {
    FirstColumnPermutation(s);
    FirstColumnSorted(s);
  }

  lemma FirstColumnPermutation(s: string)
    ensures multiset(Map(First, InsertionSort(Enumerate(s), PairLe))) == multiset(s)
  {
    MapPermutation(First, InsertionSort(Enumerate(s), PairLe), Enumerate(s));
    assert Map(First, Enumerate(s)) == s;
  }

  lemma FirstColumnSorted(s: string)
    ensures forall i, j :: 0 <= i < j < |s| ==>
              Map(First, InsertionSort(Enumerate(s), PairLe))[i] <= Map(First, InsertionSort(Enumerate(s), PairLe))[j]
  {
    var tuples := InsertionSort(Enumerate(s), PairLe);
    var col := Map(First, tuples);
    var si := SortedIndices(s);
    SortedIndicesOrder(s);
    SortedTuples(s);
    forall i, j | 0 <= i < j < |s| ensures col[i] <= col[j] {
      assert col[i] == First(tuples[i]) == s[si[i]];
      assert col[j] == First(tuples[j]) == s[si[j]];
    }
  }

  /**
   * `steps` rounds of `string_original += s[current]; current = si[current]`
   * starting at row `start`: the characters collected and the row reached.
   */
  function Walk(s: string, si: seq<nat>, start: nat, steps: nat): (r: (string, nat))
    requires IndexTable(s, si) && start < |s|
    ensures |r.0| == steps && r.1 < |s|
    decreases steps
  {
    if steps == 0 then ([], start)
    else
      var (text, current) := Walk(s, si, start, steps - 1);
      (text + [s[current]], si[current])
  }

  /** The last step of a walk appends the character at the row reached before it. */
  lemma WalkAppend(s: string, si: seq<nat>, start: nat, steps: nat)
    requires IndexTable(s, si) && start < |s| && steps > 0
    ensures var prev := Walk(s, si, start, steps - 1);
            Walk(s, si, start, steps) == (prev.0 + [s[prev.1]], si[prev.1])
  {
  }

  /** What the walk reads from an input that already holds a sentinel. */
  function DecodeExtended(s: string): (r: string)
    requires Sentinel in s
    ensures |r| == |s| - 1
  {
    var si := SortedIndices(s);
    Walk(s, si, si[IndexOf(s, Sentinel)], |s| - 1).0
  }

  /** The string that `bwt_inverse` returns for `encoded`. */
  function Decode(encoded: string): (r: string)
    ensures |r| == |WithSentinel(encoded)| - 1
  {
    DecodeExtended(WithSentinel(encoded))
  }

  /** `bwt_inverse("")` and `bwt_inverse("$")` both return the empty string. */
  lemma DecodeOfShort()
    ensures Decode([]) == [] && Decode([Sentinel]) == []
  {
  }

  /**
   * The first reconstruction loop of `bwt_inverse`: `ln` times, prepend
   * `column_1[row]` and move to row `tuples[row][1]`. The caller discards
   * its result.
   */
  method PrependColumn(s: string, tuples: seq<(char, nat)>, column1: string, start: nat) returns (text: string)
    requires tuples == InsertionSort(Enumerate(s), PairLe) && column1 == Map(First, tuples)
    requires start < |s|
    ensures |text| == |s|
  {
    assert |tuples| == |s| && forall r :: 0 <= r < |s| ==> tuples[r].1 < |s| by {
      SortedTuples(s);
    }
    var row: nat := tuples[start].1;
    text := [];
    for n := 0 to |s|
      invariant row < |s| && |text| == n
    {
      text := [column1[row]] + text;
      row := tuples[row].1;
    }
  }

  /**
   * The second reconstruction loop of `bwt_inverse`: starting at
   * `si[s.index('$')]`, `ln - 1` times append `s[current]` and move to row
   * `si[current]`.
   */
  method FollowIndices(s: string, si: seq<nat>, dollar: nat) returns (text: string)
    requires Sentinel in s && si == SortedIndices(s) && dollar == IndexOf(s, Sentinel)
    ensures text == DecodeExtended(s)
  {
    var current := si[dollar];
    text := [];
    for step := 0 to |s| - 1
      invariant (text, current) == Walk(s, si, si[dollar], step)
    {
      text := text + [s[current]];
      current := si[current];
    }
  }

  /**
   * Everything `bwt_inverse` does once its input `s` holds a sentinel: sort
   * the `(char, index)` tuples and take their characters as `column_1`, run
   * the discarded first reconstruction, then walk `sorted_indices`.
   */
  method InvertExtended(s: string) returns (firstColumn: string, original: string)
    requires Sentinel in s
    ensures |firstColumn| == |s| && multiset(firstColumn) == multiset(s)
    ensures forall i, j :: 0 <= i < j < |firstColumn| ==> firstColumn[i] <= firstColumn[j]
    ensures original == DecodeExtended(s)
  {
    var ln := |s|;
    var tuples := Enumerate(s);
    tuples := InsertionSort(tuples, PairLe);
    firstColumn := Map(First, tuples);
    var start := IndexOf(s, Sentinel);
    original := PrependColumn(s, tuples, firstColumn, start);
    var sortedIndices := SortedIndices(s);
    original := FollowIndices(s, sortedIndices, start);
    assert multiset(firstColumn) == multiset(s)
        && forall i, j :: 0 <= i < j < ln ==> firstColumn[i] <= firstColumn[j] by {
      FirstColumn(s);
    }
  }

  /**
   * `bwt_inverse(bwt_encoded)`: the two columns of the display table (the
   * sorted characters and the input with its sentinel) and the decoded string.
   */
  method BwtInverse(encoded: string) returns (firstColumn: string, lastColumn: string, original: string)
    ensures lastColumn == if Sentinel in encoded then encoded else encoded + [Sentinel]
    ensures |original| == |lastColumn| - 1
    ensures |firstColumn| == |lastColumn| && multiset(firstColumn) == multiset(lastColumn)
    ensures forall i, j :: 0 <= i < j < |firstColumn| ==> firstColumn[i] <= firstColumn[j]
    ensures original == Decode(encoded)
  {
    var s := encoded;
    if Sentinel !in s {
      s := s + [Sentinel];
    }
    assert s == WithSentinel(encoded);
    firstColumn, original := InvertExtended(s);
    lastColumn := s;
  }
}
