/**
 * Why `bwt_inverse(bwt(x)) == x` for every `x` without a `'$'`.
 *
 * Write `t` for `x + '$'`, `S` for the sorted rotations of `t`, `L` for the
 * encoded string (the last column of `S`) and `si` for the positions of `L`
 * stably sorted by character. Because `'$'` occurs in `t` only at its end,
 * the rotations of `t` are pairwise different. Rotating each row `S[si[r]]`
 * right by one place gives the rows of `S` again, in order (the last-to-first
 * mapping), so from the row that holds `Rotate(t, i)` the inverse moves to
 * the row that holds `Rotate(t, i + 1)`, reading `t[i]` off its last column.
 * The ordering of `'$'` against the other characters plays no part.
 */
module RoundTrip {
  import opened Sorting
  import opened Lex
  import opened Transform
  import opened Inversion

  /** `w` rotated right by one place: its last character moved to the front. */
  function RotR(w: string): (r: string)
    requires |w| > 0
    ensures |r| == |w|
  {
    [w[|w| - 1]] + w[..|w| - 1]
  }

  /** `t` holds the sentinel at its end and nowhere else. */
  predicate SentinelOnlyAtEnd(t: string) {
    |t| > 0 && t[|t| - 1] == Sentinel && Sentinel !in t[..|t| - 1]
  }

  /** `bwt` appends the sentinel to an input without one. */
  lemma EndMarker(x: string)
    requires Sentinel !in x
    ensures SentinelOnlyAtEnd(x + [Sentinel])
  {
    assert (x + [Sentinel])[..|x|] == x;
  }

  /** A rotation holds the sentinel exactly where the end of `t` landed. */
  lemma SentinelInRotation(t: string, i: nat, k: nat)
    requires SentinelOnlyAtEnd(t) && i < |t| && k < |t|
    ensures Rotate(t, i)[k] == Sentinel <==> i + k == |t| - 1
  {
    var n := |t|;
    if i + k != n - 1 {
      var p := if i + k < n then i + k else i + k - n;
      assert Rotate(t, i)[k] == t[p];
      assert t[p] == t[..n - 1][p];
    }
  }

  /** The rotations of a text whose only sentinel ends it are pairwise different. */
  lemma RotateInjective(t: string, i: nat, j: nat)
    requires SentinelOnlyAtEnd(t) && i < |t| && j < |t|
    requires Rotate(t, i) == Rotate(t, j)
    ensures i == j
  {
    var n := |t|;
    SentinelInRotation(t, i, n - 1 - i);
    SentinelInRotation(t, j, n - 1 - i);
  }

  /** Rotating right by one place undoes one place of rotating left. */
  lemma RotRRotate(t: string, i: nat)
    requires 0 < i <= |t|
    ensures RotR(Rotate(t, i)) == Rotate(t, i - 1)
  {
    var w := Rotate(t, i);
    forall k | 0 <= k < |t| ensures RotR(w)[k] == Rotate(t, i - 1)[k] {
      if k > 0 {
        assert RotR(w)[k] == w[k - 1];
      }
    }
  }

  /** The last character of the left rotation by `i > 0` is the one before position `i`. */
  lemma RotateLast(t: string, i: nat)
    requires 0 < i <= |t|
    ensures Rotate(t, i)[|t| - 1] == t[i - 1]
  {
  }

  /** Rotating by the whole length changes nothing. */
  lemma RotateWhole(t: string)
    ensures Rotate(t, |t|) == Rotate(t, 0)
  {
    assert Rotate(t, |t|) == t[|t|..] + t[..|t|] == t;
    assert Rotate(t, 0) == t[0..] + t[..0] == t;
  }

  /** Rotating right by one place loses nothing. */
  lemma RotRInjective(u: string, v: string)
    requires |u| == |v| > 0
    requires RotR(u) == RotR(v)
    ensures u == v
  {
    var n := |u|;
    assert u == u[..n - 1] + [u[n - 1]];
    assert v == v[..n - 1] + [v[n - 1]];
    assert RotR(u)[1..] == u[..n - 1] && RotR(v)[1..] == v[..n - 1];
  }

  /** Every sorted row of `bwt(x)` is a rotation of `x + '$'`. */
  lemma SortedIsRotation(x: string, r: nat) returns (i: nat)
    requires r <= |x|
    ensures i <= |x| && Bwt(x).sorted[r] == Rotate(x + [Sentinel], i)
  {
    var b := Bwt(x);
    assert b.sorted[r] in multiset(b.rotations);
    i :| 0 <= i < |b.rotations| && b.rotations[i] == b.sorted[r];
  }

  /** Every rotation of `x + '$'` is a sorted row of `bwt(x)`. */
  lemma RotationIsSorted(x: string, i: nat) returns (r: nat)
    requires i <= |x|
    ensures r <= |x| && Bwt(x).sorted[r] == Rotate(x + [Sentinel], i)
  {
    var b := Bwt(x);
    assert b.rotations[i] in multiset(b.sorted);
    r :| 0 <= r < |b.sorted| && b.sorted[r] == b.rotations[i];
  }

  /** The sorted rotation table of an input without `'$'` has no repeated rows. */
  lemma SortedDistinct(x: string)
    requires Sentinel !in x
    ensures Distinct(Bwt(x).sorted)
  {
    var t := x + [Sentinel];
    var b := Bwt(x);
    EndMarker(x);
    forall i, j | 0 <= i < j < |b.rotations| ensures b.rotations[i] != b.rotations[j] {
      if b.rotations[i] == b.rotations[j] {
        RotateInjective(t, i, j);
      }
    }
    DistinctPermutation(b.sorted, b.rotations);
  }

  /** Rotating right by one place orders strings by their last characters first. */
  lemma RotROrderedByLast(u: string, v: string)
    requires |u| > 0 && |v| > 0 && u[|u| - 1] < v[|v| - 1]
    ensures LexLe(RotR(u), RotR(v))
  {
  }

  /** Ordered strings of one length with the same last character stay ordered when rotated right. */
  lemma RotRKeepsOrder(u: string, v: string)
    requires |u| == |v| > 0 && u[|u| - 1] == v[|v| - 1]
    requires LexLe(u, v)
    ensures LexLe(RotR(u), RotR(v))
  {
    var n := |u|;
    var c := u[n - 1];
    var u', v' := u[..n - 1], v[..n - 1];
    assert u == u' + [c] && v == v' + [c];
    LexLeDropLast(u', v', c);
    LexLeCons(c, u', v');
    assert RotR(u) == [c] + u' && RotR(v) == [c] + v';
  }

  /** Strings of one length ordered by last character, then by themselves, stay ordered when rotated right. */
  lemma RotRPairOrdered(u: string, v: string)
    requires |u| == |v| > 0
    requires u[|u| - 1] < v[|v| - 1] || (u[|u| - 1] == v[|v| - 1] && LexLe(u, v))
    ensures LexLe(RotR(u), RotR(v))
  {
    if u[|u| - 1] == v[|v| - 1] {
      RotRKeepsOrder(u, v);
    } else {
      RotROrderedByLast(u, v);
    }
  }

  /** Two sorted rows have the full length, end in their encoded characters, and keep the sorted order. */
  lemma SortedRowPair(x: string, j: nat, j': nat)
    requires j <= |x| && j' <= |x|
    ensures var b := Bwt(x);
            |b.sorted[j]| == |b.sorted[j']| == |x| + 1
            && b.sorted[j][|x|] == b.encoded[j] && b.sorted[j'][|x|] == b.encoded[j']
            && (j < j' ==> LexLe(b.sorted[j], b.sorted[j']))
  {
  }

  /**
   * Rows `S[si[r]]` and `S[si[r']]`, `r < r'`, rotated right by one place are
   * still in order: their first characters are `L[si[r]] <= L[si[r']]`, and
   * on a tie `si[r] < si[r']`, so the rows themselves are in order.
   */
  lemma ShiftedPairOrdered(x: string, r: nat, r': nat)
    requires r < r' <= |x|
    ensures var b := Bwt(x); var si := SortedIndices(b.encoded);
            LexLe(RotR(b.sorted[si[r]]), RotR(b.sorted[si[r']]))
  {
    ShiftedPairGeneric(Bwt(x).sorted, Bwt(x).encoded, r, r');
  }

  /** `ShiftedPairOrdered` for any sorted table of equal-length rows and its last column. */
  lemma ShiftedPairGeneric(rows: seq<string>, last: string, r: nat, r': nat)
    requires |rows| == |last| && r < r' < |last|
    requires forall k :: 0 <= k < |rows| ==> |rows[k]| == |rows| && rows[k][|rows| - 1] == last[k]
    requires SortedBy(rows, LexLe)
    ensures var si := SortedIndices(last);
            LexLe(RotR(rows[si[r]]), RotR(rows[si[r']]))
  {
    var si := SortedIndices(last);
    var j, j' := si[r], si[r'];
    SortedIndicesPair(last, r, r');
    RotRPairOrdered(rows[j], rows[j']);
  }

  /** The sorted rows, taken in the order `si` and each rotated right by one place. */
  function ShiftedRows(x: string): (q: seq<string>)
    ensures |q| == |x| + 1
    ensures forall r :: 0 <= r <= |x| ==>
              q[r] == RotR(Bwt(x).sorted[SortedIndices(Bwt(x).encoded)[r]])
  {
    var b := Bwt(x);
    var si := SortedIndices(b.encoded);
    seq(|x| + 1, r requires 0 <= r <= |x| => RotR(b.sorted[si[r]]))
  }

  lemma ShiftedSorted(x: string)
    ensures SortedBy(ShiftedRows(x), LexLe)
  {
    var q := ShiftedRows(x);
    forall r, r' | 0 <= r < r' < |q| ensures LexLe(q[r], q[r']) {
      ShiftedPairOrdered(x, r, r');
    }
  }

  lemma ShiftedDistinct(x: string)
    requires Sentinel !in x
    ensures Distinct(ShiftedRows(x))
  {
    var b := Bwt(x);
    var si := SortedIndices(b.encoded);
    var q := ShiftedRows(x);
    SortedIndicesOrder(b.encoded);
    SortedDistinct(x);
    forall r, r' | 0 <= r < r' < |q| ensures q[r] != q[r'] {
      if q[r] == q[r'] {
        RotRInjective(b.sorted[si[r]], b.sorted[si[r']]);
      }
    }
  }

  /** Each shifted row is a rotation, hence a sorted row. */
  lemma ShiftedInSorted(x: string, r: nat)
    requires r <= |x|
    ensures ShiftedRows(x)[r] in Bwt(x).sorted
  {
    var t := x + [Sentinel];
    var n := |t|;
    var si := SortedIndices(Bwt(x).encoded);
    var m := SortedIsRotation(x, si[r]);
    var i: nat;
    if m > 0 {
      RotRRotate(t, m);
      i := m - 1;
    } else {
      RotateWhole(t);
      RotRRotate(t, n);
      i := n - 1;
    }
    var k := RotationIsSorted(x, i);
  }

  /** Each sorted row is a shifted row: the one of the row holding the next rotation. */
  lemma SortedInShifted(x: string, k: nat)
    requires k <= |x|
    ensures Bwt(x).sorted[k] in ShiftedRows(x)
  {
    var t := x + [Sentinel];
    var n := |t|;
    var si := SortedIndices(Bwt(x).encoded);
    var i := SortedIsRotation(x, k);
    RotRRotate(t, i + 1);
    var row: nat;
    if i + 1 < n {
      row := RotationIsSorted(x, i + 1);
    } else {
      RotateWhole(t);
      row := RotationIsSorted(x, 0);
    }
    SortedIndicesOrder(Bwt(x).encoded);
    assert row in si;
    var r :| 0 <= r < n && si[r] == row;
    assert ShiftedRows(x)[r] == Bwt(x).sorted[k];
  }

  /**
   * The last-to-first mapping: every row `S[r]` of the sorted table is row
   * `S[si[r]]` rotated right by one place.
   */
  lemma LastToFirst(x: string)
    requires Sentinel !in x
    ensures ShiftedRows(x) == Bwt(x).sorted
  {
    var q := ShiftedRows(x);
    var s := Bwt(x).sorted;
    forall w ensures w in q <==> w in s {
      if w in q {
        var r :| 0 <= r < |q| && q[r] == w;
        ShiftedInSorted(x, r);
      }
      if w in s {
        var k :| 0 <= k < |s| && s[k] == w;
        SortedInShifted(x, k);
      }
    }
    ShiftedDistinct(x);
    SortedDistinct(x);
    ShiftedSorted(x);
    DistinctSameElements(q, s);
    LexLeTotalOrder();
    SortedUnique(q, s, LexLe);
  }

  /** From the row holding `Rotate(t, i)` the walk moves to the row holding `Rotate(t, i + 1)`. */
  lemma NextRow(x: string, r: nat, i: nat)
    requires Sentinel !in x
    requires r <= |x| && i <= |x|
    requires Bwt(x).sorted[r] == Rotate(x + [Sentinel], i)
    ensures Bwt(x).sorted[SortedIndices(Bwt(x).encoded)[r]] == Rotate(x + [Sentinel], i + 1)
  {
    var t := x + [Sentinel];
    var n := |t|;
    var si := SortedIndices(Bwt(x).encoded);
    LastToFirst(x);
    assert Bwt(x).sorted[r] == ShiftedRows(x)[r];
    EndMarker(x);
    var m := SortedIsRotation(x, si[r]);
    if m > 0 {
      RotRRotate(t, m);
      RotateInjective(t, m - 1, i);
    } else {
      RotateWhole(t);
      RotRRotate(t, n);
      RotateInjective(t, n - 1, i);
    }
  }

  /** The row whose last character is the sentinel holds `x + '$'` itself. */
  lemma StartRow(x: string)
    requires Sentinel !in x
    ensures Sentinel in Bwt(x).encoded
    ensures Bwt(x).sorted[IndexOf(Bwt(x).encoded, Sentinel)] == Rotate(x + [Sentinel], 0)
  {
    var b := Bwt(x);
    var n := |x| + 1;
    assert Sentinel in multiset(b.encoded);
    var k := IndexOf(b.encoded, Sentinel);
    var i := SortedIsRotation(x, k);
    EndMarker(x);
    SentinelInRotation(x + [Sentinel], i, n - 1);
  }

  /** The row holding the left rotation by `i > 0` ends, in the encoded string, with the character before `i`. */
  lemma RowChar(x: string, j: nat, i: nat)
    requires j <= |x| && 0 < i <= |x| + 1
    requires Bwt(x).sorted[j] == Rotate(x + [Sentinel], i)
    ensures Bwt(x).encoded[j] == (x + [Sentinel])[i - 1]
  {
    SortedRowPair(x, j, j);
    RotateLast(x + [Sentinel], i);
  }

  /** Each rotation of `x + '$'`, the whole one included, is held by a sorted row. */
  lemma RotationRow(x: string, i: nat)
    requires i <= |x| + 1
    ensures exists r: nat :: r <= |x| && Bwt(x).sorted[r] == Rotate(x + [Sentinel], i)
  {
    var i' := i;
    if i == |x| + 1 {
      RotateWhole(x + [Sentinel]);
      i' := 0;
    }
    var r := RotationIsSorted(x, i');
  }

  /** The sorted row that holds the left rotation by `i`. */
  ghost function RowOf(x: string, i: nat): (r: nat)
    requires i <= |x| + 1
    ensures r <= |x| && Bwt(x).sorted[r] == Rotate(x + [Sentinel], i)
  {
    RotationRow(x, i);
    var r: nat :| r <= |x| && Bwt(x).sorted[r] == Rotate(x + [Sentinel], i);
    r
  }

  /** Rows of a `'$'`-free input holding the same string are the same row. */
  lemma SameRow(x: string, r: nat, r': nat)
    requires Sentinel !in x
    requires r <= |x| && r' <= |x| && Bwt(x).sorted[r] == Bwt(x).sorted[r']
    ensures r == r'
  {
    SortedDistinct(x);
  }

  /**
   * One step of the walk on the row of rotation `i`: it reads character
   * `i - 1` of `x + '$'` and moves to the row of rotation `i + 1`.
   */
  lemma RowStep(x: string, i: nat)
    requires Sentinel !in x && 0 < i <= |x|
    ensures var b := Bwt(x);
            b.encoded[RowOf(x, i)] == (x + [Sentinel])[i - 1]
            && SortedIndices(b.encoded)[RowOf(x, i)] == RowOf(x, i + 1)
  {
    var r := RowOf(x, i);
    RowChar(x, r, i);
    NextRow(x, r, i);
    SameRow(x, SortedIndices(Bwt(x).encoded)[r], RowOf(x, i + 1));
  }

  /** The walk starts on the row after the row of the first `'$'`: the row of rotation 1. */
  lemma FirstRow(x: string)
    requires Sentinel !in x
    ensures Sentinel in Bwt(x).encoded
    ensures SortedIndices(Bwt(x).encoded)[IndexOf(Bwt(x).encoded, Sentinel)] == RowOf(x, 1)
  {
    var b := Bwt(x);
    StartRow(x);
    var k0 := IndexOf(b.encoded, Sentinel);
    NextRow(x, k0, 0);
    SameRow(x, SortedIndices(b.encoded)[k0], RowOf(x, 1));
  }

  /**
   * The rows of the rotations `0 .. len(x) + 1` of `x + '$'`, with the facts
   * the walk needs: the row of rotation `i` ends in character `i - 1`, and
   * `sorted_indices` takes it to the row of rotation `i + 1`.
   */
  lemma RotationRows(x: string) returns (rows: seq<nat>)
    requires Sentinel !in x
    ensures |rows| == |x| + 2
    ensures forall i :: 0 <= i < |rows| ==> rows[i] <= |x|
    ensures forall i :: 0 < i < |rows| - 1 ==>
              Bwt(x).encoded[rows[i]] == (x + [Sentinel])[i - 1]
              && SortedIndices(Bwt(x).encoded)[rows[i]] == rows[i + 1]
    ensures rows[1] == RowOf(x, 1)
  {
    rows := seq(|x| + 2, i requires 0 <= i <= |x| + 1 => RowOf(x, i));
    forall i | 0 < i < |rows| - 1
      ensures Bwt(x).encoded[rows[i]] == (x + [Sentinel])[i - 1]
              && SortedIndices(Bwt(x).encoded)[rows[i]] == rows[i + 1]
    {
      RowStep(x, i);
    }
  }

  /**
   * A walk along given rows: when row `rows[i]` holds character `t[i - 1]`
   * and its index entry is `rows[i + 1]`, `m` steps from `rows[1]` read the
   * first `m` characters of `t` and stand on `rows[m + 1]`.
   */
  lemma {:induction false} WalkAlong(s: string, si: seq<nat>, t: string, rows: seq<nat>, m: nat)
    requires IndexTable(s, si) && |rows| == |t| + 1 && m < |t|
    requires forall i :: 0 <= i < |rows| ==> rows[i] < |s|
    requires forall i :: 0 < i < |rows| - 1 ==> s[rows[i]] == t[i - 1] && si[rows[i]] == rows[i + 1]
    ensures Walk(s, si, rows[1], m) == (t[..m], rows[m + 1])
  {
    if m > 0 {
      WalkAlong(s, si, t, rows, m - 1);
      WalkAppend(s, si, rows[1], m);
      assert t[..m - 1] + [t[m - 1]] == t[..m];
    }
  }

  /** `bwt_inverse(bwt(x))` returns `x` for every `x` without a `'$'`. */
  lemma {:induction false} InverseOfBwt(x: string)
    requires Sentinel !in x
    ensures Decode(Bwt(x).encoded) == x
  {
    var b := Bwt(x);
    var t := x + [Sentinel];
    var si := SortedIndices(b.encoded);
    var rows := RotationRows(x);
    FirstRow(x);
    assert WithSentinel(b.encoded) == b.encoded;
    WalkAlong(b.encoded, si, t, rows, |x|);
    assert t[..|x|] == x;
  }
}
