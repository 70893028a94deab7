/**
 * The forward Burrows-Wheeler transform `bwt`: append the sentinel, list every
 * left rotation, sort the rotations as Python sorts strings, and read off the
 * last character of each sorted rotation. The rotation table that the source
 * returns for display is kept as its two columns of strings.
 */
module Transform {
  import opened Sorting
  import opened Lex

  /** The end marker that `bwt` appends and `bwt_inverse` looks for. */
  const Sentinel: char := '$'

  /** `s[i:] + s[:i]`: `s` rotated left by `i` places. */
  function Rotate(s: string, i: nat): (r: string)
    requires i <= |s|
    ensures |r| == |s|
    ensures forall k :: 0 <= k < |s| ==> r[k] == if i + k < |s| then s[i + k] else s[i + k - |s|]
  {
    s[i..] + s[..i]
  }

  /** `[s[i:] + s[:i] for i in range(len(s))]` */
  function Rotations(s: string): (rs: seq<string>)
    ensures |rs| == |s|
    ensures forall i :: 0 <= i < |s| ==> rs[i] == Rotate(s, i)
  {
    seq(|s|, i requires 0 <= i < |s| => Rotate(s, i))
  }

  /** `w[-1]` */
  function Last(w: string): (c: char)
    requires |w| > 0
    ensures c == w[|w| - 1]
  {
    w[|w| - 1]
  }

  /** What `bwt` returns: the table's two columns and the encoded string. */
  datatype Transformed = Transformed(rotations: seq<string>, sorted: seq<string>, encoded: string)

  /** `sorted(rotations)`: the rotations in nondecreasing string order. */
  function SortedRotations(s: string): (sorted: seq<string>)
    ensures |sorted| == |s| && multiset(sorted) == multiset(Rotations(s))
    ensures SortedBy(sorted, LexLe)
    ensures forall k :: 0 <= k < |s| ==> |sorted[k]| == |s|
  {
    var sorted := InsertionSort(Rotations(s), LexLe);
    LexLeTotalOrder();
    SortSorted(Rotations(s), LexLe);
    assert forall k :: 0 <= k < |s| ==> sorted[k] in multiset(Rotations(s));
    sorted
  }

  /** The last characters of the rotations, in rotation order, are `s` rotated right by one. */
  lemma LastColumnOfRotations(s: string)
    requires |s| > 0
    ensures Map(Last, Rotations(s)) == [s[|s| - 1]] + s[..|s| - 1]
  {
    var n := |s|;
    var col := Map(Last, Rotations(s));
    forall k | 0 <= k < n ensures col[k] == ([s[n - 1]] + s[..n - 1])[k] {
      assert col[k] == Rotate(s, k)[n - 1];
    }
  }

  /** The last characters of the rotations, in rotation order, rearrange `s`. */
  lemma RotationsLastPermutation(s: string)
    requires |s| > 0
    ensures multiset(Map(Last, Rotations(s))) == multiset(s)
  {
    var n := |s|;
    LastColumnOfRotations(s);
    assert s == s[..n - 1] + [s[n - 1]];
    assert multiset([s[n - 1]] + s[..n - 1]) == multiset(s[..n - 1] + [s[n - 1]]);
  }

  /** The last column of the sorted rotations rearranges the string itself. */
  lemma LastColumnPermutation(s: string)
    requires |s| > 0
    ensures multiset(Map(Last, SortedRotations(s))) == multiset(s)
  {
    MapPermutation(Last, SortedRotations(s), Rotations(s));
    RotationsLastPermutation(s);
  }

  /**
   * `bwt(string)`: the rotation table (unsorted and sorted) and the encoded
   * string. The encoded string rearranges `input + '$'`, so an input without
   * `'$'` yields exactly one.
   */
  function Bwt(input: string): (r: Transformed)
    ensures |r.rotations| == |input| + 1
    ensures forall i :: 0 <= i <= |input| ==> r.rotations[i] == Rotate(input + [Sentinel], i)
    ensures |r.sorted| == |input| + 1 && multiset(r.sorted) == multiset(r.rotations)
    ensures SortedBy(r.sorted, LexLe)
    ensures |r.encoded| == |input| + 1
    ensures forall k :: 0 <= k <= |input| ==>
              |r.sorted[k]| == |input| + 1 && r.encoded[k] == r.sorted[k][|input|]
    ensures multiset(r.encoded) == multiset(input + [Sentinel])
    ensures Sentinel !in input ==> multiset(r.encoded)[Sentinel] == 1
  {
    var s := input + [Sentinel];
    LastColumnPermutation(s);
    assert multiset(s) == multiset(input) + multiset{Sentinel};
    Transformed(Rotations(s), SortedRotations(s), Map(Last, SortedRotations(s)))
  }

  /** `bwt("")` is `"$"`. */
  lemma BwtOfEmpty()
    ensures Bwt([]).encoded == [Sentinel]
  {
    var r := Bwt([]);
    assert |r.encoded| == 1 && Sentinel in multiset(r.encoded);
  }
}
