# BWT_python in Dafny

This project models the core of BWT_python. That core is a naive Burrows–Wheeler transform (`bwt`), its inverse (`bwt_inverse`), and two helpers: `calculate_size`, the UTF-8 byte count, and `measure_compression`. The repository holds six copies of this code. `bwt` and `bwt_inverse` are identical in all six. `calculate_size` appears in five of them; bwt.py has none. `measure_compression` differs between the copies in its rate formula, its column names and, in bwt.py, its timings. One set of modules models all six; the table below cites every copy.

Modules:

- `Sorting` (sorting.dfy) models Python's stable `sorted`/`list.sort`. It is a single insertion sort over any comparison. The lemmas prove it returns a permutation, sorted under a total preorder. Two sorted permutations are equal when the order is antisymmetric. Stability is proved in `Inversion` (`Inversion.SortStable`), for the one stable sort the code relies on: ascending positions sorted by character.
- `Lex` (lex.dfy) models Python's `<=` on `str`: code point by code point, with a prefix first. Dafny's Unicode `char` compares by code point, as Python does.
- `Transform` (transform.dfy) models `bwt`. Its result holds the rotation list, the sorted list and the encoded string. The rotation list and sorted list are the two columns of the pandas table.
- `Inversion` (inversion.dfy) models `bwt_inverse`. The method `BwtInverse` appends the sentinel when needed and calls `InvertExtended`. That method runs the source's two loops, as the methods `PrependColumn` and `FollowIndices`. It is proved against the function `Decode`, which follows `sorted_indices` from the row after the sentinel.
- `RoundTrip` (roundtrip.dfy) proves `bwt_inverse(bwt(x)) == x` for every `x` without a `'$'`. The rotations of `x + '$'` are pairwise distinct. From that the proof derives the last-to-first mapping: sorted row `r` equals row `sorted_indices[r]` rotated right by one place. The proof does not need `'$'` to be the smallest character.
- `Utf8` (utf8.dfy) models `calculate_size` as the length of the encoding in section 3 of RFC 3629. A code point takes 1, 2, 3 or 4 bytes, switching at 0x80, 0x800 and 0x10000.
- `Metrics` (metrics.dfy) models `measure_compression`. It returns the sizes, the decoded string and the rate. The rate formula is a parameter, because the copies differ.

The code's behaviour is modelled where the doc-comments at main_bwt_ms.py:14-18 and main_bwt_ms.py:32-37 say less:

- `bwt` appends `'$'` even when the input already holds one.
- `bwt_inverse` appends `'$'` only when none is present, and it walks from the first `'$'`.
- Neither rejects any input, so the model has no error paths. The round trip is claimed for `'$'`-free inputs only.

## Model

| member | source | states |
|---|---|---|
| Sorting.InsertionSort | bwt_package/bwt_script.py:8 | `sorted(...)` returns a permutation of its argument, of the same length |
| Sorting.SortSorted | bwt_package/bwt_script.py:8 | under a total preorder the sorted list is in nondecreasing order |
| Sorting.SortedUnique | bwt_package/bwt_script.py:21 | two sorted permutations of the same list are equal when the order is antisymmetric, so distinct `(char, index)` tuples have one sorted order |
| Sorting.DistinctSameElements | bwt_package/bwt_script.py:28 | two lists without repeats, holding the same values, are permutations of each other |
| Sorting.Map | bwt_package/bwt_script.py:22 | the comprehension `[f(x) for x in xs]` (here and, as a generator, at line 9): one result per element, result `i` being `f(xs[i])` |
| Lex.LexLe | bwt_package/bwt_script.py:8 | Python's `<=` on `str`, which `sorted(indices)` uses: a prefix compares before the longer string, and when the first characters differ they decide |
| Lex.LexLeTotalOrder | bwt_package/bwt_script.py:8 | Python's string comparison is total, transitive and antisymmetric |
| Lex.LexLeDropLast | bwt_package/bwt_script.py:8 | equal-length strings ending in the same character compare, in both directions, exactly as they do without it |
| Lex.LexLeCons | bwt_package/bwt_script.py:8 | strings with the same first character compare as their remainders do |
| Transform.Rotate | bwt_package/bwt_script.py:7 | `s[i:] + s[:i]` has the length of `s`, and its character `k` is `s[(i + k) mod len(s)]` |
| Transform.Rotations | bwt_package/bwt_script.py:7 | the rotation list has one entry per position; entry `i` is the left rotation by `i` |
| Transform.Last | bwt_package/bwt_script.py:9 | the generator's loop variable shadows the list `sorted_indices`, so `sorted_indices[-1][-1]` is the last character of each sorted rotation (`[-1]` of a one-character string is that character) |
| Transform.SortedRotations | bwt_package/bwt_script.py:8 | the sorted list is a nondecreasing permutation of the rotations, each of the full length |
| Transform.RotationsLastPermutation | bwt_package/bwt_script.py:7-9 | the last characters of the unsorted rotations, one per position, rearrange the string |
| Transform.LastColumnPermutation | bwt_package/bwt_script.py:9 | the last characters of the sorted rotations rearrange the string |
| Transform.Bwt | bwt_package/bwt_script.py:5-14 | entry `i` of the rotation list is `input + '$'` rotated left by `i`; the sorted list is a sorted permutation of that list; output char `k` is the last char of sorted row `k`; the output has `len(input) + 1` characters that rearrange `input + '$'`; a `'$'`-free input gives exactly one `'$'`; the other copies are bwt.py:12-21, main_bwt_ms.py:13-28, GUI_iterations/GUI3.py:6-21, bwt_tool.py:6-21, GUI_iterations/GUI.py:8-23 |
| Transform.BwtOfEmpty | bwt_package/bwt_script.py:6-9 | `bwt("")` encodes to `"$"` |
| Inversion.WithSentinel | bwt_package/bwt_script.py:17-18 | the extended input always holds a `'$'` |
| Inversion.IndexOf | bwt_package/bwt_script.py:23-29 | `s.index(c)`, called at lines 23 and 29, is a position holding `c` with no earlier `c` |
| Inversion.Range | bwt_package/bwt_script.py:28 | `range(n)` lists `0..n-1` in order |
| Inversion.Enumerate | bwt_package/bwt_script.py:20 | `tuples` pairs each character with its position, in order |
| Inversion.PairLe | bwt_package/bwt_script.py:21 | Python's `<=` on `(char, int)` tuples: when the characters differ they decide, otherwise the indices do |
| Inversion.CharAt | bwt_package/bwt_script.py:28 | the sort key `bwt_encoded[x]` for a position in range; a position out of range, which the sort never passes, gets `'$'` |
| Inversion.ByChar | bwt_package/bwt_script.py:28 | comparing positions by the key `bwt_encoded[x]` is a total preorder, so `sorted` orders by it |
| Inversion.SortStable | bwt_package/bwt_script.py:28 | sorting ascending positions by character keeps positions with equal characters ascending |
| Inversion.SortedIndices | bwt_package/bwt_script.py:28 | `sorted_indices` has `ln` entries, each a position below `ln` |
| Inversion.SortedIndicesOrder | bwt_package/bwt_script.py:28 | `sorted_indices` lists every position exactly once, ordered by character, with ties in ascending position |
| Inversion.SortedTuples | bwt_package/bwt_script.py:20-22 | after `tuples.sort()`, tuple `r` is `(s[sorted_indices[r]], sorted_indices[r])`: the index components are `sorted_indices` |
| Inversion.First | bwt_package/bwt_script.py:22 | `char` in `for char, n in tuples` is the first component of the tuple |
| Inversion.FirstColumn | bwt_package/bwt_script.py:22 | `column_1` is a nondecreasing permutation of the extended input |
| Inversion.FirstColumnPermutation | bwt_package/bwt_script.py:22 | `column_1` rearranges the extended input |
| Inversion.FirstColumnSorted | bwt_package/bwt_script.py:21-22 | `column_1` is in nondecreasing order |
| Inversion.Walk | bwt_package/bwt_script.py:29-33 | after `steps` rounds of the walk, `steps` characters are collected and the current row stays below `ln` |
| Inversion.DecodeExtended | bwt_package/bwt_script.py:19-33 | walking `ln - 1` steps from `sorted_indices[s.index('$')]` reads one character fewer than the extended input |
| Inversion.Decode | bwt_package/bwt_script.py:16-33 | the result has one character fewer than the extended input, whether or not `'$'` had to be appended |
| Inversion.DecodeOfShort | bwt_package/bwt_script.py:17-19 | `bwt_inverse("")` and `bwt_inverse("$")` return `""` |
| Inversion.PrependColumn | bwt_package/bwt_script.py:23-27 | the first loop builds `ln` characters, and every row it reads from `tuples` and `column_1` is in bounds |
| Inversion.FollowIndices | bwt_package/bwt_script.py:29-33 | starting at `sorted_indices[s.index('$')]`, the `ln - 1` rounds of the second loop collect exactly the text `DecodeExtended` specifies |
| Inversion.InvertExtended | bwt_package/bwt_script.py:19-33 | on an input holding `'$'`, `column_1` is a nondecreasing permutation of the input and the result is the walk `DecodeExtended` defines |
| Inversion.BwtInverse | bwt_package/bwt_script.py:16-38 | `'$'` is appended only when absent; every index read stays in bounds; the first column is a sorted permutation of the extended input; the result has `ln - 1` characters and is what `Decode` specifies; the other copies are bwt.py:25-53, main_bwt_ms.py:31-65, GUI_iterations/GUI3.py:24-58, bwt_tool.py:24-58, GUI_iterations/GUI.py:26-60 |
| RoundTrip.EndMarker | bwt_package/bwt_script.py:6 | an input without `'$'` gets exactly one, at its end |
| RoundTrip.SentinelInRotation | bwt_package/bwt_script.py:7 | a rotation holds `'$'` exactly where the end of the text landed |
| RoundTrip.RotateInjective | bwt_package/bwt_script.py:7 | different rotations of a text whose only `'$'` ends it are different strings |
| RoundTrip.RotRRotate | bwt_package/bwt_script.py:7 | rotating right by one place undoes one place of left rotation |
| RoundTrip.RotRInjective | bwt_package/bwt_script.py:9 | rotating right by one place loses no information |
| RoundTrip.SortedIsRotation | bwt_package/bwt_script.py:8 | every sorted row is a rotation of `input + '$'` |
| RoundTrip.RotationIsSorted | bwt_package/bwt_script.py:8 | every rotation of `input + '$'` is a sorted row |
| RoundTrip.SortedDistinct | bwt_package/bwt_script.py:7-8 | the sorted table of a `'$'`-free input has no repeated rows |
| RoundTrip.RotROrderedByLast | bwt_package/bwt_script.py:28 | strings whose last characters differ compare, rotated right by one place, by those characters |
| RoundTrip.RotRKeepsOrder | bwt_package/bwt_script.py:28 | ordered strings of one length with the same last character stay ordered when rotated right |
| RoundTrip.RotRPairOrdered | bwt_package/bwt_script.py:28 | strings ordered by last character, and on a tie by themselves, stay ordered when rotated right |
| RoundTrip.ShiftedPairOrdered | bwt_package/bwt_script.py:28 | rows taken in `sorted_indices` order and rotated right by one place stay in sorted order, because the sort is stable |
| RoundTrip.ShiftedPairGeneric | bwt_package/bwt_script.py:28 | for a sorted table of `n` rows, each of length `n`, and its last column, rows taken in stable `sorted_indices` order stay sorted when rotated right by one place |
| RoundTrip.ShiftedSorted | bwt_package/bwt_script.py:28 | the shifted table is sorted |
| RoundTrip.ShiftedDistinct | bwt_package/bwt_script.py:28 | the shifted table has no repeated rows |
| RoundTrip.ShiftedInSorted | bwt_package/bwt_script.py:28 | every shifted row is a sorted row |
| RoundTrip.SortedInShifted | bwt_package/bwt_script.py:28 | every sorted row is a shifted row |
| RoundTrip.LastToFirst | bwt_package/bwt_script.py:28-33 | the shifted table is the sorted table: sorted row `r` is sorted row `sorted_indices[r]` rotated right by one place |
| RoundTrip.NextRow | bwt_package/bwt_script.py:33 | from the row holding rotation `i`, `current_index = sorted_indices[current_index]` reaches the row holding rotation `i + 1` |
| RoundTrip.StartRow | bwt_package/bwt_script.py:29 | the encoded string holds `'$'`, and the row at its first `'$'` holds `input + '$'` itself |
| RoundTrip.RowChar | bwt_package/bwt_script.py:32 | the row holding the left rotation by `i > 0` has `(x + '$')[i - 1]` as its encoded character |
| RoundTrip.RowOf | bwt_package/bwt_script.py:29-33 | every rotation of `x + '$'`, the whole one included, is held by some sorted row |
| RoundTrip.SameRow | bwt_package/bwt_script.py:8 | for a `'$'`-free input two sorted rows holding the same string are the same row |
| RoundTrip.RowStep | bwt_package/bwt_script.py:32-33 | on the row of rotation `i`, the walk reads character `i - 1` of `x + '$'` and `sorted_indices` takes it to the row of rotation `i + 1` |
| RoundTrip.FirstRow | bwt_package/bwt_script.py:29 | `current_index` starts on the row of rotation 1 |
| RoundTrip.RotationRows | bwt_package/bwt_script.py:29-33 | the rows of all rotations of `x + '$'`, each reading the character before its rotation point and linked to the next by `sorted_indices` |
| RoundTrip.WalkAlong | bwt_package/bwt_script.py:31-33 | a walk over any index table that moves along a chain of rows reads the characters on that chain: after `m` steps it has the first `m` characters and stands on the next row |
| RoundTrip.InverseOfBwt | bwt_package/bwt_script.py:5-38 | `bwt_inverse(bwt(x)) == x` for every `x` without `'$'`; the same code is at bwt.py:12-53, and the doc-comments at main_bwt_ms.py:32-36, GUI_iterations/GUI3.py:25-29, bwt_tool.py:25-29 and GUI_iterations/GUI.py:27-31 promise that the original string comes back without `'$'` |
| Utf8.Tail | bwt_package/bwt_script.py:41 | a continuation byte has the form `10xxxxxx` |
| Utf8.EncodeChar | bwt_package/bwt_script.py:41 | a code point has 1, 2, 3 or 4 bytes, switching at 0x80, 0x800 and 0x10000; the leading byte announces the length and the rest are continuation bytes |
| Utf8.DecodeEncodeChar | bwt_package/bwt_script.py:41 | decoding the bytes of a code point gives that code point back |
| Utf8.Encode | bwt_package/bwt_script.py:41 | a string of `n` characters encodes to between `n` and `4n` bytes |
| Utf8.EncodeAppend | bwt_package/bwt_script.py:41 | encoding a concatenation concatenates the encodings |
| Utf8.EncodeInjective | bwt_package/bwt_script.py:41 | different strings have different encodings |
| Utf8.CalculateSize | bwt_package/bwt_script.py:40-42 | the size lies between the character count and four times it; the other copies are main_bwt_ms.py:68-74, GUI_iterations/GUI3.py:61-67, bwt_tool.py:61-67, GUI_iterations/GUI.py:63-69 |
| Utf8.SizeAppend | bwt_package/bwt_script.py:41 | the size of a concatenation is the sum of the sizes |
| Utf8.SizeIsSumOfWidths | bwt_package/bwt_script.py:41 | the size is the sum over the characters of 1, 2, 3 or 4 bytes each |
| Utf8.AsciiSize | bwt_package/bwt_script.py:41 | for ASCII text the size is `len` |
| Utf8.NonAsciiSize | bwt_package/bwt_script.py:41 | text with a character at or above 0x80 is larger than its `len` |
| Metrics.CompressionRate | bwt_package/bwt_script.py:50 | an empty sequence takes the guard branch and gets rate 0; the ratio and the absolute saving are never negative |
| Metrics.MeasureCompression | bwt_package/bwt_script.py:44-57 | the sequence length is `len(input)`; the compressed size is `len(input) + 1`; the decoded string has `len(input)` characters and is the input itself when the input has no `'$'`; the other copies are bwt.py:56-75 (without the timings), main_bwt_ms.py:76-95, GUI_iterations/GUI3.py:69-88 (with the saving formula), bwt_tool.py:69-93 (with the absolute saving), GUI_iterations/GUI.py:71-90 (with the saving formula) |
| Metrics.RatesOfOneExtra | bwt_package/bwt_script.py:49-50 | with one extra character on `n > 0`, the ratio is `100 + 100/n` (above 100), the saving is `-100/n` (below 0), and the absolute saving is `100/n` |
| Metrics.RateOfTransform | GUI_iterations/GUI3.py:79-81 | the rates `measure_compression` reports for a non-empty sequence, in all three formulas |
| Metrics.RateOfEmpty | GUI_iterations/GUI3.py:81 | an empty sequence gets rate 0 under every formula and decodes to `""` |

## Left out

- Menu loops, `input()`/`print` glue and the tkinter windows. They hold no logic beyond calling the modelled functions.
- The pandas DataFrames. They are modelled as the sequences they hold:
  - `bwt`: the rotations and the sorted rotations.
  - `bwt_inverse`: `column_1` and the extended input.
  - `measure_compression`: one `Measurement` row. Its `compressedSize` is the local `compressed_size`, which no copy puts in its table; the model keeps it so that the rate can be stated.
- Metrics.MeasureCompression: rates are exact rationals, not Python floats, so float rounding is not modelled.
- Metrics.MeasureCompression: the copy in bwt.py reports no "Original Sequence" column, but the model always reports one.
- The timings in bwt.py are left out. They read the clock, which is I/O.
- source/calculator.py is not part of this model. It measures CPython object sizes with `sys.getsizeof`, which no encoding defines.
- bwt_package/setup.py is packaging metadata only.
- Python's sort is not reproduced algorithm by algorithm. It is modelled by a stable insertion sort. Any stable sort gives the same result, and for the distinct tuples any correct sort does.
- Inversion.PrependColumn: the first reconstruction loop (bwt_package/bwt_script.py:23-27) is modelled with its length and bounds only. Its result is overwritten, so nothing more is stated about it.
- Strings holding surrogate code points (U+D800 to U+DFFF) are not modelled. Python's `str` allows them and `bwt` and `bwt_inverse` accept them, but Dafny's `char` excludes them, so no operation is modelled on such strings.
- Utf8.CalculateSize: Python's encoder fails on lone surrogates. Dafny's `char` excludes surrogates, so that error path cannot arise.
- RoundTrip.InverseOfBwt: the round trip is claimed only for inputs without `'$'`. For other inputs the code walks from the first `'$'`, and nothing is stated about the result beyond its length.
