/**
 * `measure_compression`: transform a sequence, decode the result again, and
 * report the sizes and a compression rate. The copies of the program differ
 * in the rate they report, so the formula is a parameter. Rates are exact
 * rationals here, where Python computes them in floating point.
 */
module Metrics {
  import opened Transform
  import opened Inversion
  import opened RoundTrip

  /** The three rate formulas found in the copies. */
  datatype RateFormula =
    | Ratio      // `compressed_size / original_size`
    | Saving     // `(original_size - compressed_size) / original_size`
    | AbsSaving  // `abs(...)` of the percentage of `Saving`

  /**
   * The row of the table that `measure_compression` returns, together with
   * its local `compressed_size`, which no table column shows.
   */
  datatype Measurement = Measurement(
    sequence: string,
    originalSequence: string,
    sequenceLength: nat,
    compressedSize: nat,
    compressionRate: real)

  /** The rate as a percentage, 0 for an empty sequence. */
  function CompressionRate(formula: RateFormula, originalSize: nat, compressedSize: nat): (rate: real)
    ensures originalSize == 0 ==> rate == 0.0
    ensures formula == AbsSaving ==> rate >= 0.0
    ensures formula == Ratio ==> rate >= 0.0
  {
    if originalSize == 0 then 0.0
    else
      var fraction := match formula
        case Ratio => compressedSize as real / originalSize as real
        case Saving | AbsSaving => (originalSize as real - compressedSize as real) / originalSize as real;
      if formula == AbsSaving && fraction < 0.0 then -fraction * 100.0 else fraction * 100.0
  }

  /** `measure_compression(input_sequence)` */
  function MeasureCompression(input: string, formula: RateFormula): (m: Measurement)
    ensures m.sequence == input && m.sequenceLength == |input|
    ensures m.compressedSize == |input| + 1
    ensures Sentinel !in input ==> m.originalSequence == input
    ensures |m.originalSequence| == |input|
    ensures m.compressionRate == CompressionRate(formula, |input|, |input| + 1)
  {
    var encoded := Bwt(input).encoded;
    assert Sentinel in encoded by {
      assert (input + [Sentinel])[|input|] == Sentinel;
      assert Sentinel in multiset(input + [Sentinel]);
    }
    assert Sentinel !in input ==> Decode(encoded) == input by {
      if Sentinel !in input {
        InverseOfBwt(input);
      }
    }
    var original := Decode(encoded);
    Measurement(input, original, |input|, |encoded|,
                CompressionRate(formula, |input|, |encoded|))
  }

  /**
   * One extra character on `n > 0`: the ratio is `100 (n + 1) / n`, above
   * 100, the saving is `-100 / n`, below 0, and its absolute value is `100 / n`.
   */
  lemma RatesOfOneExtra(n: nat)
    requires n > 0
    ensures CompressionRate(Ratio, n, n + 1) == 100.0 + 100.0 / n as real > 100.0
    ensures CompressionRate(Saving, n, n + 1) == -100.0 / n as real < 0.0
    ensures CompressionRate(AbsSaving, n, n + 1) == 100.0 / n as real
  {
    var r := n as real;
    assert (r + 1.0) / r == 1.0 + 1.0 / r;
    assert (r - (r + 1.0)) / r == -1.0 / r;
  }

  /** The rates that `measure_compression` reports, as the transform always adds one character. */
  lemma RateOfTransform(input: string)
    requires |input| > 0
    ensures MeasureCompression(input, Ratio).compressionRate > 100.0
    ensures MeasureCompression(input, Saving).compressionRate == -100.0 / |input| as real
    ensures MeasureCompression(input, AbsSaving).compressionRate == 100.0 / |input| as real
  {
    RatesOfOneExtra(|input|);
  }

  /** An empty sequence takes the guard branch: every formula reports 0. */
  lemma RateOfEmpty(formula: RateFormula)
    ensures MeasureCompression([], formula).compressionRate == 0.0
    ensures MeasureCompression([], formula).originalSequence == []
  {
  }
}
