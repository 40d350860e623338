/** The computing part of the per-file analysis: the statistics of one
    buffer, run in the order the file analysis runs them. A division by zero
    in any of them aborts the whole report, which the file analysis then
    prints as an error line instead of the results. */
module AnalysisPipeline {
  import opened ByteHistogram
  import opened Results
  import EntropyAnalyzer
  import ChiSquareAnalyzer
  import MonteCarloAnalyzer

  /** The values printed for one file. */
  datatype Report = Report(
    fileName: string,
    byteLength: nat,
    entropy: real,
    chiSquare: real,
    monteCarlo: real)

  /** Analyse one already-read buffer. Only an empty buffer aborts (through
      the chi-square's division by zero); every other buffer yields a report
      with a non-negative chi-square and an estimate in [0, 4]. */
  function AnalyzeBuffer(fileName: string, data: seq<Byte>, log2: real -> real): (r: Result<Report>)
    ensures r.DivisionByZero? <==> |data| == 0
    ensures r.Ok? ==> r.value.fileName == fileName && r.value.byteLength == |data|
    ensures r.Ok? ==> r.value.chiSquare >= 0.0 && 0.0 <= r.value.monteCarlo <= 4.0
  {
    var entropy := EntropyAnalyzer.Entropy(data, log2);
    match ChiSquareAnalyzer.Pearson(data)
    case DivisionByZero => DivisionByZero
    case Ok(chi) =>
      var pi := MonteCarloAnalyzer.MonteCarlo(data);
      Ok(Report(fileName, |data|, entropy, chi, pi))
  }

  /** A non-empty buffer of one repeated value `v` is reported with entropy 0
      (given `log2(1) = 0`), a strictly positive chi-square, and an estimate of
      4 when it holds a pair and `2 v^2 <= 255^2`, and 0 otherwise. */
  lemma ConstantBufferReport(fileName: string, data: seq<Byte>, log2: real -> real)
    requires |data| > 0
    requires forall i :: 0 <= i < |data| ==> data[i] == data[0]
    requires log2(1.0) == 0.0
    ensures AnalyzeBuffer(fileName, data, log2).Ok?
    ensures AnalyzeBuffer(fileName, data, log2).value.entropy == 0.0
    ensures AnalyzeBuffer(fileName, data, log2).value.chiSquare > 0.0
    ensures AnalyzeBuffer(fileName, data, log2).value.monteCarlo
            == if |data| >= 2 && 2 * data[0] * data[0] <= MonteCarloAnalyzer.RadiusSquared then 4.0 else 0.0
  {
    EntropyAnalyzer.EntropyOfConstant(data, log2);
    ChiSquareAnalyzer.PearsonZeroIffUniform(data);
    var other := if data[0] == 0 then 1 else 0;
    CountConstant(data, data[0], other);
    assert !ChiSquareAnalyzer.Uniform(data) by {
      assert Count(data, other) as real != ChiSquareAnalyzer.Expected(data);
    }
    if |data| >= 2 {
      MonteCarloAnalyzer.MonteCarloConstant(data, data[0]);
    }
  }
}
