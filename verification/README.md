# Byte statistics of a file-content scanner

A Dafny model of the byte-statistics core of a small scanner that
characterises file contents to spot encrypted or compressed data. For one
already-read byte buffer it computes:

- a 256-bin byte histogram and the Shannon entropy over its non-empty bins
  (`calculate_entropy`);
- Pearson's chi-square statistic against the uniform distribution over the
  256 byte values (`pearson_criterion`);
- a Monte Carlo estimate of pi from consecutive non-overlapping byte pairs
  read as points of the unit square (`monte_carlo_test`);
- and, as the composition point, the values the per-file analysis reports
  (`analyze_file` without its file reading and printing).

Modelling choices:

- A byte is `ByteHistogram.Byte`, an `int` in 0..255; a buffer is `seq<Byte>`.
- Python floats are Dafny `real`, which is exact. So the order in which a
  sum is added up does not matter, and there is no rounding.
- The base-2 logarithm is a parameter `log2: real -> real` of the entropy.
  The only fact about it that any lemma assumes is `log2(1) = 0`.
- Python's `ZeroDivisionError` is the `DivisionByZero` case of
  `Results.Result`.
- The quarter-circle test is written over reals, as the source writes it.
  `MonteCarloAnalyzer.InCircleIntegerTest` proves it equal to `a^2 + b^2 <= 255^2`.

Modules: `ByteHistogram` (histogram.dfy), `EntropyAnalyzer` (entropy.dfy),
`ChiSquareAnalyzer` (chisquare.dfy), `MonteCarloAnalyzer` (montecarlo.dfy),
`AnalysisPipeline` (analysis.dfy) and the shared error type `Results`
(results.dfy).

On an empty buffer `pearson_criterion` computes `expected = 0` and divides
by it (main.py:27-28). The `except` of `analyze_file` (main.py:71-72) then
replaces the whole report with an error line. `ChiSquareAnalyzer.Pearson` and
`AnalysisPipeline.AnalyzeBuffer` model this.

## Model

| member | source | states |
|---|---|---|
| `ByteHistogram.Count` | main.py:28 | `data.count(v)` never exceeds the buffer length |
| `ByteHistogram.CountPositiveIffPresent` | main.py:28 | `data.count(v)` is positive exactly when `v` occurs in the buffer |
| `ByteHistogram.CountIsMultiplicity` | main.py:28 | `data.count(v)` is the multiplicity of `v` in the buffer's multiset, so it does not depend on byte order |
| `ByteHistogram.CountAppend` | main.py:11-12 | counting a concatenation adds the counts of the two parts |
| `ByteHistogram.HistogramSnoc` | main.py:11-12 | reading one more byte increments exactly that byte's bin and leaves the other 255 alone |
| `ByteHistogram.HistogramTotal` | main.py:10-12 | the 256 bins add up to the buffer length |
| `ByteHistogram.BuildHistogram` | main.py:10-12 | the counting loop leaves 256 bins, bin `v` equal to `data.count(v)` (the count the chi-square uses), adding up to the length |
| `EntropyAnalyzer.Entropy` | main.py:7-14 | the empty buffer has entropy 0, decided before anything is divided by the length |
| `EntropyAnalyzer.CalculateEntropy` | main.py:7-14 | the loop-built histogram followed by a bin-by-bin sum that skips empty bins gives the entropy of the buffer |
| `EntropyAnalyzer.TermsOfFullBins` | main.py:13 | bins that are empty or hold every byte contribute nothing once `log2(1) = 0` |
| `EntropyAnalyzer.EntropyOfConstant` | main.py:13 | a non-empty buffer of one repeated value has entropy 0 when `log2(1) = 0` |
| `EntropyAnalyzer.ProbabilityInUnitInterval` | main.py:13 | every probability `count / len(data)` of a non-empty bin lies in (0, 1] |
| `EntropyAnalyzer.EntropyOnlyUsesPositiveProbabilities` | main.py:13 | only non-empty bins contribute: two logarithms that agree on (0, 1] give the same entropy, so `log2(0)` is never needed |
| `EntropyAnalyzer.EntropyPermutationInvariant` | main.py:10-13 | reordering the bytes does not change the entropy |
| `ChiSquareAnalyzer.Term` | main.py:28 | each summand `(c - e)^2 / e` is non-negative and is 0 exactly when the count equals the expected count |
| `ChiSquareAnalyzer.SumFrom` | main.py:28 | the sum of the summands over byte values `v`..255 is non-negative |
| `ChiSquareAnalyzer.SumFromZeroIff` | main.py:28 | that sum is 0 exactly when every count from `v` on equals the expected count |
| `ChiSquareAnalyzer.Pearson` | main.py:26-29 | the statistic fails by division by zero exactly on the empty buffer, and is non-negative otherwise |
| `ChiSquareAnalyzer.PearsonZeroIffUniform` | main.py:27-28 | on a non-empty buffer the statistic is 0 exactly when every byte value occurs `len(data) / 256` times, in both directions |
| `ChiSquareAnalyzer.EachValueOnceIsUniform` | main.py:27-28 | a buffer holding every byte value exactly once has 256 bytes and chi-square 0 |
| `ChiSquareAnalyzer.AscendingBytesChiSquareZero` | main.py:27-28 | the buffer 0, 1, ..., 255 has chi-square 0 |
| `MonteCarloAnalyzer.InCircleIntegerTest` | main.py:37-38 | the point `(a/255, b/255)` is inside the unit quarter-circle exactly when `a^2 + b^2 <= 255^2` |
| `MonteCarloAnalyzer.InsideCount` | main.py:34-39 | among the first `k` pairs at most `k` are inside |
| `MonteCarloAnalyzer.MonteCarlo` | main.py:31-40 | the estimate is 0 for fewer than two bytes and always lies in [0, 4] |
| `MonteCarloAnalyzer.MonteCarloTest` | main.py:31-40 | the loop over even indices below `2 * (len // 2)` computes four times the inside fraction of the pairs |
| `MonteCarloAnalyzer.InsideCountPrefix` | main.py:35-39 | pairs within a prefix are counted the same whatever follows the prefix |
| `MonteCarloAnalyzer.TrailingByteIgnored` | main.py:35-40 | appending one byte to an even-length buffer leaves the estimate unchanged |
| `MonteCarloAnalyzer.InsideCountConstant` | main.py:36-39 | in a constant buffer either all pairs are inside or none is |
| `MonteCarloAnalyzer.MonteCarloConstant` | main.py:36-40 | at least two copies of one value `v` estimate 4 when `2 v^2 <= 255^2` and 0 otherwise |
| `AnalysisPipeline.AnalyzeBuffer` | main.py:61-72 | a file's analysis aborts exactly on the empty buffer; otherwise it reports the length, a non-negative chi-square and an estimate in [0, 4] |
| `AnalysisPipeline.ConstantBufferReport` | main.py:61-64 | a non-empty constant buffer reports entropy 0, a positive chi-square, and an estimate of 4 when it holds two bytes and `2 v^2 <= 255^2`, 0 otherwise (including a single byte) |

## Left out

- `wavelet_analysis` (main.py:16-24) calls into an external wavelet library with floating-point coefficients. That library is not part of this model, so the `Report` has no wavelet field. Its `len(data) < 8` guard, which returns 0, is not modelled either.
- `scan_registry_for_sksi` (main.py:42-54) reads the Windows registry. It is I/O only.
- File reading, `os.path.basename`, printing, `scan_directory` and the interactive entry point (main.py:56-89) are I/O. `AnalysisPipeline.AnalyzeBuffer` takes the file name and the already-read bytes as parameters.
- EntropyAnalyzer.Entropy: does not state `0 <= entropy <= 8`. That bound needs properties of the logarithm, and the model keeps `log2` abstract.
- IEEE-754 rounding is not modelled. The model sums in exact reals.
- Points exactly on the circle, such as (153, 204), are counted as inside. In floating point the source may round them either way.
- Python returns the integer `0` from the short-input guards and a float otherwise. The model returns the real `0.0` in both cases.
