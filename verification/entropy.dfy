/** Shannon entropy of a byte buffer, in bits.

    The base-2 logarithm is not modelled: it is a parameter `log2`, and the
    only fact ever assumed about it is `log2(1) = 0`. Arithmetic is exact
    (`real`), so the order in which the terms are added does not matter. */
module EntropyAnalyzer {
  import opened ByteHistogram

  /** The probability of a bin holding `c` of the `n` bytes. */
  function Probability(c: nat, n: nat): real
    requires n > 0
  {
    c as real / n as real
  }

  /** Sum of `p * log2(p)` over the non-empty bins of `counts` out of `n`
      bytes; empty bins are skipped, so `log2` is never applied to 0. */
  function Terms(counts: seq<nat>, n: nat, log2: real -> real): real
    requires n > 0
  {
    if |counts| == 0 then 0.0
    else if counts[0] == 0 then Terms(counts[1..], n, log2)
    else
      var p := Probability(counts[0], n);
      p * log2(p) + Terms(counts[1..], n, log2)
  }

  /** Entropy of `data`: 0 for the empty buffer, checked before anything is
      divided by the length; otherwise minus the sum of `p * log2(p)` over
      the non-empty histogram bins. */
  function Entropy(data: seq<Byte>, log2: real -> real): (e: real)
    ensures |data| == 0 ==> e == 0.0
  {
    if |data| == 0 then 0.0
    else -Terms(Histogram(data), |data|, log2)
  }

  /** The computation as written: build the histogram with the counting
      loop, then add up the terms of the non-empty bins in bin order. */
  method CalculateEntropy(data: seq<Byte>, log2: real -> real) returns (e: real)
    ensures e == Entropy(data, log2)
  {
    if |data| == 0 {
      return 0.0;
    }
    var counts := BuildHistogram(data);
    assert counts == Histogram(data);
    var n := |data|;
    var acc := 0.0;
    var i := 0;
    while i < 256
      invariant 0 <= i <= 256
      invariant acc + Terms(counts[i..], n, log2) == Terms(counts, n, log2)
    {
      assert counts[i..][1..] == counts[i + 1..];
      if counts[i] != 0 {
        var p := Probability(counts[i], n);
        acc := acc + p * log2(p);
      }
      i := i + 1;
    }
    e := -acc;
  }

  /** Bins that are either empty or hold all `n` bytes contribute nothing
      once `log2(1) = 0`. */
  lemma {:induction false} TermsOfFullBins(counts: seq<nat>, n: nat, log2: real -> real)
    requires n > 0
    requires log2(1.0) == 0.0
    requires forall i :: 0 <= i < |counts| ==> counts[i] == 0 || counts[i] == n
    ensures Terms(counts, n, log2) == 0.0
  {
    if |counts| > 0 {
      TermsOfFullBins(counts[1..], n, log2);
      if counts[0] != 0 {
        assert Probability(counts[0], n) == 1.0;
      }
    }
  }

  /** A non-empty buffer of one repeated byte value has entropy 0: its one
      non-empty bin has probability 1, and `log2(1) = 0`. */
  lemma EntropyOfConstant(data: seq<Byte>, log2: real -> real)
    requires |data| > 0
    requires forall i :: 0 <= i < |data| ==> data[i] == data[0]
    requires log2(1.0) == 0.0
    ensures Entropy(data, log2) == 0.0
  {
    forall v | 0 <= v < 256
      ensures Histogram(data)[v] == 0 || Histogram(data)[v] == |data|
    {
      CountConstant(data, data[0], v);
    }
    TermsOfFullBins(Histogram(data), |data|, log2);
  }

  /** A non-empty bin has a probability in (0, 1]. */
  lemma ProbabilityInUnitInterval(c: nat, n: nat)
    requires 0 < c <= n
    ensures 0.0 < Probability(c, n) <= 1.0
  {
    var p := Probability(c, n);
    assert p * n as real == c as real;
  }

  /** Terms only look at `log2` on probabilities in (0, 1]. */
  lemma {:induction false} TermsAgree(counts: seq<nat>, n: nat, f: real -> real, g: real -> real)
    requires n > 0
    requires forall i :: 0 <= i < |counts| ==> counts[i] <= n
    requires forall p :: 0.0 < p <= 1.0 ==> f(p) == g(p)
    ensures Terms(counts, n, f) == Terms(counts, n, g)
  {
    if |counts| > 0 {
      TermsAgree(counts[1..], n, f, g);
      if counts[0] != 0 {
        ProbabilityInUnitInterval(counts[0], n);
      }
    }
  }

  /** Only the non-empty bins contribute: the entropy depends on `log2` only
      at probabilities in (0, 1], never at 0, where Python's `math.log2`
      would raise a domain error. */
  lemma EntropyOnlyUsesPositiveProbabilities(data: seq<Byte>, f: real -> real, g: real -> real)
    requires forall p :: 0.0 < p <= 1.0 ==> f(p) == g(p)
    ensures Entropy(data, f) == Entropy(data, g)
  {
    if |data| > 0 {
      TermsAgree(Histogram(data), |data|, f, g);
    }
  }

  /** The entropy depends on the bytes only through their multiset: any
      reordering of the buffer has the same entropy. */
  lemma EntropyPermutationInvariant(a: seq<Byte>, b: seq<Byte>, log2: real -> real)
    requires multiset(a) == multiset(b)
    ensures Entropy(a, log2) == Entropy(b, log2)
  {
    assert |a| == |multiset(a)| == |multiset(b)| == |b|;
    forall v | 0 <= v < 256
      ensures Histogram(a)[v] == Histogram(b)[v]
    {
      CountIsMultiplicity(a, v);
      CountIsMultiplicity(b, v);
    }
    assert Histogram(a) == Histogram(b);
  }
}
