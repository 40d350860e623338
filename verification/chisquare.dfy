/** Pearson's chi-square statistic of a byte buffer against the uniform
    distribution over the 256 byte values. */
module ChiSquareAnalyzer {
  import opened ByteHistogram
  import opened Results

  /** The count every byte value would have in a perfectly uniform buffer:
      `len(data) / 256`. */
  function Expected(data: seq<Byte>): real
  {
    |data| as real / 256.0
  }

  /** Every byte value occurs exactly `len(data) / 256` times. */
  predicate Uniform(data: seq<Byte>)
  {
    forall v :: 0 <= v < 256 ==> Count(data, v) as real == Expected(data)
  }

  /** One summand `(c - e)^2 / e`; it is never negative, and it is 0 exactly
      when the observed count equals the expected one. */
  function Term(c: nat, e: real): (t: real)
    requires e > 0.0
    ensures t >= 0.0
    ensures t == 0.0 <==> c as real == e
  {
    var d := c as real - e;
    SquarePositive(d);
    d * d / e
  }

  /** A square is never negative, and it is 0 only for 0. */
  lemma SquarePositive(d: real)
    ensures d * d >= 0.0
    ensures d * d == 0.0 <==> d == 0.0
  {
    if d != 0.0 {
      assert d == (d * d) / d;
      if d < 0.0 {
        assert d * d == (-d) * (-d);
      }
    }
  }

  /** The summands for byte values `v` through 255. */
  function SumFrom(data: seq<Byte>, e: real, v: int): (s: real)
    requires e > 0.0
    requires 0 <= v <= 256
    ensures s >= 0.0
    decreases 256 - v
  {
    if v == 256 then 0.0
    else Term(Count(data, v), e) + SumFrom(data, e, v + 1)
  }

  /** Pearson's chi-square. On an empty buffer the expected count is 0 and the
      first summand divides by it, so the computation aborts. */
  function Pearson(data: seq<Byte>): (r: Result<real>)
    ensures r.DivisionByZero? <==> |data| == 0
    ensures r.Ok? ==> r.value >= 0.0
  {
    var e := Expected(data);
    if e == 0.0 then DivisionByZero
    else Ok(SumFrom(data, e, 0))
  }

  /** The summands from `v` on add up to 0 exactly when every count from `v`
      on equals the expected count. */
  lemma {:induction false} SumFromZeroIff(data: seq<Byte>, e: real, v: int)
    requires e > 0.0
    requires 0 <= v <= 256
    ensures SumFrom(data, e, v) == 0.0 <==> forall w :: v <= w < 256 ==> Count(data, w) as real == e
    decreases 256 - v
  {
    if v < 256 {
      SumFromZeroIff(data, e, v + 1);
      var t := Term(Count(data, v), e);
      var rest := SumFrom(data, e, v + 1);
      assert SumFrom(data, e, v) == t + rest;
      if SumFrom(data, e, v) == 0.0 {
        assert t == 0.0 && rest == 0.0;
        assert Count(data, v) as real == e;
      } else if t != 0.0 {
        assert Count(data, v) as real != e;
      } else {
        assert rest != 0.0;
        var w :| v + 1 <= w < 256 && Count(data, w) as real != e;
      }
    }
  }

  /** For a non-empty buffer the statistic is 0 exactly on a perfectly
      uniform histogram. */
  lemma PearsonZeroIffUniform(data: seq<Byte>)
    requires |data| > 0
    ensures Pearson(data).Ok?
    ensures Pearson(data).value == 0.0 ==> Uniform(data)
    ensures Uniform(data) ==> Pearson(data).value == 0.0
  {
    SumFromZeroIff(data, Expected(data), 0);
  }

  /** A buffer in which every byte value occurs exactly once is 256 bytes
      long and has chi-square 0. */
  lemma EachValueOnceIsUniform(data: seq<Byte>)
    requires forall v :: 0 <= v < 256 ==> Count(data, v) == 1
    ensures |data| == 256
    ensures Pearson(data) == Ok(0.0)
  {
    HistogramTotal(data);
    SumConstant(Histogram(data), 1);
    PearsonZeroIffUniform(data);
  }

  /** The ascending buffer 0, 1, ..., 255 has chi-square 0. */
  lemma AscendingBytesChiSquareZero(s: seq<Byte>)
    requires |s| == 256
    requires forall i :: 0 <= i < 256 ==> s[i] == i
    ensures Pearson(s) == Ok(0.0)
  {
    forall v | 0 <= v < 256
      ensures Count(s, v) == 1
    {
      CountIncreasing(s, v);
      assert s[v] == v;
    }
    EachValueOnceIsUniform(s);
  }
}
