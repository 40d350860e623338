/** The Monte Carlo estimate of pi: consecutive non-overlapping byte pairs are
    points of the unit square, and four times the fraction of them that fall
    inside the unit quarter-circle estimates pi. */
module MonteCarloAnalyzer {
  import opened ByteHistogram

  /** 255 squared: the radius of the quarter-circle in byte units. */
  const RadiusSquared: int := 65025

  /** The point `(a / 255, b / 255)` lies inside or on the unit quarter-circle. */
  predicate InCircle(a: Byte, b: Byte)
  {
    var x := a as real / 255.0;
    var y := b as real / 255.0;
    x * x + y * y <= 1.0
  }

  /** The real-number membership test is the integer test `a^2 + b^2 <= 255^2`. */
  lemma InCircleIntegerTest(a: Byte, b: Byte)
    ensures InCircle(a, b) <==> a * a + b * b <= RadiusSquared
  {
  }

  /** How many of the first `k` pairs `(data[2i], data[2i+1])` are inside. */
  function InsideCount(data: seq<Byte>, k: nat): (n: nat)
    requires 2 * k <= |data|
    ensures n <= k
  {
    if k == 0 then 0
    else InsideCount(data, k - 1) + (if InCircle(data[2 * k - 2], data[2 * k - 1]) then 1 else 0)
  }

  /** The estimate: 0 for fewer than two bytes; otherwise four times the
      fraction of the `len(data) // 2` pairs that are inside. It lies in
      [0, 4]. */
  function MonteCarlo(data: seq<Byte>): (r: real)
    ensures |data| < 2 ==> r == 0.0
    ensures 0.0 <= r <= 4.0
  {
    if |data| < 2 then 0.0
    else
      var pairs := |data| / 2;
      var inside := InsideCount(data, pairs);
      assert inside as real / pairs as real <= 1.0 by {
        assert inside as real <= pairs as real;
      }
      (inside as real / pairs as real) * 4.0
  }

  /** The loop as written: step through even indices below `2 * pairs`,
      counting the points inside, then scale the fraction by 4. */
  method MonteCarloTest(data: seq<Byte>) returns (r: real)
    ensures r == MonteCarlo(data)
  {
    if |data| < 2 {
      return 0.0;
    }
    var inside := 0;
    var total := |data| / 2;
    var i := 0;
    while i < total * 2
      invariant 0 <= i <= total * 2
      invariant i % 2 == 0
      invariant inside == InsideCount(data, i / 2)
    {
      if InCircle(data[i], data[i + 1]) {
        inside := inside + 1;
      }
      i := i + 2;
    }
    r := (inside as real / total as real) * 4.0;
  }

  /** Pairs that lie within a prefix do not see what follows it. */
  lemma {:induction false} InsideCountPrefix(data: seq<Byte>, tail: seq<Byte>, k: nat)
    requires 2 * k <= |data|
    ensures InsideCount(data + tail, k) == InsideCount(data, k)
  {
    if k > 0 {
      InsideCountPrefix(data, tail, k - 1);
      assert (data + tail)[2 * k - 2] == data[2 * k - 2];
      assert (data + tail)[2 * k - 1] == data[2 * k - 1];
    }
  }

  /** A trailing unpaired byte is ignored: appending one byte to an
      even-length buffer leaves the estimate unchanged. */
  lemma TrailingByteIgnored(data: seq<Byte>, b: Byte)
    requires |data| % 2 == 0
    ensures MonteCarlo(data + [b]) == MonteCarlo(data)
  {
    if |data| >= 2 {
      InsideCountPrefix(data, [b], |data| / 2);
    }
  }

  /** In a buffer of one repeated value every pair is the same point, so all
      pairs are inside or none is. */
  lemma {:induction false} InsideCountConstant(data: seq<Byte>, v: Byte, k: nat)
    requires 2 * k <= |data|
    requires forall i :: 0 <= i < |data| ==> data[i] == v
    ensures InsideCount(data, k) == if InCircle(v, v) then k else 0
  {
    if k > 0 {
      InsideCountConstant(data, v, k - 1);
    }
  }

  /** A buffer of at least two copies of one value `v` estimates 4 when
      `2 v^2 <= 255^2` (that is, `v <= 180`) and 0 otherwise. */
  lemma MonteCarloConstant(data: seq<Byte>, v: Byte)
    requires |data| >= 2
    requires forall i :: 0 <= i < |data| ==> data[i] == v
    ensures MonteCarlo(data) == if 2 * v * v <= RadiusSquared then 4.0 else 0.0
  {
    var pairs := |data| / 2;
    InsideCountConstant(data, v, pairs);
    InCircleIntegerTest(v, v);
    assert MonteCarlo(data) == (InsideCount(data, pairs) as real / pairs as real) * 4.0;
    if InCircle(v, v) {
      assert pairs > 0 && InsideCount(data, pairs) == pairs;
      assert InsideCount(data, pairs) as real / pairs as real == 1.0;
    } else {
      assert InsideCount(data, pairs) == 0;
    }
  }
}
