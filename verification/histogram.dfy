/** Byte buffers and the 256-bin histogram that both the entropy and the
    chi-square statistic are computed from. */
module ByteHistogram {

  /** One 8-bit unsigned value, as Python yields it when iterating over `bytes`. */
  type Byte = b: int | 0 <= b < 256

  /** Number of occurrences of `v` in `data` (Python's `bytes.count(v)`). */
  function Count(data: seq<Byte>, v: int): (n: nat)
    ensures n <= |data|
  {
    if |data| == 0 then 0
    else (if data[0] == v then 1 else 0) + Count(data[1..], v)
  }

  /** Sum of a sequence of integers. */
  function Sum(h: seq<int>): int
  {
    if |h| == 0 then 0 else h[0] + Sum(h[1..])
  }

  /** The histogram as a function of the buffer: bin `v` holds `data.count(v)`. */
  function Histogram(data: seq<Byte>): seq<nat>
  {
    seq(256, v => Count(data, v))
  }

  /** A value is counted at least once exactly when it occurs in the buffer. */
  lemma {:induction false} CountPositiveIffPresent(data: seq<Byte>, v: int)
    ensures Count(data, v) > 0 <==> v in data
  {
    if |data| > 0 {
      CountPositiveIffPresent(data[1..], v);
      assert data == [data[0]] + data[1..];
    }
  }

  /** Counting distributes over concatenation. */
  lemma {:induction false} CountAppend(a: seq<Byte>, b: seq<Byte>, v: int)
    ensures Count(a + b, v) == Count(a, v) + Count(b, v)
  {
    if |a| == 0 {
      assert a + b == b;
    } else {
      assert (a + b)[1..] == a[1..] + b;
      CountAppend(a[1..], b, v);
    }
  }

  /** `Count` is the multiplicity of `v` in the multiset of the buffer, so it
      does not depend on the order of the bytes. */
  lemma {:induction false} CountIsMultiplicity(data: seq<Byte>, v: Byte)
    ensures Count(data, v) == multiset(data)[v]
  {
    if |data| > 0 {
      assert data == [data[0]] + data[1..];
      assert multiset(data) == multiset{data[0]} + multiset(data[1..]);
      CountIsMultiplicity(data[1..], v);
    }
  }

  /** In a buffer whose bytes are all `x`, value `x` occurs `|data|` times and
      every other value never. */
  lemma {:induction false} CountConstant(data: seq<Byte>, x: Byte, v: int)
    requires forall i :: 0 <= i < |data| ==> data[i] == x
    ensures Count(data, v) == if v == x then |data| else 0
  {
    if |data| > 0 {
      CountConstant(data[1..], x, v);
    }
  }

  /** In a strictly increasing buffer every value occurs at most once. */
  lemma {:induction false} CountIncreasing(data: seq<Byte>, v: int)
    requires forall i, j :: 0 <= i < j < |data| ==> data[i] < data[j]
    ensures Count(data, v) == if v in data then 1 else 0
  {
    CountPositiveIffPresent(data, v);
    if |data| > 0 {
      CountIncreasing(data[1..], v);
      if data[0] == v {
        assert v !in data[1..] by {
          forall k | 0 <= k < |data[1..]|
            ensures data[1..][k] != v
          {
            assert data[1..][k] == data[k + 1];
          }
        }
      } else {
        assert data == [data[0]] + data[1..];
      }
    }
  }

  /** Replacing one element changes the sum by the difference. */
  lemma {:induction false} SumUpdate(h: seq<int>, i: int, d: int)
    requires 0 <= i < |h|
    ensures Sum(h[i := d]) == Sum(h) - h[i] + d
  {
    if i == 0 {
      assert h[i := d][1..] == h[1..];
    } else {
      assert h[i := d][1..] == h[1..][i - 1 := d];
      SumUpdate(h[1..], i - 1, d);
    }
  }

  /** A sequence of `|h|` copies of `c` sums to `|h| * c`. */
  lemma {:induction false} SumConstant(h: seq<int>, c: int)
    requires forall i :: 0 <= i < |h| ==> h[i] == c
    ensures Sum(h) == |h| * c
  {
    if |h| > 0 {
      SumConstant(h[1..], c);
    }
  }

  /** Appending one byte increments exactly the bin of that byte. */
  lemma HistogramSnoc(prefix: seq<Byte>, x: Byte)
    ensures Histogram(prefix + [x]) == Histogram(prefix)[x := Histogram(prefix)[x] + 1]
  {
    forall v | 0 <= v < 256
      ensures Count(prefix + [x], v) == Count(prefix, v) + (if v == x then 1 else 0)
    {
      CountAppend(prefix, [x], v);
      assert [x][1..] == [];
    }
  }

  /** The 256 bins add up to the length of the buffer. */
  lemma {:induction false} HistogramTotal(data: seq<Byte>)
    ensures Sum(Histogram(data)) == |data|
  {
    if |data| == 0 {
      SumConstant(Histogram(data), 0);
    } else {
      var prefix := data[..|data| - 1];
      var x := data[|data| - 1];
      assert data == prefix + [x];
      HistogramSnoc(prefix, x);
      SumUpdate(Histogram(prefix), x, Histogram(prefix)[x] + 1);
      HistogramTotal(prefix);
    }
  }

  /** The counting loop: start from 256 zero bins and add one to the bin of
      every byte read. Bin `v` ends up as `data.count(v)` and the bins add up
      to the length. */
  method BuildHistogram(data: seq<Byte>) returns (counts: seq<nat>)
    ensures |counts| == 256
    ensures forall v :: 0 <= v < 256 ==> counts[v] == Count(data, v)
    ensures Sum(counts) == |data|
  {
    counts := seq(256, _ => 0);
    assert counts == Histogram([]);
    assert data[..0] == [];
    var i := 0;
    while i < |data|
      invariant 0 <= i <= |data|
      invariant counts == Histogram(data[..i])
    {
      var b := data[i];
      assert data[..i + 1] == data[..i] + [b];
      HistogramSnoc(data[..i], b);
      counts := counts[b := counts[b] + 1];
      i := i + 1;
    }
    assert data[..i] == data;
    HistogramTotal(data);
  }
}
