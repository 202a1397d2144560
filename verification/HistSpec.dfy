/**
 * What a self-resizing histogram should hold, stated over the whole sample history, and
 * what the three bucket folds do to bucket contents and totals.
 */
module HistSpec {
  import opened BitOps

  datatype Sample = Sampled(val: real, number: int)

  // ----- totals and weights of a history -----

  function Total(c: seq<int>): int
  {
    if c == [] then 0 else Total(c[..|c| - 1]) + c[|c| - 1]
  }

  function Numbers(h: seq<Sample>): int
  {
    if h == [] then 0 else Numbers(h[..|h| - 1]) + h[|h| - 1].number
  }

  /** The three running sums: of the values, of their squares and of their logarithms. */
  datatype Moments = Moments(sum: real, squares: real, logs: real)

  function Plus(a: Moments, b: Moments): Moments
  {
    Moments(a.sum + b.sum, a.squares + b.squares, a.logs + b.logs)
  }

  /**
   * What one sample adds to each sum. Products of doubles and the logarithm are the
   * platform's, so most of what follows is for any measure; this is the exact one.
   */
  function Exact(log: real -> real): Measure
  {
    (s: Sample) =>
      var n := s.number as real;
      Moments(s.val * n, s.val * s.val * n, log(s.val) * n)
  }

  type Measure = Sample -> Moments

  function MomentsOf(h: seq<Sample>, measure: Measure): Moments
  {
    if h == [] then Moments(0.0, 0.0, 0.0) else Plus(MomentsOf(h[..|h| - 1], measure), measure(h[|h| - 1]))
  }

  /** The length of n buckets of size b. */
  function Span(n: nat, b: int): (r: int)
    ensures b > 0 ==> r >= 0 && (n > 0 ==> r >= b)
  {
    if n == 0 then 0 else Span(n - 1, b) + b
  }

  lemma {:induction false} SpanIsProduct(n: nat, b: int)
    ensures Span(n, b) == n * b
  {
    if n > 0 {
      SpanIsProduct(n - 1, b);
      assert n * b == (n - 1) * b + b;
    }
  }

  lemma {:induction false} SpanDoubles(n: nat, b: int)
    ensures Span(n, 2 * b) == 2 * Span(n, b)
  {
    if n > 0 { SpanDoubles(n - 1, b); }
  }

  lemma {:induction false} SpanIncreases(n: nat, b: int, b': int)
    requires n > 0 && b < b'
    ensures Span(n, b) < Span(n, b')
  {
    if n > 1 { SpanIncreases(n - 1, b, b'); }
  }

  /** floor(f / b), counted in steps of b. */
  function Bucket(f: int, b: int): int
    requires b > 0
    decreases if f < 0 then b - f else f
  {
    if f < 0 then Bucket(f + b, b) - 1 else if f < b then 0 else Bucket(f - b, b) + 1
  }

  lemma {:induction false} BucketIsQuotient(f: int, b: int)
    requires b > 0
    ensures Bucket(f, b) == f / b
    decreases if f < 0 then b - f else f
  {
    if f < 0 {
      BucketIsQuotient(f + b, b);
      NextQuotient(f, b);
    } else if f < b {
      DivModIs(f, b, 0, f);
    } else {
      BucketIsQuotient(f - b, b);
      NextQuotient(f - b, b);
    }
  }

  lemma NextQuotient(f: int, b: int)
    requires b > 0
    ensures (f + b) / b == f / b + 1
  {
    var q, r := f / b, f % b;
    assert f == b * q + r;
    assert b * (q + 1) == b * q + b;
    DivModIs(f + b, b, q + 1, r);
  }

  /** The number of samples v with floor(v / b) = i. */
  function Weight(h: seq<Sample>, i: int, b: int): int
    requires b > 0
  {
    if h == [] then 0
    else
      var s := h[|h| - 1];
      Weight(h[..|h| - 1], i, b) + if Bucket(s.val.Floor, b) == i then s.number else 0
  }

  predicate NonNegative(h: seq<Sample>)
  {
    forall k :: 0 <= k < |h| ==> h[k].val >= 0.0
  }

  /** The largest integer part of a sample, or 0. */
  function MaxFloor(h: seq<Sample>): (m: nat)
    ensures forall k :: 0 <= k < |h| ==> h[k].val.Floor <= m
  {
    if h == [] then 0
    else
      var m, f := MaxFloor(h[..|h| - 1]), h[|h| - 1].val.Floor;
      assert forall k :: 0 <= k < |h| - 1 ==> h[k] == h[..|h| - 1][k];
      if f > m then f else m
  }

  function Max(a: nat, b: nat): nat { if a > b then a else b }

  // ----- the least bucket size -----

  /** Doubling b until m fits n buckets of that size. */
  function FitFrom(n: nat, m: nat, b: nat): (r: nat)
    requires n > 0 && b > 0
    ensures r >= b && m < Span(n, r)
    decreases m + 1 - b
  {
    if m < Span(n, b) then b else FitFrom(n, m, 2 * b)
  }

  function Fit(n: nat, m: nat): nat
    requires n > 0
  {
    FitFrom(n, m, 1)
  }

  /** Fit is the least power of two that fits. */
  lemma {:induction false} FitFromLeast(n: nat, m: nat, j: nat) returns (k: nat)
    requires n > 0
    ensures k >= j && FitFrom(n, m, Pow2(j)) == Pow2(k)
    ensures forall i :: i >= j && m < Span(n, Pow2(i)) ==> Pow2(k) <= Pow2(i)
    decreases m + 1 - Pow2(j)
  {
    if m < Span(n, Pow2(j)) {
      k := j;
      forall i: nat | i >= j ensures Pow2(k) <= Pow2(i) { Pow2Monotone(j, i); }
    } else {
      assert Pow2(j + 1) == 2 * Pow2(j);
      k := FitFromLeast(n, m, j + 1);
    }
  }

  /** A larger maximum needs at least the same bucket size, and the same doublings from there. */
  lemma {:induction false} FitContinues(n: nat, m: nat, m': nat, b: nat)
    requires n > 0 && b > 0 && m <= m'
    ensures FitFrom(n, m', b) == FitFrom(n, m', FitFrom(n, m, b))
    decreases m + 1 - b
  {
    if m >= Span(n, b) {
      FitContinues(n, m, m', 2 * b);
    }
  }

  // ----- the folds -----

  /** grow_up: neighbours are paired from the bottom, the upper half becomes empty. */
  function FoldUp(c: seq<int>): (r: seq<int>)
    ensures |r| == |c|
  {
    var n := |c|;
    seq(n, i requires 0 <= i < n => if 2 * i < n then c[2 * i] + (if 2 * i + 1 < n then c[2 * i + 1] else 0) else 0)
  }

  /** grow_convert: neighbours are paired from the top, the lower half becomes empty. */
  function FoldConvert(c: seq<int>): (r: seq<int>)
    ensures |r| == |c|
  {
    var n := |c|;
    seq(n, i requires 0 <= i < n => if 2 * i >= n then c[2 * i - n] + c[2 * i - n + 1] else 0)
  }

  /** grow_out: neighbours are paired away from the middle bucket `zero` on both sides. */
  function FoldOut(c: seq<int>, zero: nat): (r: seq<int>)
    requires 2 * zero <= |c| <= 2 * zero + 1
    ensures |r| == |c|
  {
    var n := |c|;
    seq(n, i requires 0 <= i < n =>
      if i < zero then
        if 2 * i >= n - zero - 1 then (if 2 * i >= zero then c[2 * i - zero] else 0) + c[2 * i - zero + 1] else 0
      else
        if 2 * i - zero < n then c[2 * i - zero] + (if 2 * i - zero + 1 < n then c[2 * i - zero + 1] else 0) else 0)
  }

  // ----- the folds and the total -----

  /** Sum of c over [lo, hi). */
  function Sum(c: seq<int>, lo: nat, hi: nat): int
    requires lo <= hi <= |c|
    decreases hi - lo
  {
    if lo == hi then 0 else Sum(c, lo, hi - 1) + c[hi - 1]
  }

  lemma {:induction false} TotalIsSum(c: seq<int>, k: nat)
    requires k <= |c|
    ensures Total(c[..k]) == Sum(c, 0, k)
  {
    if k > 0 {
      TotalIsSum(c, k - 1);
      assert c[..k][..k - 1] == c[..k - 1];
    }
  }

  lemma {:induction false} SumSplits(c: seq<int>, lo: nat, mid: nat, hi: nat)
    requires lo <= mid <= hi <= |c|
    ensures Sum(c, lo, hi) == Sum(c, lo, mid) + Sum(c, mid, hi)
    decreases hi - mid
  {
    if mid < hi { SumSplits(c, lo, mid, hi - 1); }
  }

  lemma {:induction false} SumZero(c: seq<int>, lo: nat, hi: nat)
    requires lo <= hi <= |c| && forall i :: lo <= i < hi ==> c[i] == 0
    ensures Sum(c, lo, hi) == 0
    decreases hi - lo
  {
    if lo < hi { SumZero(c, lo, hi - 1); }
  }

  /** Bucket to + j of d joins buckets from + 2j and from + 2j + 1 of c. */
  ghost predicate Joins(c: seq<int>, d: seq<int>, from: nat, to: nat, j: nat)
  {
    from + 2 * j + 1 < |c| && to + j < |d| && d[to + j] == c[from + 2 * j] + c[from + 2 * j + 1]
  }

  lemma {:induction false} SumPaired(c: seq<int>, d: seq<int>, from: nat, to: nat, pairs: nat)
    requires from + 2 * pairs <= |c| && to + pairs <= |d|
    requires forall j: nat :: j < pairs ==> Joins(c, d, from, to, j)
    ensures Sum(d, to, to + pairs) == Sum(c, from, from + 2 * pairs)
    decreases pairs
  {
    if pairs > 0 {
      SumPaired(c, d, from, to, pairs - 1);
      assert Joins(c, d, from, to, pairs - 1);
    }
  }

  lemma WholeSums(c: seq<int>, d: seq<int>)
    ensures Total(c) == Sum(c, 0, |c|) && Total(d) == Sum(d, 0, |d|)
  {
    TotalIsSum(c, |c|);
    TotalIsSum(d, |d|);
    assert c[..|c|] == c && d[..|d|] == d;
  }

  lemma SumOne(c: seq<int>, i: nat)
    requires i < |c|
    ensures Sum(c, i, i + 1) == c[i]
  {
    assert Sum(c, i, i) == 0;
  }

  lemma Halves(n: nat) returns (half: nat, odd: nat)
    ensures n == 2 * half + odd && odd == n % 2 && odd <= 1 && half == n / 2
  {
    half, odd := n / 2, n % 2;
  }

  /** Pairing upwards from bucket `from`, with `rest` buckets left over at the top, keeps the sum. */
  lemma SumUpwards(c: seq<int>, d: seq<int>, from: nat, to: nat, pairs: nat, rest: nat)
    requires rest <= 1 && |c| == from + 2 * pairs + rest && to + pairs + rest <= |d|
    requires forall j: nat :: j < pairs ==> Joins(c, d, from, to, j)
    requires rest == 1 ==> d[to + pairs] == c[|c| - 1]
    requires forall i :: to + pairs + rest <= i < |d| ==> d[i] == 0
    ensures Sum(d, to, |d|) == Sum(c, from, |c|)
  {
    SumPaired(c, d, from, to, pairs);
    SumSplits(c, from, from + 2 * pairs, |c|);
    SumSplits(d, to, to + pairs, |d|);
    SumSplits(d, to + pairs, to + pairs + rest, |d|);
    SumZero(d, to + pairs + rest, |d|);
    if rest == 1 {
      SumOne(c, |c| - 1);
      SumOne(d, to + pairs);
    }
  }

  /** Pairing downwards into the top of d[..hi] keeps the sum of what is paired. */
  lemma SumDownwards(c: seq<int>, d: seq<int>, from: nat, to: nat, pairs: nat)
    requires from + 2 * pairs <= |c| && to + pairs <= |d|
    requires forall j: nat :: j < pairs ==> Joins(c, d, from, to, j)
    requires forall i :: 0 <= i < to ==> d[i] == 0
    ensures Sum(d, 0, to + pairs) == Sum(c, from, from + 2 * pairs)
  {
    SumPaired(c, d, from, to, pairs);
    SumSplits(d, 0, to, to + pairs);
    SumZero(d, 0, to);
  }

  /** grow_up never loses a sample. */
  lemma FoldUpTotal(c: seq<int>)
    ensures Total(FoldUp(c)) == Total(c)
  {
    var d := FoldUp(c);
    var pairs, odd := Halves(|c|);
    WholeSums(c, d);
    forall j: nat | j < pairs ensures Joins(c, d, 0, 0, j) {}
    SumUpwards(c, d, 0, 0, pairs, odd);
  }

  /** grow_convert loses exactly the lowest bucket of an odd number of buckets. */
  lemma FoldConvertTotal(c: seq<int>)
    requires |c| > 0
    ensures Total(FoldConvert(c)) == Total(c) - if |c| % 2 == 1 then c[0] else 0
  {
    var pairs, odd := Halves(|c|);
    FoldConvertSum(c, odd, pairs + odd, pairs);
    WholeSums(c, FoldConvert(c));
    SumSplits(c, 0, odd, |c|);
    SumOne(c, 0);
  }

  lemma FoldConvertSum(c: seq<int>, odd: nat, half: nat, pairs: nat)
    requires odd <= 1 && |c| == 2 * pairs + odd && half == pairs + odd
    ensures Sum(FoldConvert(c), 0, |c|) == Sum(c, odd, |c|)
  {
    var d := FoldConvert(c);
    forall j: nat | j < pairs ensures Joins(c, d, odd, half, j) { FoldConvertAt(c, half + j); }
    forall i: nat | i < half ensures d[i] == 0 { FoldConvertAt(c, i); }
    SumDownwards(c, d, odd, half, pairs);
  }

  lemma FoldConvertAt(c: seq<int>, i: nat)
    requires i < |c|
    ensures 2 * i < |c| ==> FoldConvert(c)[i] == 0
    ensures 2 * i >= |c| ==> FoldConvert(c)[i] == c[2 * i - |c|] + c[2 * i - |c| + 1]
  {
  }

  /** Three buckets, the sample 0 and then a negative one: the first is gone. */
  lemma ConvertDropsFirst()
    ensures Total([1, 0, 0]) == 1 && Total(FoldConvert([1, 0, 0])) == 0
  {
    FoldConvertTotal([1, 0, 0]);
    assert [1, 0, 0][..2] == [1, 0] && [1, 0][..1] == [1] && [1][..0] == [];
    assert Total([1]) == 1 && Total([1, 0]) == 1;
  }

  /** grow_out loses exactly the lowest bucket if the number of buckets is 3 modulo 4. */
  lemma FoldOutTotal(c: seq<int>)
    requires |c| > 0
    ensures Total(FoldOut(c, |c| / 2)) == Total(c) - if |c| % 4 == 3 then c[0] else 0
  {
    var n := |c|;
    var zero, odd := Halves(n);
    var d := FoldOut(c, zero);
    var quarter, rest := Halves(zero);
    ThreeModFour(n, zero, odd, quarter, rest);
    WholeSums(c, d);
    FoldOutLow(c, zero, odd, quarter, quarter + rest, rest);
    FoldOutHigh(c, zero, odd);
    SumSplits(c, 0, zero, n);
    SumSplits(d, 0, zero, n);
  }

  lemma ThreeModFour(n: nat, zero: nat, odd: nat, quarter: nat, rest: nat)
    requires n == 2 * zero + odd && zero == 2 * quarter + rest && odd <= 1 && rest <= 1
    ensures n % 4 == 3 <==> odd == 1 && rest == 1
  {
    assert n == 4 * quarter + (2 * rest + odd);
  }

  /** What the entries of FoldOut are, for each half. */
  lemma FoldOutLowAt(c: seq<int>, zero: nat, odd: nat, i: nat)
    requires odd <= 1 && |c| == 2 * zero + odd && i < zero
    ensures 2 * i < zero + odd - 1 ==> FoldOut(c, zero)[i] == 0
    ensures 2 * i >= zero ==> FoldOut(c, zero)[i] == c[2 * i - zero] + c[2 * i - zero + 1]
    ensures 2 * i == zero - 1 && odd == 0 ==> FoldOut(c, zero)[i] == c[0]
  {
  }

  lemma FoldOutHighAt(c: seq<int>, zero: nat, odd: nat, i: nat)
    requires odd <= 1 && |c| == 2 * zero + odd && zero <= i < |c|
    ensures 2 * i - zero >= |c| ==> FoldOut(c, zero)[i] == 0
    ensures 2 * i - zero == |c| - 1 ==> FoldOut(c, zero)[i] == c[|c| - 1]
    ensures 2 * i - zero < |c| - 1 ==> FoldOut(c, zero)[i] == c[2 * i - zero] + c[2 * i - zero + 1]
  {
  }

  lemma FoldOutLow(c: seq<int>, zero: nat, odd: nat, quarter: nat, first: nat, rest: nat)
    requires first == quarter + rest && odd <= 1 && rest <= 1 && |c| == 2 * zero + odd &&
             zero == 2 * quarter + rest && |c| > 0
    ensures Sum(FoldOut(c, zero), 0, zero) == Sum(c, 0, zero) - if odd == 1 && rest == 1 then c[0] else 0
  {
    FoldOutLowParts(c, FoldOut(c, zero), zero, odd, quarter, first, rest);
    LowSum(c, FoldOut(c, zero), zero, quarter, first, rest);
  }

  lemma FoldOutLowParts(c: seq<int>, d: seq<int>, zero: nat, odd: nat, quarter: nat, first: nat, rest: nat)
    requires first == quarter + rest && odd <= 1 && rest <= 1 && |c| == 2 * zero + odd
    requires zero == 2 * quarter + rest && d == FoldOut(c, zero)
    ensures forall i :: 0 <= i < quarter ==> d[i] == 0
    ensures forall j: nat :: j < quarter ==> Joins(c, d, rest, first, j)
    ensures rest == 1 ==> d[quarter] == if odd == 1 then 0 else c[0]
  {
    forall i | 0 <= i < quarter ensures d[i] == 0 { FoldOutLowAt(c, zero, odd, i); }
    forall j: nat | j < quarter ensures Joins(c, d, rest, first, j) {
      FoldOutLowAt(c, zero, odd, first + j);
    }
    if rest == 1 { FoldOutLowAt(c, zero, odd, quarter); }
  }

  /** With rest = 1, the bucket c[0] has no partner; it is in bucket `quarter` of d or nowhere. */
  lemma LowSum(c: seq<int>, d: seq<int>, zero: nat, quarter: nat, first: nat, rest: nat)
    requires first == quarter + rest && rest <= 1 && zero == 2 * quarter + rest && 0 < |c| && zero <= |c| == |d|
    requires forall i :: 0 <= i < quarter ==> d[i] == 0
    requires forall j: nat :: j < quarter ==> Joins(c, d, rest, first, j)
    ensures Sum(d, 0, zero) == Sum(c, 0, zero) + if rest == 1 then d[quarter] - c[0] else 0
  {
    SumPaired(c, d, rest, first, quarter);
    SumSplits(c, 0, rest, zero);
    SumOne(c, 0);
    SumSplits(d, 0, quarter, zero);
    SumSplits(d, quarter, first, zero);
    SumZero(d, 0, quarter);
    if rest == 1 { SumOne(d, quarter); }
  }

  lemma FoldOutHigh(c: seq<int>, zero: nat, odd: nat)
    requires odd <= 1 && |c| == 2 * zero + odd
    ensures Sum(FoldOut(c, zero), zero, |c|) == Sum(c, zero, |c|)
  {
    var d := FoldOut(c, zero);
    var pairs, rest := Halves(zero + odd);
    forall j: nat | j < pairs ensures Joins(c, d, zero, zero, j) { FoldOutHighAt(c, zero, odd, zero + j); }
    forall i | zero + pairs + rest <= i < |c| ensures d[i] == 0 { FoldOutHighAt(c, zero, odd, i); }
    if rest == 1 { FoldOutHighAt(c, zero, odd, zero + pairs); }
    SumUpwards(c, d, zero, zero, pairs, rest);
  }

  // ----- the folds and the weights -----

  /** n buckets of size b that hold exactly the history h. */
  function Weights(h: seq<Sample>, n: nat, b: int): seq<int>
    requires b > 0
  {
    seq(n, i requires 0 <= i < n => Weight(h, i, b))
  }

  /** All samples lie within n buckets of size b. */
  ghost predicate Fitting(h: seq<Sample>, n: nat, b: int)
  {
    forall k :: 0 <= k < |h| ==> 0 <= h[k].val.Floor < Span(n, b)
  }

  /** The buckets c, of size b, hold exactly the history h. */
  ghost predicate Represents(h: seq<Sample>, c: seq<int>, b: int)
  {
    b > 0 && Fitting(h, |c|, b) && c == Weights(h, |c|, b)
  }

  /** Doubling the bucket size joins buckets 2i and 2i + 1 into bucket i. */
  lemma {:induction false} WeightDoubles(h: seq<Sample>, i: int, b: int)
    requires b > 0
    ensures Weight(h, i, 2 * b) == Weight(h, 2 * i, b) + Weight(h, 2 * i + 1, b)
    decreases |h|
  {
    if h != [] {
      WeightDoubles(h[..|h| - 1], i, b);
      HalfQuotient(h[|h| - 1].val.Floor, b);
    }
  }

  lemma {:induction false} HalfQuotient(f: int, b: int)
    requires b > 0
    ensures Bucket(f, 2 * b) == Bucket(f, b) / 2
    decreases if f < 0 then 2 * b - f else f
  {
    if f < 0 {
      HalfQuotient(f + 2 * b, b);
      assert Bucket(f, b) == Bucket(f + 2 * b, b) - 2;
    } else if f >= 2 * b {
      HalfQuotient(f - 2 * b, b);
      assert Bucket(f, b) == Bucket(f - 2 * b, b) + 2;
    }
  }

  /** No weight lies at or beyond bucket n. */
  lemma {:induction false} WeightBeyond(h: seq<Sample>, n: nat, i: int, b: int)
    requires b > 0 && i >= n && forall k :: 0 <= k < |h| ==> 0 <= h[k].val.Floor < Span(n, b)
    ensures Weight(h, i, b) == 0
    decreases |h|
  {
    if h != [] {
      WeightBeyond(h[..|h| - 1], n, i, b);
      QuotientLess(h[|h| - 1].val.Floor, n, b);
    }
  }

  lemma {:induction false} QuotientLess(f: int, n: nat, b: int)
    requires b > 0 && 0 <= f < Span(n, b)
    ensures 0 <= Bucket(f, b) < n
  {
    if f >= b { QuotientLess(f - b, n - 1, b); }
  }

  /** grow_up keeps the buckets exact. */
  lemma FoldUpRepresents(h: seq<Sample>, c: seq<int>, b: int)
    requires Represents(h, c, b)
    ensures Represents(h, FoldUp(c), 2 * b)
  {
    var n, d := |c|, FoldUp(c);
    SpanDoubles(n, b);
    forall i | 0 <= i < n ensures d[i] == Weight(h, i, 2 * b) {
      WeightDoubles(h, i, b);
      if 2 * i >= n { WeightBeyond(h, n, 2 * i, b); }
      if 2 * i + 1 >= n { WeightBeyond(h, n, 2 * i + 1, b); }
    }
    forall k | 0 <= k < |h| ensures 0 <= h[k].val.Floor < Span(n, 2 * b) {
      assert 0 <= h[k].val.Floor < Span(n, b);
    }
  }

  // ----- order does not matter -----

  ghost function Without(h: seq<Sample>, k: nat): seq<Sample>
    requires k < |h|
  {
    h[..k] + h[k + 1..]
  }

  lemma {:induction false} WithoutOne(h: seq<Sample>, k: nat, i: int, b: int)
    requires k < |h| && b > 0
    ensures Weight(h, i, b) == Weight(Without(h, k), i, b) + if Bucket(h[k].val.Floor, b) == i then h[k].number else 0
    ensures Numbers(h) == Numbers(Without(h, k)) + h[k].number
    decreases |h|
  {
    var n := |h| - 1;
    if k == n {
      assert Without(h, k) == h[..n];
    } else {
      WithoutOne(h[..n], k, i, b);
      assert Without(h, k)[..n - 1] == Without(h[..n], k);
    }
  }

  lemma WithoutMultiset(h: seq<Sample>, k: nat)
    requires k < |h|
    ensures multiset(Without(h, k)) == multiset(h) - multiset{h[k]}
  {
    assert h == h[..k] + [h[k]] + h[k + 1..];
  }

  /** The last sample of h is in g too, and the rest of h is the rest of g. */
  lemma Elsewhere(h: seq<Sample>, g: seq<Sample>) returns (k: nat)
    requires multiset(h) == multiset(g) && h != []
    ensures k < |g| && g[k] == h[|h| - 1] && multiset(h[..|h| - 1]) == multiset(Without(g, k))
  {
    var n := |h| - 1;
    assert h[n] in multiset(h);
    k :| 0 <= k < |g| && g[k] == h[n];
    WithoutMultiset(h, n);
    WithoutMultiset(g, k);
    assert Without(h, n) == h[..n];
  }

  lemma {:induction false} OrderFree(h: seq<Sample>, g: seq<Sample>, i: int, b: int)
    requires multiset(h) == multiset(g) && b > 0
    ensures Weight(h, i, b) == Weight(g, i, b) && Numbers(h) == Numbers(g)
    decreases |h|
  {
    if h == [] {
      assert |multiset(g)| == 0;
    } else {
      var n := |h| - 1;
      var k := Elsewhere(h, g);
      OrderFree(h[..n], Without(g, k), i, b);
      WithoutOne(g, k, i, b);
    }
  }

  lemma {:induction false} MomentsWithoutOne(h: seq<Sample>, k: nat, measure: Measure)
    requires k < |h|
    ensures MomentsOf(h, measure) == Plus(MomentsOf(Without(h, k), measure), measure(h[k]))
    decreases |h|
  {
    var n := |h| - 1;
    if k == n {
      assert Without(h, k) == h[..n];
    } else {
      MomentsWithoutOne(h[..n], k, measure);
      assert Without(h, k)[..n - 1] == Without(h[..n], k);
      PlusAssociates(MomentsOf(Without(h[..n], k), measure), measure(h[k]), measure(h[n]));
    }
  }

  lemma {:induction false} MomentsOrderFree(h: seq<Sample>, g: seq<Sample>, measure: Measure)
    requires multiset(h) == multiset(g)
    ensures MomentsOf(h, measure) == MomentsOf(g, measure)
    decreases |h|
  {
    if h == [] {
      assert |multiset(g)| == 0;
    } else {
      var n := |h| - 1;
      var k := Elsewhere(h, g);
      MomentsOrderFree(h[..n], Without(g, k), measure);
      MomentsWithoutOne(g, k, measure);
    }
  }

  lemma {:induction false} MaxFloorReached(h: seq<Sample>)
    ensures MaxFloor(h) == 0 || exists k :: 0 <= k < |h| && h[k].val.Floor == MaxFloor(h)
  {
    if h != [] {
      MaxFloorReached(h[..|h| - 1]);
      if MaxFloor(h) == h[|h| - 1].val.Floor {
      } else if MaxFloor(h) != 0 {
        var k :| 0 <= k < |h| - 1 && h[..|h| - 1][k].val.Floor == MaxFloor(h[..|h| - 1]);
        assert h[k].val.Floor == MaxFloor(h);
      }
    }
  }

  lemma MaxFloorBelow(h: seq<Sample>, g: seq<Sample>)
    requires forall s :: s in h ==> s in g
    ensures MaxFloor(h) <= MaxFloor(g)
  {
    MaxFloorReached(h);
    if MaxFloor(h) != 0 {
      var k :| 0 <= k < |h| && h[k].val.Floor == MaxFloor(h);
      assert h[k] in g;
    }
  }

  lemma MaxFloorOrderFree(h: seq<Sample>, g: seq<Sample>)
    requires multiset(h) == multiset(g)
    ensures MaxFloor(h) == MaxFloor(g)
  {
    forall s ensures s in h <==> s in g { assert s in multiset(h) <==> s in multiset(g); }
    MaxFloorBelow(h, g);
    MaxFloorBelow(g, h);
  }

  // ----- appending -----

  lemma {:induction false} WeightAppended(h: seq<Sample>, g: seq<Sample>, i: int, b: int)
    requires b > 0
    ensures Weight(h + g, i, b) == Weight(h, i, b) + Weight(g, i, b)
    decreases |g|
  {
    if g == [] {
      assert h + g == h;
    } else {
      WeightAppended(h, g[..|g| - 1], i, b);
      assert (h + g)[..|h + g| - 1] == h + g[..|g| - 1];
    }
  }

  lemma {:induction false} TotalsAppended(h: seq<Sample>, g: seq<Sample>)
    ensures Numbers(h + g) == Numbers(h) + Numbers(g)
    ensures MaxFloor(h + g) == Max(MaxFloor(h), MaxFloor(g))
    decreases |g|
  {
    if g == [] {
      assert h + g == h;
    } else {
      TotalsAppended(h, g[..|g| - 1]);
      assert (h + g)[..|h + g| - 1] == h + g[..|g| - 1];
    }
  }

  lemma PlusAssociates(a: Moments, b: Moments, c: Moments)
    ensures Plus(Plus(a, b), c) == Plus(a, Plus(b, c)) && Plus(a, Plus(b, c)) == Plus(Plus(a, c), b)
  {
  }

  lemma {:induction false} MomentsAppended(h: seq<Sample>, g: seq<Sample>, measure: Measure)
    ensures MomentsOf(h + g, measure) == Plus(MomentsOf(h, measure), MomentsOf(g, measure))
    decreases |g|
  {
    if g == [] {
      assert h + g == h;
    } else {
      var n := |g| - 1;
      assert (h + g)[..|h + g| - 1] == h + g[..n];
      MomentsAppended(h, g[..n], measure);
      PlusAssociates(MomentsOf(h, measure), MomentsOf(g[..n], measure), measure(g[n]));
    }
  }

  /** floor((v - m) / b) on integers. */
  lemma FloorOfQuotient(v: real, m: int, b: int)
    requires b > 0
    ensures ((v - m as real) / (b as real)).Floor == Bucket(v.Floor - m, b)
  {
    BucketIsQuotient(v.Floor - m, b);
    var f := v.Floor - m;
    var q, r := f / b, f % b;
    var x, y := v - m as real, b as real;
    assert f == b * q + r;
    assert (b * q) as real == y * (q as real);
    assert f as real <= x < (f + 1) as real;
    assert y * (q as real) <= x < y * (q as real) + y;
    RealQuotient(x, y, q as real);
  }

  lemma RealQuotient(x: real, y: real, q: real)
    requires y > 0.0 && y * q <= x < y * q + y
    ensures q <= x / y < q + 1.0
  {
    var z := x / y;
    assert y * z == x;
    assert y * (z - q) == x - y * q;
    RealSign(y, z - q);
    RealSign(y, z - q - 1.0);
    assert y * (z - q - 1.0) == x - y * q - y;
  }

  lemma RealSign(y: real, d: real)
    requires y > 0.0
    ensures y * d >= 0.0 ==> d >= 0.0
    ensures y * d < 0.0 ==> d < 0.0
  {
  }
}
