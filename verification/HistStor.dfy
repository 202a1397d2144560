/**
 * The self-resizing histogram: buckets folded in place, against the specification over the
 * whole sample history.
 */
module Histogram {
  import opened BitOps
  import opened HistSpec

  ghost predicate IsPow2(b: int) { exists k: nat :: b == Pow2(k) }

  lemma DoubledPow2(b: int)
    requires IsPow2(b)
    ensures IsPow2(2 * b) && b >= 1
  {
    var k: nat :| b == Pow2(k);
    assert 2 * b == Pow2(k + 1);
  }

  /** There is no power of two strictly between a and 2a. */
  lemma Pow2Gap(a: int, b: int)
    requires IsPow2(a) && IsPow2(b) && a < b
    ensures 2 * a <= b
  {
    var j: nat :| a == Pow2(j);
    var k: nat :| b == Pow2(k);
    if k <= j { Pow2Monotone(k, j); } else { Pow2Monotone(j + 1, k); }
  }

  /** One-sided: [0, n * b); two-sided: [-max, max + b) with 2 * max = (n - 1) * b. */
  predicate Bounds(n: nat, min: int, max: int, b: int, oneSided: bool)
    requires n > 0
  {
    b > 0 && if oneSided then min == 0 && max == Span(n - 1, b) else min == -max && 2 * max == Span(n - 1, b)
  }

  lemma BoundsDouble(n: nat, min: int, max: int, b: int, oneSided: bool)
    requires n >= 2 && Bounds(n, min, max, b, oneSided)
    ensures max > 0 && min < max
    ensures Bounds(n, 2 * min, 2 * max, 2 * b, oneSided)
    ensures oneSided ==> Bounds(n, -max, max, 2 * b, false)
    ensures oneSided ==> max + b == Span(n, b)
    ensures !oneSided ==> max + b - min == Span(n, b)
  {
    SpanDoubles(n - 1, b);
  }

  /** Counting one more sample in its bucket keeps the buckets exact. */
  lemma RepresentsNext(h: seq<Sample>, c: seq<int>, b: int, s: Sample)
    requires Represents(h, c, b) && 0 <= s.val.Floor < Span(|c|, b)
    ensures 0 <= Bucket(s.val.Floor, b) < |c|
    ensures Represents(h + [s], c[Bucket(s.val.Floor, b) := c[Bucket(s.val.Floor, b)] + s.number], b)
  {
    QuotientLess(s.val.Floor, |c|, b);
    var g := h + [s];
    assert g[..|g| - 1] == h;
  }

  lemma {:induction false} TotalUpdated(c: seq<int>, i: nat, x: int)
    requires i < |c|
    ensures Total(c[i := x]) == Total(c) - c[i] + x
    decreases |c|
  {
    var n := |c| - 1;
    if i == n {
      assert c[i := x][..n] == c[..n];
    } else {
      TotalUpdated(c[..n], i, x);
      assert c[i := x][..n] == c[..n][i := x];
    }
  }

  /**
   * Buckets c of size b between min and max hold the history h, read one-sided or two-sided,
   * but for `lost` samples, which only an odd number of buckets can lose.
   */
  ghost predicate Holds(h: seq<Sample>, c: seq<int>, min: int, max: int, b: int, oneSided: bool, lost: int)
  {
    && |c| >= 2
    && IsPow2(b)
    && Bounds(|c|, min, max, b, oneSided)
    && (oneSided ==> Represents(h, c, b))
    && Total(c) + lost == Numbers(h)
    && (oneSided || |c| % 2 == 0 ==> lost == 0)
  }

  ghost function Extended(h: seq<Sample>, s: Sample): seq<Sample> { h + [s] }

  lemma HoldsNext(h: seq<Sample>, c: seq<int>, min: int, max: int, b: int, s: Sample, index: nat,
                  lost: int)
    requires Holds(h, c, min, max, b, NonNegative(h) && s.val >= 0.0, lost) && index < |c|
    requires NonNegative(h) && s.val >= 0.0 ==> index == Bucket(s.val.Floor, b) && 0 <= s.val.Floor < Span(|c|, b)
    ensures Holds(h + [s], c[index := c[index] + s.number], min, max, b, NonNegative(h + [s]), lost)
  {
    HistoryGrows(h, s);
    TotalUpdated(c, index, c[index] + s.number);
    if NonNegative(h) && s.val >= 0.0 {
      RepresentsNext(h, c, b, s);
    }
    assert |c[index := c[index] + s.number]| == |c|;
  }

  lemma HistoryGrows(h: seq<Sample>, s: Sample)
    ensures Numbers(h + [s]) == Numbers(h) + s.number
    ensures s.val >= 0.0 ==> MaxFloor(h + [s]) == Max(MaxFloor(h), s.val.Floor)
    ensures NonNegative(h + [s]) <==> NonNegative(h) && s.val >= 0.0
  {
    var g := h + [s];
    assert g[..|g| - 1] == h && g[|g| - 1] == s;
    assert NonNegative(g) ==> forall k :: 0 <= k < |h| ==> g[k] == h[k];
  }

  lemma MomentsGrow(h: seq<Sample>, s: Sample, measure: Measure)
    ensures MomentsOf(h + [s], measure) == Plus(MomentsOf(h, measure), measure(s))
  {
    var g := h + [s];
    assert g[..|g| - 1] == h && g[|g| - 1] == s;
  }

  // ----- merging -----

  lemma {:induction false} TotalAdded(c: seq<int>, d: seq<int>, e: seq<int>)
    requires |c| == |d| == |e| && forall i :: 0 <= i < |c| ==> e[i] == c[i] + d[i]
    ensures Total(e) == Total(c) + Total(d)
    decreases |c|
  {
    if c != [] {
      var n := |c| - 1;
      TotalAdded(c[..n], d[..n], e[..n]);
    }
  }

  lemma RepresentsAdded(h: seq<Sample>, c: seq<int>, g: seq<Sample>, d: seq<int>, e: seq<int>, b: int)
    requires Represents(h, c, b) && Represents(g, d, b)
    requires |c| == |d| == |e| && forall i :: 0 <= i < |c| ==> e[i] == c[i] + d[i]
    ensures Represents(h + g, e, b)
  {
    forall i | 0 <= i < |e| ensures e[i] == Weight(h + g, i, b) { WeightAppended(h, g, i, b); }
  }

  lemma NonNegativeAppended(h: seq<Sample>, g: seq<Sample>)
    ensures NonNegative(h + g) <==> NonNegative(h) && NonNegative(g)
  {
    var hg := h + g;
    assert forall k :: 0 <= k < |h| ==> hg[k] == h[k];
    assert forall k :: 0 <= k < |g| ==> hg[|h| + k] == g[k];
  }

  /** Adding two histograms of equal bounds bucket by bucket holds both histories. */
  lemma HoldsBoth(h: seq<Sample>, c: seq<int>, g: seq<Sample>, d: seq<int>, e: seq<int>, min: int, max: int, b: int,
                  lost: int, lost': int)
    requires Holds(h, c, min, max, b, NonNegative(h), lost) && Holds(g, d, min, max, b, NonNegative(g), lost')
    requires |c| == |d| == |e| && forall i :: 0 <= i < |c| ==> e[i] == c[i] + d[i]
    ensures Holds(h + g, e, min, max, b, NonNegative(h + g), lost + lost')
  {
    BoundsDouble(|c|, min, max, b, NonNegative(h));
    NonNegativeAppended(h, g);
    TotalsAppended(h, g);
    TotalAdded(c, d, e);
    if NonNegative(h) { RepresentsAdded(h, c, g, d, e, b); }
  }

  /** Equal lower bounds and bucket counts: both one-sided, or the same bucket size already. */
  lemma SameMin(n: nat, min: int, max: int, b: int, oneSided: bool, max': int, b': int, oneSided': bool)
    requires n >= 2 && Bounds(n, min, max, b, oneSided) && Bounds(n, min, max', b', oneSided')
    ensures oneSided == oneSided' && (!oneSided ==> b == b') && (b == b' ==> max == max')
  {
    BoundsDouble(n, min, max, b, oneSided);
    BoundsDouble(n, min, max', b', oneSided');
    if !oneSided {
      if b < b' { SpanIncreases(n - 1, b, b'); } else if b' < b { SpanIncreases(n - 1, b', b); }
    }
  }

  lemma FitOfBoth(n: nat, m: nat, m': nat)
    requires n > 0
    ensures Fit(n, Max(m, m')) == Max(Fit(n, m), Fit(n, m'))
  {
    if m <= m' { FitContinues(n, m, m', 1); } else { FitContinues(n, m', m, 1); }
  }

  class HistStor {
    var minBucket: int
    var maxBucket: int
    var bucketSize: int
    var sum: real
    var logs: real
    var squares: real
    var samples: int
    const measure: Measure   // what a sample adds to sum, squares and logs
    const cvec: array<int>
    ghost var history: seq<Sample>
    ghost var dropped: int   // what grow_convert and grow_out lost

    ghost predicate Valid()
      reads this, cvec
    {
      && cvec.Length >= 2
      && Holds(history, cvec[..], minBucket, maxBucket, bucketSize, NonNegative(history), dropped)
      && samples == Numbers(history)
      && Moments(sum, squares, logs) == MomentsOf(history, measure)
    }

    /** The bucket size is the least power of two that fits the samples. */
    ghost predicate Tight()
      requires cvec.Length >= 2
      reads this
    {
      NonNegative(history) ==> bucketSize == Fit(cvec.Length, MaxFloor(history))
    }

    constructor (buckets: nat, measure: Measure)
      requires buckets >= 2
      ensures Valid() && Tight() && fresh(cvec) && cvec.Length == buckets && history == [] && this.measure == measure
    {
      this.measure := measure;
      cvec := new int[buckets](_ => 0);
      minBucket, maxBucket, bucketSize := 0, buckets - 1, 1;
      sum, squares, logs, samples := 0.0, 0.0, 0.0, 0;
      history, dropped := [], 0;
      new;
      EmptyIsValid();
    }

    lemma EmptyIsValid()
      requires cvec.Length >= 2 && bucketSize == 1 && minBucket == 0 && maxBucket == cvec.Length - 1
      requires history == [] && dropped == 0 && sum == squares == logs == 0.0 && samples == 0
      requires forall i :: 0 <= i < cvec.Length ==> cvec[i] == 0
      ensures Valid() && Tight()
    {
      assert bucketSize == Pow2(0);
      SpanIsProduct(cvec.Length - 1, 1);
      WholeSums(cvec[..], cvec[..]);
      SumZero(cvec[..], 0, cvec.Length);
    }

    method Reset()
      requires Valid()
      modifies this, cvec
      ensures Valid() && Tight() && history == []
    {
      minBucket, maxBucket, bucketSize := 0, cvec.Length - 1, 1;
      for i := 0 to cvec.Length
        invariant forall k :: 0 <= k < i ==> cvec[k] == 0
        invariant minBucket == 0 && maxBucket == cvec.Length - 1 && bucketSize == 1
      {
        cvec[i] := 0;
      }
      sum, squares, logs, samples := 0.0, 0.0, 0.0, 0;
      history, dropped := [], 0;
      EmptyIsValid();
    }

    // ----- the three growth steps -----

    method GrowUp()
      requires cvec.Length >= 2
      modifies this`maxBucket, this`bucketSize, cvec
      ensures cvec[..] == FoldUp(old(cvec[..]))
      ensures maxBucket == 2 * old(maxBucket) && bucketSize == 2 * old(bucketSize)
    {
      var half := (cvec.Length + 1) / 2;
      PairUp(half, cvec[..]);
      ClearTop(half);
      maxBucket := maxBucket * 2;
      bucketSize := bucketSize * 2;
    }

    /** grow_up's first loop: bucket i takes buckets 2i and 2i + 1. */
    method PairUp(half: nat, ghost was: seq<int>)
      requires half == (cvec.Length + 1) / 2 && was == cvec[..]
      modifies cvec
      ensures forall k :: 0 <= k < half ==> cvec[k] == FoldUp(was)[k]
    {
      var size := cvec.Length;
      var pair := 0;
      for i := 0 to half
        invariant pair == 2 * i
        invariant forall k :: 0 <= k < i ==> cvec[k] == FoldUp(was)[k]
        invariant forall k :: i <= k < size ==> cvec[k] == was[k]
      {
        cvec[i] := cvec[pair];
        if pair + 1 < size {
          cvec[i] := cvec[i] + cvec[pair + 1];
        }
        pair := pair + 2;
      }
      assert pair == size || pair == size + 1;
    }

    method GrowConvert()
      requires cvec.Length >= 2
      modifies this`minBucket, this`bucketSize, this`dropped, cvec
      ensures cvec[..] == FoldConvert(old(cvec[..]))
      ensures dropped == old(dropped) + if cvec.Length % 2 == 1 then old(cvec[0]) else 0
      ensures minBucket == -maxBucket && bucketSize == 2 * old(bucketSize)
    {
      var size := cvec.Length;
      var half := (size + 1) / 2;
      var pair := size - 1;
      for i := size downto half
        modifies cvec
        invariant pair == 2 * i - size - 1
        invariant forall k :: i <= k < size ==> cvec[k] == FoldConvert(old(cvec[..]))[k]
        invariant forall k :: 0 <= k < i ==> cvec[k] == old(cvec[..])[k]
      {
        cvec[i] := cvec[pair];
        if pair - 1 >= 0 {
          cvec[i] := cvec[i] + cvec[pair - 1];
        }
        pair := pair - 2;
      }
      for i := half downto 0
        modifies cvec
        invariant forall k :: i <= k < size ==> cvec[k] == FoldConvert(old(cvec[..]))[k]
      {
        cvec[i] := 0;
      }
      dropped := dropped + if cvec.Length % 2 == 1 then old(cvec[0]) else 0;
      minBucket := -maxBucket;
      bucketSize := bucketSize * 2;
    }

    /** grow_out's first half: pairs below the middle, outwards. */
    method GrowOutLow(zero: nat, bottomHalf: nat)
      requires cvec.Length >= 2 && zero == cvec.Length / 2 && bottomHalf == (cvec.Length - zero) / 2
      modifies cvec
      ensures forall k :: 0 <= k < zero ==> cvec[k] == FoldOut(old(cvec[..]), zero)[k]
      ensures forall k :: zero <= k < cvec.Length ==> cvec[k] == old(cvec[k])
    {
      ghost var was := cvec[..];
      var lowPair := zero - 1;
      for i := zero downto bottomHalf
        modifies cvec
        invariant lowPair == 2 * i - zero - 1
        invariant forall k :: i <= k < zero ==> cvec[k] == FoldOut(was, zero)[k]
        invariant forall k :: 0 <= k < i || zero <= k < cvec.Length ==> cvec[k] == was[k]
      {
        cvec[i] := cvec[lowPair];
        if lowPair - 1 >= 0 {
          cvec[i] := cvec[i] + cvec[lowPair - 1];
        }
        lowPair := lowPair - 2;
      }
      assert lowPair == 0 || lowPair == -1 || lowPair == -2;
      for i := bottomHalf downto 0
        modifies cvec
        invariant forall k :: i <= k < zero ==> cvec[k] == FoldOut(was, zero)[k]
        invariant forall k :: zero <= k < cvec.Length ==> cvec[k] == was[k]
      {
        cvec[i] := 0;
      }
    }

    /** grow_out's second half: pairs from the middle upwards. */
    method GrowOutHigh(zero: nat, topHalf: nat, ghost was: seq<int>)
      requires cvec.Length >= 2 && zero == cvec.Length / 2 && topHalf == zero + (cvec.Length - zero + 1) / 2
      requires |was| == cvec.Length && forall k :: zero <= k < cvec.Length ==> cvec[k] == was[k]
      modifies cvec
      ensures forall k :: zero <= k < topHalf ==> cvec[k] == FoldOut(was, zero)[k]
      ensures forall k :: 0 <= k < zero ==> cvec[k] == old(cvec[k])
    {
      var size := cvec.Length;
      var highPair := zero;
      for i := zero to topHalf
        modifies cvec
        invariant highPair == 2 * i - zero
        invariant forall k :: 0 <= k < zero ==> cvec[k] == old(cvec[k])
        invariant forall k :: zero <= k < i ==> cvec[k] == FoldOut(was, zero)[k]
        invariant forall k :: i <= k < size ==> cvec[k] == was[k]
      {
        cvec[i] := cvec[highPair];
        if highPair + 1 < size {
          cvec[i] := cvec[i] + cvec[highPair + 1];
        }
        highPair := highPair + 2;
      }
      assert highPair == size || highPair == size + 1;
    }

    /** Empty the buckets from `from` to the top. */
    method ClearTop(from: nat)
      requires from <= cvec.Length
      modifies cvec
      ensures forall k :: from <= k < cvec.Length ==> cvec[k] == 0
      ensures forall k :: 0 <= k < from ==> cvec[k] == old(cvec[k])
    {
      for i := from to cvec.Length
        invariant forall k :: from <= k < i ==> cvec[k] == 0
        invariant forall k :: 0 <= k < from ==> cvec[k] == old(cvec[k])
      {
        cvec[i] := 0;
      }
    }

    method GrowOut()
      requires cvec.Length >= 2
      modifies this`minBucket, this`maxBucket, this`bucketSize, this`dropped, cvec
      ensures cvec[..] == FoldOut(old(cvec[..]), cvec.Length / 2)
      ensures dropped == old(dropped) + if cvec.Length % 4 == 3 then old(cvec[0]) else 0
      ensures minBucket == 2 * old(minBucket) && maxBucket == 2 * old(maxBucket) && bucketSize == 2 * old(bucketSize)
    {
      var size := cvec.Length;
      var zero := size / 2;
      var topHalf := zero + (size - zero + 1) / 2;
      var bottomHalf := (size - zero) / 2;
      GrowOutLow(zero, bottomHalf);
      GrowOutHigh(zero, topHalf, old(cvec[..]));
      ClearTop(topHalf);
      dropped := dropped + if size % 4 == 3 then old(cvec[0]) else 0;
      maxBucket := maxBucket * 2;
      minBucket := minBucket * 2;
      bucketSize := bucketSize * 2;
    }

    // ----- sample -----

    /** One-sided growth: double until val fits below the top. */
    method RoomAbove(val: real)
      requires Valid() && NonNegative(history) && val >= 0.0
      modifies this`maxBucket, this`bucketSize, cvec
      ensures Valid() && val < (maxBucket + bucketSize) as real
      ensures old(Tight()) ==> bucketSize == Fit(cvec.Length, Max(MaxFloor(history), val.Floor))
    {
      ghost var n, top := cvec.Length, Max(MaxFloor(history), val.Floor);
      if Tight() { FitContinues(n, MaxFloor(history), top, 1); }
      BoundsDouble(n, minBucket, maxBucket, bucketSize, true);
      while val >= (maxBucket + bucketSize) as real
        invariant Valid() && maxBucket + bucketSize == Span(n, bucketSize)
        invariant old(Tight()) ==> FitFrom(n, top, 1) == FitFrom(n, top, bucketSize)
        decreases val.Floor - (maxBucket + bucketSize)
      {
        BoundsDouble(n, minBucket, maxBucket, bucketSize, true);
        DoubledPow2(bucketSize);
        FoldUpRepresents(history, cvec[..], bucketSize);
        FoldUpTotal(cvec[..]);
        assert FitFrom(n, top, bucketSize) == FitFrom(n, top, 2 * bucketSize);
        GrowUp();
        BoundsDouble(n, minBucket, maxBucket, bucketSize, true);
      }
      FitsAll(history, n, bucketSize, val);
    }

    lemma FitsAll(h: seq<Sample>, n: nat, b: int, val: real)
      requires n > 0 && b > 0 && 0 <= val.Floor < Span(n, b)
      requires Fitting(h, n, b)
      ensures FitFrom(n, Max(MaxFloor(h), val.Floor), b) == b
    {
      MaxFloorReached(h);
    }

    /** What one grow_out loses, or several in a row, since the first leaves the lowest bucket empty. */
    ghost function OutLoss(): int
      requires cvec.Length > 0
      reads cvec
    {
      if cvec.Length % 4 == 3 then cvec[0] else 0
    }

    /** What making room for val loses: only an odd number of buckets loses, and only the lowest bucket. */
    ghost function Loss(val: real): int
      requires cvec.Length > 0
      reads this, cvec
    {
      if NonNegative(history) then if val < 0.0 && cvec.Length % 2 == 1 then cvec[0] else 0
      else if minBucket as real <= val < (maxBucket + bucketSize) as real then 0 else OutLoss()
    }

    /** The two-sided bounds, and every sample in a bucket or dropped, with an even number of buckets none. */
    ghost predicate TwoSided(count: int)
      reads this, cvec
    {
      && cvec.Length >= 2 && IsPow2(bucketSize) && Bounds(cvec.Length, minBucket, maxBucket, bucketSize, false)
      && Total(cvec[..]) + dropped == count && (cvec.Length % 2 == 0 ==> dropped == 0)
    }

    /** grow_out on a two-sided histogram. */
    method WidenOut(ghost count: int)
      requires TwoSided(count)
      modifies this`minBucket, this`maxBucket, this`bucketSize, this`dropped, cvec
      ensures TwoSided(count) && maxBucket == 2 * old(maxBucket) > 0 && minBucket == -maxBucket
      ensures dropped == old(dropped) + old(OutLoss()) && OutLoss() == 0
    {
      BoundsDouble(cvec.Length, minBucket, maxBucket, bucketSize, false);
      DoubledPow2(bucketSize);
      FoldOutTotal(cvec[..]);
      GrowOut();
    }

    /** Two-sided growth for a value below the bounds. */
    method RoomBelow(val: real, ghost count: int)
      requires TwoSided(count) && val < 0.0
      modifies this`minBucket, this`maxBucket, this`bucketSize, this`dropped, cvec
      ensures TwoSided(count) && minBucket as real <= val < (maxBucket + bucketSize) as real
      ensures dropped == old(dropped) + if val < old(minBucket) as real then old(OutLoss()) else 0
    {
      BoundsDouble(cvec.Length, minBucket, maxBucket, bucketSize, false);
      while val < minBucket as real
        invariant TwoSided(count) && maxBucket > 0 && minBucket == -maxBucket
        invariant minBucket <= old(minBucket)
        invariant if minBucket == old(minBucket) then dropped == old(dropped) && OutLoss() == old(OutLoss())
                  else dropped == old(dropped) + old(OutLoss()) && OutLoss() == 0 && val < old(minBucket) as real
        decreases minBucket - val.Floor
      {
        WidenOut(count);
      }
    }

    /** Two-sided growth for a value above the bounds. */
    method RoomBeyond(val: real, ghost count: int)
      requires TwoSided(count) && val >= minBucket as real
      modifies this`minBucket, this`maxBucket, this`bucketSize, this`dropped, cvec
      ensures TwoSided(count) && minBucket as real <= val < (maxBucket + bucketSize) as real
      ensures dropped == old(dropped) + if val >= old(maxBucket + bucketSize) as real then old(OutLoss()) else 0
    {
      BoundsDouble(cvec.Length, minBucket, maxBucket, bucketSize, false);
      while val >= (maxBucket + bucketSize) as real
        invariant TwoSided(count) && maxBucket > 0 && minBucket == -maxBucket && minBucket as real <= val
        invariant maxBucket >= old(maxBucket) && (maxBucket == old(maxBucket) ==> bucketSize == old(bucketSize))
        invariant if maxBucket == old(maxBucket) then dropped == old(dropped) && OutLoss() == old(OutLoss())
                  else dropped == old(dropped) + old(OutLoss()) && OutLoss() == 0 &&
                       val >= old(maxBucket + bucketSize) as real
        decreases val.Floor - maxBucket
      {
        WidenOut(count);
      }
    }

    /** All of sample's growth: afterwards val lies within the bounds, and what was lost is known. */
    method MakeRoom(val: real)
      requires Valid()
      modifies this`minBucket, this`maxBucket, this`bucketSize, this`dropped, cvec
      ensures Holds(history, cvec[..], minBucket, maxBucket, bucketSize, NonNegative(history) && val >= 0.0, dropped)
      ensures NonNegative(history) && val >= 0.0 && old(Tight()) ==>
                bucketSize == Fit(cvec.Length, Max(MaxFloor(history), val.Floor))
      ensures minBucket as real <= val < (maxBucket + bucketSize) as real
      ensures dropped == old(dropped) + old(Loss(val))
    {
      BoundsDouble(cvec.Length, minBucket, maxBucket, bucketSize, NonNegative(history));
      if val < minBucket as real {
        if minBucket == 0 {
          DoubledPow2(bucketSize);
          FoldConvertTotal(cvec[..]);
          GrowConvert();
        }
        RoomBelow(val, Numbers(history));
      } else if val >= (maxBucket + bucketSize) as real {
        if minBucket == 0 {
          RoomAbove(val);
        } else {
          RoomBeyond(val, Numbers(history));
        }
      } else if NonNegative(history) && Tight() {
        FitsAll(history, cvec.Length, bucketSize, val);
        FitContinues(cvec.Length, MaxFloor(history), Max(MaxFloor(history), val.Floor), 1);
      }
    }

    /** The bucket of a value within the bounds. */
    method Index(val: real, ghost oneSided: bool) returns (index: nat)
      requires cvec.Length >= 2 && Bounds(cvec.Length, minBucket, maxBucket, bucketSize, oneSided)
      requires minBucket as real <= val < (maxBucket + bucketSize) as real
      ensures index < cvec.Length
      ensures oneSided ==> index == Bucket(val.Floor, bucketSize) && 0 <= val.Floor < Span(cvec.Length, bucketSize)
    {
      BoundsDouble(cvec.Length, minBucket, maxBucket, bucketSize, oneSided);
      FloorOfQuotient(val, minBucket, bucketSize);
      QuotientLess(val.Floor - minBucket, cvec.Length, bucketSize);
      index := ((val - minBucket as real) / (bucketSize as real)).Floor;
    }

    method Sample(val: real, number: int)
      requires Valid()
      modifies this, cvec
      ensures Valid() && history == old(history) + [Sampled(val, number)]
      ensures old(Tight()) ==> Tight()
      ensures dropped == old(dropped) + old(Loss(val))
    {
      MakeRoom(val);
      var s := Sampled(val, number);
      ghost var h := Extended(history, s);
      var index := Index(val, NonNegative(history) && val >= 0.0);
      HistoryGrows(history, s);
      Count(index, s, h);
      AddMoment(s, h);
      samples := samples + number;
      history := h;
    }

    /** Count a sample of the history h in its bucket. */
    method Count(index: nat, s: Sample, ghost h: seq<Sample>)
      requires index < cvec.Length && h == Extended(history, s)
      requires Holds(history, cvec[..], minBucket, maxBucket, bucketSize, NonNegative(history) && s.val >= 0.0, dropped)
      requires NonNegative(history) && s.val >= 0.0 ==>
                 index == Bucket(s.val.Floor, bucketSize) && 0 <= s.val.Floor < Span(cvec.Length, bucketSize)
      modifies cvec
      ensures Holds(h, cvec[..], minBucket, maxBucket, bucketSize, NonNegative(h), dropped)
    {
      ghost var c := cvec[..];
      HoldsNext(history, c, minBucket, maxBucket, bucketSize, s, index, dropped);
      cvec[index] := cvec[index] + s.number;
      assert cvec[..] == c[index := c[index] + s.number];
    }

    method AddMoment(s: Sample, ghost h: seq<Sample>)
      requires Moments(sum, squares, logs) == MomentsOf(history, measure) && h == Extended(history, s)
      modifies this`sum, this`squares, this`logs
      ensures Moments(sum, squares, logs) == MomentsOf(h, measure)
    {
      MomentsGrow(history, s, measure);
      var m := measure(s);
      sum := sum + m.sum;
      squares := squares + m.squares;
      logs := logs + m.logs;
    }

    // ----- add -----

    /** grow_up on a one-sided histogram keeps the buckets exact. */
    method Widen()
      requires Holds(history, cvec[..], minBucket, maxBucket, bucketSize, true, dropped)
      modifies this`maxBucket, this`bucketSize, cvec
      ensures Holds(history, cvec[..], minBucket, maxBucket, bucketSize, true, dropped)
      ensures bucketSize == 2 * old(bucketSize)
    {
      BoundsDouble(cvec.Length, minBucket, maxBucket, bucketSize, true);
      DoubledPow2(bucketSize);
      FoldUpRepresents(history, cvec[..], bucketSize);
      FoldUpTotal(cvec[..]);
      GrowUp();
    }

    /** Grow up until the bucket size is b. */
    method WidenTo(b: int)
      requires Holds(history, cvec[..], minBucket, maxBucket, bucketSize, NonNegative(history), dropped)
      requires IsPow2(b) && (bucketSize < b ==> NonNegative(history))
      modifies this`maxBucket, this`bucketSize, cvec
      ensures Holds(history, cvec[..], minBucket, maxBucket, bucketSize, NonNegative(history), dropped)
      ensures bucketSize == if old(bucketSize) < b then b else old(bucketSize)
    {
      while b > bucketSize
        invariant Holds(history, cvec[..], minBucket, maxBucket, bucketSize, NonNegative(history), dropped)
        invariant bucketSize <= b || bucketSize == old(bucketSize)
        invariant old(bucketSize) <= bucketSize
        decreases b - bucketSize
      {
        Pow2Gap(bucketSize, b);
        DoubledPow2(bucketSize);
        Widen();
      }
    }

    method AddBuckets(hs: HistStor)
      requires hs.cvec.Length == cvec.Length
      modifies cvec
      ensures forall k :: 0 <= k < cvec.Length ==> cvec[k] == old(cvec[k]) + old(hs.cvec[k])
    {
      for i := 0 to cvec.Length
        invariant forall k :: 0 <= k < i ==> cvec[k] == old(cvec[k]) + old(hs.cvec[k])
        invariant forall k :: i <= k < cvec.Length ==> cvec[k] == old(cvec[k]) && hs.cvec[k] == old(hs.cvec[k])
      {
        cvec[i] := cvec[i] + hs.cvec[i];
      }
    }

    /** add's two growth loops leave both histograms exact, with the same bounds. */
    method Align(hs: HistStor)
      requires Valid() && hs.Valid()
      requires (hs != this ==> hs.cvec != cvec) && cvec.Length == hs.cvec.Length && minBucket == hs.minBucket
      modifies this`maxBucket, this`bucketSize, cvec, hs`maxBucket, hs`bucketSize, hs.cvec
      ensures Valid() && hs.Valid()
      ensures hs.bucketSize == bucketSize && hs.maxBucket == maxBucket
      ensures bucketSize == if old(bucketSize) < old(hs.bucketSize) then old(hs.bucketSize) else old(bucketSize)
    {
      SameMin(cvec.Length, minBucket, maxBucket, bucketSize, NonNegative(history),
              hs.maxBucket, hs.bucketSize, NonNegative(hs.history));
      hs.WidenTo(bucketSize);
      WidenTo(hs.bucketSize);
      SameMin(cvec.Length, minBucket, maxBucket, bucketSize, NonNegative(history),
              hs.maxBucket, hs.bucketSize, NonNegative(hs.history));
    }

    /** Add the buckets of a histogram with the same bounds; hg is both histories. */
    method JoinBuckets(hs: HistStor, ghost hg: seq<Sample>)
      requires Holds(history, cvec[..], minBucket, maxBucket, bucketSize, NonNegative(history), dropped)
      requires Holds(hs.history, hs.cvec[..], minBucket, maxBucket, bucketSize, NonNegative(hs.history), hs.dropped)
      requires cvec.Length == hs.cvec.Length && hg == history + hs.history
      modifies cvec
      ensures Holds(hg, cvec[..], minBucket, maxBucket, bucketSize, NonNegative(hg), dropped + hs.dropped)
    {
      ghost var c, d := cvec[..], hs.cvec[..];
      AddBuckets(hs);
      HoldsBoth(history, c, hs.history, d, cvec[..], minBucket, maxBucket, bucketSize, dropped, hs.dropped);
    }

    /** Take over the history hg, which the buckets already hold, with its sums and count. */
    method Adopt(ghost hg: seq<Sample>, m: Moments, count: int, ghost lost: int)
      requires Holds(hg, cvec[..], minBucket, maxBucket, bucketSize, NonNegative(hg), lost)
      requires count == Numbers(hg) && m == MomentsOf(hg, measure)
      modifies this`sum, this`squares, this`logs, this`samples, this`history, this`dropped
      ensures Valid() && history == hg && dropped == lost
    {
      sum, squares, logs, samples := m.sum, m.squares, m.logs, count;
      history, dropped := hg, lost;
    }

    /** Join the buckets and sums of aligned histograms. */
    method JoinAligned(hs: HistStor)
      requires Valid() && hs.Valid() && (hs != this ==> hs.cvec != cvec)
      requires cvec.Length == hs.cvec.Length && measure == hs.measure
      requires minBucket == hs.minBucket && maxBucket == hs.maxBucket && bucketSize == hs.bucketSize
      modifies this`sum, this`squares, this`logs, this`samples, this`history, this`dropped, cvec
      ensures Valid() && history == old(history) + old(hs.history) && dropped == old(dropped) + old(hs.dropped)
    {
      ghost var h, g, hg, lost := history, hs.history, history + hs.history, dropped + hs.dropped;
      MomentsAppended(h, g, measure);
      TotalsAppended(h, g);
      var m := Plus(Moments(sum, squares, logs), Moments(hs.sum, hs.squares, hs.logs));
      var count := samples + hs.samples;
      JoinBuckets(hs, hg);
      Adopt(hg, m, count, lost);
    }

    /** Merge: as if both sample streams had been fed to this histogram. */
    method Add(hs: HistStor)
      requires Valid() && hs.Valid() && (hs != this ==> hs.cvec != cvec)
      requires cvec.Length == hs.cvec.Length && minBucket == hs.minBucket && measure == hs.measure
      modifies this, cvec, hs, hs.cvec
      ensures Valid() && history == old(history) + old(hs.history)
      ensures hs != this ==> hs.Valid() && hs.history == old(hs.history)
      ensures bucketSize == hs.bucketSize
      ensures old(Tight() && hs.Tight()) ==> Tight()
      ensures dropped == old(dropped) + old(hs.dropped)
    {
      TightBoth(cvec.Length, history, hs.history);
      Align(hs);
      JoinAligned(hs);
    }
  }

  /** The least bucket size for two histories is the larger one of theirs. */
  lemma TightBoth(n: nat, h: seq<Sample>, g: seq<Sample>)
    requires n > 0
    ensures NonNegative(h + g) <==> NonNegative(h) && NonNegative(g)
    ensures Fit(n, MaxFloor(h + g)) == Max(Fit(n, MaxFloor(h)), Fit(n, MaxFloor(g)))
  {
    TotalsAppended(h, g);
    NonNegativeAppended(h, g);
    FitOfBoth(n, MaxFloor(h), MaxFloor(g));
  }

  /** The bucket size of a tight histogram is the least power of two with which n buckets reach the maximum. */
  lemma FitIsLeast(n: nat, m: nat, p: int)
    requires n > 0 && IsPow2(p) && m < Span(n, p)
    ensures IsPow2(Fit(n, m)) && m < Span(n, Fit(n, m)) && Fit(n, m) <= p
  {
    var k := FitFromLeast(n, m, 0);
    var i: nat :| p == Pow2(i);
    assert Pow2(k) <= Pow2(i);
  }

  /** Two histograms fed the same non-negative samples in any order end in the same state. */
  lemma OrderIndependent(a: HistStor, b: HistStor)
    requires a.Valid() && b.Valid() && a.cvec.Length == b.cvec.Length && a.Tight() && b.Tight()
    requires a.measure == b.measure
    requires multiset(a.history) == multiset(b.history) && NonNegative(a.history)
    ensures a.cvec[..] == b.cvec[..] && a.samples == b.samples
    ensures a.sum == b.sum && a.squares == b.squares && a.logs == b.logs
    ensures a.minBucket == b.minBucket && a.maxBucket == b.maxBucket && a.bucketSize == b.bucketSize
  {
    MaxFloorOrderFree(a.history, b.history);
    forall k | 0 <= k < |b.history| ensures b.history[k].val >= 0.0 {
      assert b.history[k] in multiset(a.history);
    }
    var size := a.bucketSize;
    SameMin(a.cvec.Length, 0, a.maxBucket, size, true, b.maxBucket, b.bucketSize, true);
    forall i | 0 <= i < a.cvec.Length ensures a.cvec[..][i] == b.cvec[..][i] {
      OrderFree(a.history, b.history, i, size);
    }
    OrderFree(a.history, b.history, 0, 1);
    MomentsOrderFree(a.history, b.history, a.measure);
  }

  /** What grow_convert loses when n buckets that hold h must make room for val. */
  ghost function TurnLoss(n: nat, h: seq<Sample>, val: real): int
    requires n > 0
  {
    if NonNegative(h) && val < 0.0 && n % 2 == 1 then Weight(h, 0, Fit(n, MaxFloor(h))) else 0
  }

  /** The sum of these losses while h is fed. */
  ghost function FedLoss(n: nat, h: seq<Sample>): int
    requires n > 0
  {
    if h == [] then 0 else FedLoss(n, h[..|h| - 1]) + TurnLoss(n, h[..|h| - 1], h[|h| - 1].val)
  }

  /** Only the first negative sample, at k, costs anything: what the lowest bucket held then. */
  lemma {:induction false} FedLossOnce(n: nat, h: seq<Sample>, k: nat)
    requires n > 0 && k < |h| && NonNegative(h[..k]) && h[k].val < 0.0
    ensures FedLoss(n, h) == TurnLoss(n, h[..k], h[k].val)
    decreases |h|
  {
    var g := h[..|h| - 1];
    if k == |g| {
      NothingLost(n, g);
    } else {
      assert g[..k] == h[..k] && g[k] == h[k];
      FedLossOnce(n, g, k);
    }
  }

  lemma {:induction false} NothingLost(n: nat, h: seq<Sample>)
    requires n > 0 && NonNegative(h)
    ensures FedLoss(n, h) == 0
    decreases |h|
  {
    if h != [] { NothingLost(n, h[..|h| - 1]); }
  }

  /** Unless the bucket count is 3 modulo 4, a tight histogram loses what its history says. */
  lemma LossIsTurnLoss(hist: HistStor, val: real)
    requires hist.Valid() && hist.Tight() && hist.cvec.Length % 4 != 3
    ensures hist.Loss(val) == TurnLoss(hist.cvec.Length, hist.history, val)
  {
  }

  /** Three buckets, the samples 0 and -1: the first is in no bucket afterwards. */
  method DropsFirst(log: real -> real) returns (hist: HistStor)
    ensures hist.Valid() && hist.history == [Sampled(0.0, 1), Sampled(-1.0, 1)] && hist.cvec.Length == 3
    ensures hist.dropped == 1 && hist.samples == 2 && Total(hist.cvec[..]) == 1
  {
    hist := new HistStor(3, Exact(log));
    hist.Sample(0.0, 1);
    OneAtZero(hist.history);
    hist.Sample(-1.0, 1);
    assert hist.history[..1] == [Sampled(0.0, 1)] && hist.history[..1][..0] == [];
  }

  lemma OneAtZero(h: seq<Sample>)
    requires h == [Sampled(0.0, 1)]
    ensures NonNegative(h) && Fit(3, MaxFloor(h)) == 1 && Weight(h, 0, 1) == 1 && Numbers(h) == 1
  {
    assert h[..0] == [];
  }

  /** Feeding samples of any sign one by one. */
  method Feed(n: nat, input: seq<Sample>, log: real -> real) returns (hist: HistStor)
    requires n >= 2
    ensures hist.Valid() && hist.Tight() && hist.cvec.Length == n && hist.history == input && hist.measure == Exact(log)
    ensures n % 4 != 3 ==> hist.dropped == FedLoss(n, input)
  {
    hist := new HistStor(n, Exact(log));
    for i := 0 to |input|
      invariant fresh(hist) && fresh(hist.cvec) && hist.Valid() && hist.Tight() && hist.cvec.Length == n &&
                hist.measure == Exact(log)
      invariant hist.history == input[..i]
      invariant n % 4 != 3 ==> hist.dropped == FedLoss(n, input[..i])
    {
      if n % 4 != 3 { LossIsTurnLoss(hist, input[i].val); }
      hist.Sample(input[i].val, input[i].number);
      assert input[..i + 1][..i] == input[..i];
      assert input[..i + 1] == input[..i] + [input[i]];
    }
    assert input[..|input|] == input;
  }
}
