/**
 * Address ranges, plain, interleaved and XOR-hashed. The stripes of an interleaved range
 * partition its interval, and merging them back gives exactly their union.
 */
module AddressRange {
  import opened BitOps
  import opened FiniteSets
  import opened Wrappers

  const SPACE: nat := 0x1_0000_0000_0000_0000

  type Addr = a: nat | a < SPACE

  /** bits(val, first, last): the bit field val[first:last], right justified. */
  function Bits(val: Addr, first: nat, last: nat): nat
    requires last <= first < 64
  {
    And(Shr(val, last), Pow2(first - last + 1) - 1)
  }

  lemma BitsBounded(val: Addr, first: nat, last: nat)
    requires last <= first < 64
    ensures Bits(val, first, last) == val / Pow2(last) % Pow2(first - last + 1)
    ensures Bits(val, first, last) < Pow2(first - last + 1)
  {
    ShrIsQuotient(val, last);
    AndMask(Shr(val, last), first - last + 1);
  }

  datatype AddrRange = AddrRange(start: Addr, end: Addr, intlvHighBit: Byte, xorHighBit: Byte,
                                 intlvBits: Byte, intlvMatch: Byte)
  {
    predicate Interleaved() { intlvBits != 0 }

    predicate Hashed() { Interleaved() && xorHighBit != 0 }

    predicate Valid() { start <= end }

    /** The interleaving bits, and the hash bits if any, lie within an address. */
    predicate WellPlaced()
    {
      && intlvBits < 64
      && (Interleaved() ==> intlvBits <= intlvHighBit + 1 && intlvHighBit < 64)
      && (Hashed() ==> intlvBits <= xorHighBit + 1 && xorHighBit < 64)
    }

    predicate Spans(a: Addr) { start <= a <= end }

    function Size(): nat
      requires intlvBits < 64
    {
      Shr((end - start + 1) % SPACE, intlvBits)
    }

    /** The number of the stripe that address a belongs to. */
    function Stripe(a: Addr): nat
      requires WellPlaced() && Interleaved()
    {
      var slice := Bits(a, intlvHighBit, intlvHighBit - intlvBits + 1);
      if !Hashed() then slice else Xor(slice, Bits(a, xorHighBit, xorHighBit - intlvBits + 1))
    }

    predicate Contains(a: Addr)
      requires WellPlaced()
    {
      var inRange := a >= start && a <= end;
      if !Interleaved() then inRange
      else if inRange then Stripe(a) == intlvMatch
      else false
    }

    predicate MergesWith(r: AddrRange)
    {
      && r.start == start && r.end == end
      && r.intlvHighBit == intlvHighBit
      && r.xorHighBit == xorHighBit
      && r.intlvBits == intlvBits
    }

    function Intersects(r: AddrRange): Result<bool>
      requires WellPlaced() && r.WellPlaced()
    {
      if start > r.end || end < r.start then Ok(false)
      else if !Interleaved() && !r.Interleaved() then Ok(true)
      else if r.Size() == 1 then Ok(Contains(r.start))
      else if MergesWith(r) then Ok(intlvMatch == r.intlvMatch)
      else Abort
    }

    /** operator<, the order of the address map. */
    predicate Less(r: AddrRange)
    {
      if start != r.start then start < r.start else intlvMatch < r.intlvMatch
    }
  }

  /** Bit b belongs to the slice of `bits` bits whose high bit is `high`. */
  predicate InSlice(b: int, high: nat, bits: nat) { high - bits < b <= high }

  /** The checked constructor: the match value must fit, and the hash bits must not be interleaving bits. */
  function Make(start: Addr, end: Addr, intlvHighBit: Byte, xorHighBit: Byte, intlvBits: Byte, intlvMatch: Byte)
    : (res: Result<AddrRange>)
    requires intlvBits < 64
    ensures res.Ok? <==>
            (intlvBits != 0 ==> intlvMatch < Pow2(intlvBits)) &&
            (intlvBits != 0 && xorHighBit != 0 ==>
               forall b :: InSlice(b, intlvHighBit, intlvBits) ==> !InSlice(b, xorHighBit, intlvBits))
  {
    if intlvBits != 0 && intlvMatch >= Pow2(intlvBits) then Abort
    else if intlvBits != 0 && xorHighBit != 0 then
      if xorHighBit == intlvHighBit then
        assert InSlice(intlvHighBit, intlvHighBit, intlvBits);
        Abort
      else if xorHighBit > intlvHighBit then
        assert xorHighBit - intlvHighBit < intlvBits ==> InSlice(intlvHighBit, xorHighBit, intlvBits);
        assert InSlice(intlvHighBit, intlvHighBit, intlvBits);
        if xorHighBit - intlvHighBit < intlvBits then Abort
        else Ok(AddrRange(start, end, intlvHighBit, xorHighBit, intlvBits, intlvMatch))
      else
        assert intlvHighBit - xorHighBit < intlvBits ==> InSlice(xorHighBit, intlvHighBit, intlvBits);
        assert InSlice(xorHighBit, xorHighBit, intlvBits);
        if intlvHighBit - xorHighBit < intlvBits then Abort
        else Ok(AddrRange(start, end, intlvHighBit, xorHighBit, intlvBits, intlvMatch))
    else Ok(AddrRange(start, end, intlvHighBit, xorHighBit, intlvBits, intlvMatch))
  }

  /** RangeSize(a, 1): the one address a; start + size - 1 is taken modulo 2^64. */
  function Single(a: Addr): (r: AddrRange)
    ensures r.WellPlaced() && !r.Interleaved() && r.Size() == 1
  {
    AddrRange(a, (a + 1 - 1) % SPACE, 0, 0, 0, 0)
  }

  // ----- stripes -----

  lemma BitsBelow(val: Addr, first: nat, last: nat, bits: nat)
    requires last <= first < 64 && bits == first - last + 1
    ensures Bits(val, first, last) < Pow2(bits)
  {
    BitsBounded(val, first, last);
  }

  lemma StripeBounded(r: AddrRange, a: Addr)
    requires r.WellPlaced() && r.Interleaved()
    ensures r.Stripe(a) < Pow2(r.intlvBits)
  {
    BitsBelow(a, r.intlvHighBit, r.intlvHighBit - r.intlvBits + 1, r.intlvBits);
    if r.Hashed() {
      BitsBelow(a, r.xorHighBit, r.xorHighBit - r.intlvBits + 1, r.intlvBits);
      XorBounded(Bits(a, r.intlvHighBit, r.intlvHighBit - r.intlvBits + 1),
                 Bits(a, r.xorHighBit, r.xorHighBit - r.intlvBits + 1), r.intlvBits);
    }
  }

  lemma StripeFitsByte(r: AddrRange, a: Addr) returns (m: Byte)
    requires r.WellPlaced() && r.Interleaved() && r.intlvBits <= 8
    ensures m == r.Stripe(a) < Pow2(r.intlvBits)
  {
    StripeBounded(r, a);
    Pow2Monotone(r.intlvBits, 8);
    assert Pow2(8) == 256;
    m := r.Stripe(a);
  }

  /** Ranges that merge differ in the stripe they take. */
  lemma ContainsMerged(r: AddrRange, q: AddrRange, a: Addr)
    requires r.WellPlaced() && q.WellPlaced() && r.MergesWith(q)
    ensures q.Contains(a) <==> r.Spans(a) && (r.Interleaved() ==> r.Stripe(a) == q.intlvMatch)
  {
  }

  /** With at most 8 interleaving bits, every address of the interval lies in exactly one stripe. */
  lemma StripesPartition(r: AddrRange, a: Addr) returns (m: Byte)
    requires r.WellPlaced() && r.Interleaved() && r.intlvBits <= 8 && r.Spans(a)
    ensures m < Pow2(r.intlvBits) && r.(intlvMatch := m).Contains(a)
    ensures forall m': Byte :: r.(intlvMatch := m').Contains(a) ==> m' == m
  {
    m := StripeFitsByte(r, a);
    forall m': Byte ensures r.(intlvMatch := m').Contains(a) <==> m' == m {
      ContainsMerged(r, r.(intlvMatch := m'), a);
    }
  }

  // ----- the merging constructor -----

  /** What the merging constructor accepts: a full set of stripes in order; the counter is one byte wide. */
  predicate Mergeable(ranges: seq<AddrRange>)
  {
    ranges == [] ||
    (|ranges| == Pow2(ranges[0].intlvBits) &&
     forall i :: 0 <= i < |ranges| ==> ranges[0].MergesWith(ranges[i]) && ranges[i].intlvMatch == i % 256)
  }

  method Merge(ranges: seq<AddrRange>) returns (res: Result<AddrRange>)
    requires ranges != [] ==> ranges[0].intlvBits < 64
    ensures res.Ok? <==> Mergeable(ranges)
    ensures res.Ok? ==> !res.value.Interleaved() && !res.value.Hashed()
    ensures res.Ok? ==> res.value.Valid() == (ranges != [] && ranges[0].Valid())
    ensures res.Ok? && ranges != [] ==> res.value.start == ranges[0].start && res.value.end == ranges[0].end
  {
    var r := AddrRange(1, 0, 0, 0, 0, 0);
    if ranges != [] {
      r := ranges[0].(intlvMatch := 0);
      if |ranges| != Pow2(r.intlvBits) {
        return Abort;
      }
      var match_: Byte := 0;
      for i := 0 to |ranges|
        invariant match_ == i % 256
        invariant forall j :: 0 <= j < i ==> r.MergesWith(ranges[j]) && ranges[j].intlvMatch == j % 256
      {
        if !r.MergesWith(ranges[i]) {
          return Abort;
        }
        if ranges[i].intlvMatch != match_ {
          return Abort;
        }
        match_ := (match_ + 1) % 256;
      }
      r := r.(intlvHighBit := 0, xorHighBit := 0, intlvBits := 0);
    }
    return Ok(r);
  }

  /** Some stripe of the list contains a. */
  ghost predicate InUnion(ranges: seq<AddrRange>, a: Addr)
    requires forall i :: 0 <= i < |ranges| ==> ranges[i].WellPlaced()
  {
    exists i :: 0 <= i < |ranges| && ranges[i].Contains(a)
  }

  /** Which of n stripes, numbered modulo 256, contain an address with stripe number s, if interleaved. */
  lemma SomeNamed(hit: seq<bool>, spanned: bool, interleaved: bool, s: nat)
    requires hit != [] && (interleaved ==> s < |hit|)
    requires forall i :: 0 <= i < |hit| ==> (hit[i] <==> spanned && (interleaved ==> s == i % 256))
    ensures (exists i :: 0 <= i < |hit| && hit[i]) <==> spanned && (interleaved ==> s < 256)
  {
    if spanned && (interleaved ==> s < 256) {
      var k := if interleaved then s else 0;
      assert hit[k];
    }
  }

  /** An accepted list covers an address of its interval exactly when a byte can name the address's stripe. */
  lemma UnionOfStripes(ranges: seq<AddrRange>, a: Addr)
    requires Mergeable(ranges) && ranges != []
    requires forall i :: 0 <= i < |ranges| ==> ranges[i].WellPlaced()
    ensures InUnion(ranges, a) <==> ranges[0].Spans(a) && (ranges[0].Interleaved() ==> ranges[0].Stripe(a) < 256)
  {
    var r := ranges[0];
    var hit := seq(|ranges|, i requires 0 <= i < |ranges| => ranges[i].Contains(a));
    var s := if r.Interleaved() then r.Stripe(a) else 0;
    if r.Interleaved() { StripeBounded(r, a); }
    forall i | 0 <= i < |hit| ensures hit[i] <==> r.Spans(a) && (r.Interleaved() ==> s == i % 256) {
      ContainsMerged(r, ranges[i], a);
    }
    SomeNamed(hit, r.Spans(a), r.Interleaved(), s);
    assert InUnion(ranges, a) <==> exists i :: 0 <= i < |hit| && hit[i];
  }

  /** The merged range is exactly the union of its stripes if and only if every stripe met fits a byte. */
  lemma MergedIsUnion(ranges: seq<AddrRange>, merged: AddrRange)
    requires Mergeable(ranges) && ranges != []
    requires forall i :: 0 <= i < |ranges| ==> ranges[i].WellPlaced()
    requires merged.WellPlaced() && !merged.Interleaved() && merged.start == ranges[0].start &&
             merged.end == ranges[0].end
    ensures (forall a: Addr :: merged.Contains(a) <==> InUnion(ranges, a))
       <==> (forall a: Addr :: ranges[0].Spans(a) && ranges[0].Interleaved() ==> ranges[0].Stripe(a) < 256)
    ensures ranges[0].intlvBits <= 8 ==> forall a: Addr :: merged.Contains(a) <==> InUnion(ranges, a)
  {
    var r := ranges[0];
    forall a: Addr
      ensures InUnion(ranges, a) <==> r.Spans(a) && (r.Interleaved() ==> r.Stripe(a) < 256)
      ensures r.Interleaved() && r.intlvBits <= 8 ==> r.Stripe(a) < 256
    {
      UnionOfStripes(ranges, a);
      if r.Interleaved() && r.intlvBits <= 8 { var _ := StripeFitsByte(r, a); }
    }
  }

  /** 2^9, step by step. */
  lemma Pow2Of9()
    ensures Pow2(0) == 1 && Pow2(8) == 256 && Pow2(9) == 512
  {
    assert Pow2(2) == 4;
    assert Pow2(4) == 16;
    assert Pow2(6) == 64;
  }

  lemma NineBitStripe(r: AddrRange, a: Addr)
    requires r.WellPlaced() && r.intlvHighBit == 8 && r.intlvBits == 9 && !r.Hashed() && a < 512
    ensures r.Stripe(a) == a
  {
    BitsBounded(a, 8, 0);
    Pow2Of9();
    DivModIs(a, 1, a, 0);
    DivModIs(a, 512, 0, a);
  }

  /** With 9 bits the constructor accepts 512 ranges that leave the upper half of the interval uncovered. */
  lemma NineBitsMissHalf(ranges: seq<AddrRange>, a: Addr)
    requires ranges == seq(512, i requires 0 <= i => AddrRange(0, 511, 8, 0, 9, i % 256))
    ensures Mergeable(ranges) && (forall i :: 0 <= i < |ranges| ==> ranges[i].WellPlaced())
    ensures InUnion(ranges, a) <==> a < 256
  {
    Pow2Of9();
    assert Mergeable(ranges);
    UnionOfStripes(ranges, a);
    if a < 512 { NineBitStripe(ranges[0], a); }
  }

  // ----- how many addresses a stripe holds -----

  predicate Selected(g: nat, n: nat, m: nat, a: nat)
    requires g > 0 && n > 0
  {
    a / g % n == m
  }

  /** How many addresses in [lo, lo + len) are selected. */
  function Count(g: nat, n: nat, m: nat, lo: nat, len: nat): nat
    requires g > 0 && n > 0
  {
    if len == 0 then 0
    else Count(g, n, m, lo, len - 1) + if Selected(g, n, m, lo + len - 1) then 1 else 0
  }

  ghost function Chosen(g: nat, n: nat, m: nat, lo: nat, len: nat): set<nat>
    requires g > 0 && n > 0
  {
    set a: nat | lo <= a < lo + len && Selected(g, n, m, a)
  }

  lemma {:induction false} CountIsCardinality(g: nat, n: nat, m: nat, lo: nat, len: nat)
    requires g > 0 && n > 0
    ensures |Chosen(g, n, m, lo, len)| == Count(g, n, m, lo, len)
  {
    if len == 0 {
      assert Chosen(g, n, m, lo, len) == {};
    } else {
      CountIsCardinality(g, n, m, lo, len - 1);
      var last := lo + len - 1;
      var rest := Chosen(g, n, m, lo, len - 1);
      assert Chosen(g, n, m, lo, len) == if Selected(g, n, m, last) then rest + {last} else rest;
    }
  }

  lemma {:induction false} CountSplits(g: nat, n: nat, m: nat, lo: nat, x: nat, y: nat)
    requires g > 0 && n > 0
    ensures Count(g, n, m, lo, x + y) == Count(g, n, m, lo, x) + Count(g, n, m, lo + x, y)
    decreases y
  {
    if y > 0 { CountSplits(g, n, m, lo, x, y - 1); }
  }

  lemma SelectedRepeats(g: nat, n: nat, m: nat, a: nat)
    requires g > 0 && n > 0
    ensures Selected(g, n, m, a + g * n) == Selected(g, n, m, a)
  {
    var q := a / g;
    assert a + g * n == g * (q + n) + a % g by { assert a == g * q + a % g; assert g * (q + n) == g * q + g * n; }
    DivModIs(a + g * n, g, q + n, a % g);
    assert q + n == n * (q / n + 1) + q % n by {
      assert q == n * (q / n) + q % n;
      assert n * (q / n + 1) == n * (q / n) + n;
    }
    DivModIs(q + n, n, q / n + 1, q % n);
  }

  /** In the first period the selected addresses are the m-th run of g. */
  lemma SelectedFirst(g: nat, n: nat, m: nat, a: nat)
    requires g > 0 && m < n && a < g * n
    ensures Selected(g, n, m, a) <==> g * m <= a < g * m + g
  {
    QuotientBelow(a, g, n);
    DivModIs(a / g, n, 0, a / g);
    QuotientIs(a, g, m);
  }

  lemma {:induction false} FirstPeriod(g: nat, n: nat, m: nat, run: nat, period: nat, j: nat)
    requires g > 0 && m < n && run == g * m && period == g * n && j <= period
    ensures Count(g, n, m, 0, j) == if j <= run then 0 else if j <= run + g then j - run else g
    decreases j
  {
    if j > 0 {
      FirstPeriod(g, n, m, run, period, j - 1);
      SelectedFirst(g, n, m, j - 1);
    }
  }

  lemma QuotientBelow(a: nat, g: nat, n: nat)
    requires g > 0 && a < g * n
    ensures a / g < n
  {
    var d := a / g - n;
    assert g * d == g * (a / g) - g * n;
    MulSign(g, d + 1);
    assert g * (d + 1) == g * d + g;
    assert a == g * (a / g) + a % g;
  }

  lemma QuotientIs(a: nat, g: nat, m: nat)
    requires g > 0
    ensures a / g == m <==> g * m <= a < g * m + g
  {
    if g * m <= a < g * m + g { DivModIs(a, g, m, a - g * m); }
    assert a == g * (a / g) + a % g;
  }

  lemma RunInPeriod(g: nat, n: nat, m: nat)
    requires m < n
    ensures g * m + g <= g * n
  {
    MulMonotone(g, m + 1, n);
    assert g * (m + 1) == g * m + g;
  }

  lemma WindowMoves(g: nat, n: nat, m: nat, period: nat, lo: nat)
    requires g > 0 && n > 0 && period == g * n
    ensures Count(g, n, m, lo + 1, period) == Count(g, n, m, lo, period)
  {
    CountSplits(g, n, m, lo, 1, period);
    CountSplits(g, n, m, lo, period, 1);
    SelectedRepeats(g, n, m, lo);
    CountOne(g, n, m, lo);
    CountOne(g, n, m, lo + period);
  }

  /** Any window of one period, wherever it starts, holds g addresses of each stripe. */
  lemma {:induction false} AnyPeriod(g: nat, n: nat, m: nat, period: nat, lo: nat)
    requires g > 0 && m < n && period == g * n
    ensures Count(g, n, m, lo, period) == g
    decreases lo
  {
    if lo == 0 {
      RunInPeriod(g, n, m);
      FirstPeriod(g, n, m, g * m, period, period);
    } else {
      AnyPeriod(g, n, m, period, lo - 1);
      WindowMoves(g, n, m, period, lo - 1);
    }
  }

  lemma CountOne(g: nat, n: nat, m: nat, a: nat)
    requires g > 0 && n > 0
    ensures Count(g, n, m, a, 1) == if Selected(g, n, m, a) then 1 else 0
  {
    assert Count(g, n, m, a, 0) == 0;
  }

  lemma {:induction false} ManyPeriods(g: nat, n: nat, m: nat, period: nat, lo: nat, q: nat)
    requires g > 0 && m < n && period == g * n
    ensures Count(g, n, m, lo, q * period) == q * g
    decreases q
  {
    if q > 0 {
      ManyPeriods(g, n, m, period, lo, q - 1);
      NextMultiple(q, period);
      NextMultiple(q, g);
      CountSplits(g, n, m, lo, (q - 1) * period, period);
      AnyPeriod(g, n, m, period, lo + (q - 1) * period);
    }
  }

  lemma ChosenSize(g: nat, n: nat, m: nat, period: nat, lo: nat, q: nat, len: nat)
    requires g > 0 && m < n && period == g * n && len == q * period
    ensures |Chosen(g, n, m, lo, len)| == q * g
  {
    CountIsCardinality(g, n, m, lo, len);
    ManyPeriods(g, n, m, period, lo, q);
  }

  lemma NextMultiple(q: nat, p: nat)
    requires q > 0
    ensures q * p == (q - 1) * p + p && (q - 1) * p >= 0
  {
  }

  /** granularity(): the length of the runs the interleaving bits cut the interval into. */
  function Granularity(r: AddrRange): nat
    requires r.WellPlaced() && r.Interleaved()
  {
    Pow2(r.intlvHighBit - r.intlvBits + 1)
  }

  ghost function Members(r: AddrRange): set<nat>
    requires r.WellPlaced()
  {
    set a: nat | r.start <= a < r.end + 1 && r.Contains(a)
  }

  lemma ContainsUnhashed(r: AddrRange, a: Addr)
    requires r.WellPlaced() && r.Interleaved() && !r.Hashed()
    ensures r.Contains(a) <==> r.Spans(a) && Selected(Granularity(r), Pow2(r.intlvBits), r.intlvMatch, a)
  {
    BitsBounded(a, r.intlvHighBit, r.intlvHighBit - r.intlvBits + 1);
  }

  lemma MembersChosen(r: AddrRange, g: nat, n: nat, len: nat)
    requires r.WellPlaced() && r.Interleaved() && !r.Hashed() && r.Valid()
    requires g == Granularity(r) && n == Pow2(r.intlvBits) && len == r.end - r.start + 1
    ensures |Members(r)| == |Chosen(g, n, r.intlvMatch, r.start, len)|
  {
    assert Members(r) == Chosen(g, n, r.intlvMatch, r.start, len) by {
      MembersSelected(r, g, n, len);
    }
  }

  lemma MembersSelected(r: AddrRange, g: nat, n: nat, len: nat)
    requires r.WellPlaced() && r.Interleaved() && !r.Hashed() && r.Valid()
    requires g == Granularity(r) && n == Pow2(r.intlvBits) && len == r.end - r.start + 1
    ensures forall a: nat :: r.start <= a < r.start + len ==> (r.Contains(a) <==> Selected(g, n, r.intlvMatch, a))
  {
    forall a: nat | r.start <= a < r.start + len ensures r.Contains(a) == Selected(g, n, r.intlvMatch, a) {
      ContainsUnhashed(r, a);
    }
  }

  lemma RoundsRegroup(rounds: nat, g: nat, n: nat)
    ensures rounds * (g * n) == n * (rounds * g)
  {
  }

  /**
   * An unhashed stripe of an interval whose length is a whole number of rounds of all
   * stripes holds exactly size() addresses, except that size() of the full address space
   * wraps around to zero.
   */
  lemma StripeSize(r: AddrRange, rounds: nat)
    requires r.WellPlaced() && r.Interleaved() && !r.Hashed() && r.Valid() && r.intlvMatch < Pow2(r.intlvBits)
    requires r.end - r.start + 1 == rounds * (Granularity(r) * Pow2(r.intlvBits))
    ensures |Members(r)| == rounds * Granularity(r)
    ensures r.Size() == |Members(r)| <==> r.end - r.start + 1 < SPACE
  {
    var g, n := Granularity(r), Pow2(r.intlvBits);
    RoundsRegroup(rounds, g, n);
    MembersCounted(r, rounds, g, n, g * n);
    SizeOfStripe(r, n, rounds * g);
  }

  lemma MembersCounted(r: AddrRange, rounds: nat, g: nat, n: nat, period: nat)
    requires r.WellPlaced() && r.Interleaved() && !r.Hashed() && r.Valid() && r.intlvMatch < n
    requires g == Granularity(r) && n == Pow2(r.intlvBits) && period == g * n
    requires r.end - r.start + 1 == rounds * period
    ensures |Members(r)| == rounds * g
  {
    MembersChosen(r, g, n, rounds * period);
    ChosenSize(g, n, r.intlvMatch, period, r.start, rounds, rounds * period);
  }

  /** size() of an interval of n times `held` addresses, all taken modulo 2^64. */
  lemma SizeOfStripe(r: AddrRange, n: nat, held: nat)
    requires r.intlvBits < 64 && n == Pow2(r.intlvBits) && r.Valid() && r.end - r.start + 1 == n * held
    ensures r.Size() == held <==> r.end - r.start + 1 < SPACE
  {
    var len := r.end - r.start + 1;
    ShrIsQuotient(len % SPACE, r.intlvBits);
    if len < SPACE {
      DivModIs(len, SPACE, 0, len);
      DivModIs(len, n, held, 0);
    } else {
      DivModIs(len, SPACE, 1, 0);
      DivModIs(0, n, 0, 0);
    }
  }

  /** The even addresses of the full space: size() says there are none. */
  lemma FullSpaceSize(r: AddrRange)
    requires r == AddrRange(0, SPACE - 1, 0, 0, 1, 0)
    ensures r.Size() == 0 && 0 in Members(r)
  {
    DivModIs(SPACE, SPACE, 1, 0);
    assert Shr(0, 1) == Shr(0, 0) == 0 && And(0, Pow2(1) - 1) == 0;
  }

  // ----- unhashed intervals of at least one round -----

  lemma {:induction false} CountedIsThere(g: nat, n: nat, m: nat, lo: nat, len: nat) returns (a: nat)
    requires g > 0 && n > 0 && Count(g, n, m, lo, len) > 0
    ensures lo <= a < lo + len && Selected(g, n, m, a)
  {
    if Selected(g, n, m, lo + len - 1) {
      a := lo + len - 1;
    } else {
      a := CountedIsThere(g, n, m, lo, len - 1);
    }
  }

  /** Every stripe number of the interleaving bits is met within one round. */
  lemma StripeMet(r: AddrRange, m: nat) returns (a: Addr)
    requires r.WellPlaced() && r.Interleaved() && !r.Hashed() && m < Pow2(r.intlvBits)
    requires r.end - r.start + 1 >= Granularity(r) * Pow2(r.intlvBits)
    ensures r.Spans(a) && r.Stripe(a) == m
  {
    var g, n := Granularity(r), Pow2(r.intlvBits);
    AnyPeriod(g, n, m, g * n, r.start);
    a := CountedIsThere(g, n, m, r.start, g * n);
    BitsBounded(a, r.intlvHighBit, r.intlvHighBit - r.intlvBits + 1);
  }

  /** Merging unhashed stripes of at least one round is exact if and only if there are at most 8 interleaving bits. */
  lemma MergedByBits(ranges: seq<AddrRange>, merged: AddrRange)
    requires Mergeable(ranges) && ranges != []
    requires forall i :: 0 <= i < |ranges| ==> ranges[i].WellPlaced()
    requires merged.WellPlaced() && !merged.Interleaved()
    requires merged.start == ranges[0].start && merged.end == ranges[0].end
    requires var r := ranges[0];
             r.Interleaved() && !r.Hashed() && r.end - r.start + 1 >= Granularity(r) * Pow2(r.intlvBits)
    ensures (forall a: Addr :: merged.Contains(a) <==> InUnion(ranges, a)) <==> ranges[0].intlvBits <= 8
  {
    var r := ranges[0];
    MergedIsUnion(ranges, merged);
    if r.intlvBits > 8 {
      Pow2Of9();
      Pow2Monotone(9, r.intlvBits);
      var a := StripeMet(r, 256);
      assert r.Spans(a) && r.Stripe(a) >= 256;
    }
  }

  // ----- hashed stripes -----

  /** The hash bits lie above the interleaving bits. */
  predicate HashedAbove(r: AddrRange) { r.Hashed() && r.xorHighBit >= r.intlvHighBit + r.intlvBits }

  /** The hash value of address a. */
  function Hash(r: AddrRange, a: Addr): nat
    requires r.WellPlaced() && r.Hashed()
  {
    Bits(a, r.xorHighBit, r.xorHighBit - r.intlvBits + 1)
  }

  /** The hash value of all addresses in round q. */
  function RoundHash(r: AddrRange, q: nat): nat
    requires r.WellPlaced() && HashedAbove(r)
  {
    DivNonNegative(q, Pow2(r.xorHighBit - r.intlvBits - r.intlvHighBit));
    q / Pow2(r.xorHighBit - r.intlvBits - r.intlvHighBit) % Pow2(r.intlvBits)
  }

  /** Within an aligned round the hash value does not change. */
  lemma HashConstant(r: AddrRange, a: Addr, q: nat, period: nat)
    requires r.WellPlaced() && HashedAbove(r) && period == Pow2(r.intlvHighBit + 1)
    requires period * q <= a < period * q + period
    ensures Hash(r, a) == RoundHash(r, q)
  {
    var low := r.xorHighBit - r.intlvBits + 1;
    var gap := low - (r.intlvHighBit + 1);
    BitsBounded(a, r.xorHighBit, low);
    Pow2Splits(r.intlvHighBit + 1, gap);
    DivModIs(a, period, q, a - period * q);
    DivideTwice(a, period, Pow2(gap), Pow2(low));
  }

  /** In a round with hash value h, the stripe's addresses are those of the unhashed stripe match ^ h. */
  lemma ContainsHashed(r: AddrRange, a: Addr, h: nat)
    requires r.WellPlaced() && r.Hashed() && r.Spans(a) && Hash(r, a) == h
    ensures r.Contains(a) <==> Selected(Granularity(r), Pow2(r.intlvBits), Xor(r.intlvMatch, h), a)
  {
    var slice := Bits(a, r.intlvHighBit, r.intlvHighBit - r.intlvBits + 1);
    BitsBounded(a, r.intlvHighBit, r.intlvHighBit - r.intlvBits + 1);
    XorTwice(slice, h);
    XorTwice(r.intlvMatch, h);
  }

  /** The addresses of the stripe in [lo, lo + len). */
  ghost function Among(r: AddrRange, lo: nat, len: nat): set<nat>
    requires r.WellPlaced() && lo + len <= SPACE
  {
    set a: nat | lo <= a < lo + len && r.Contains(a)
  }

  /** The unhashed stripe whose addresses the stripe takes in round q. */
  function RoundStripe(r: AddrRange, q: nat): (m: nat)
    requires r.WellPlaced() && HashedAbove(r) && r.intlvMatch < Pow2(r.intlvBits)
    ensures m < Pow2(r.intlvBits)
  {
    XorBounded(r.intlvMatch, RoundHash(r, q), r.intlvBits);
    Xor(r.intlvMatch, RoundHash(r, q))
  }

  /** A part of round q, inside the interval, holds as many addresses as that unhashed stripe has there. */
  lemma PartOfRound(r: AddrRange, q: nat, period: nat, lo: nat, len: nat)
    requires r.WellPlaced() && HashedAbove(r) && r.intlvMatch < Pow2(r.intlvBits)
    requires period == Pow2(r.intlvHighBit + 1) && period * q <= lo && lo + len <= period * q + period
    requires r.start <= lo && lo + len <= r.end + 1
    ensures |Among(r, lo, len)| == Count(Granularity(r), Pow2(r.intlvBits), RoundStripe(r, q), lo, len)
  {
    var g, n, m := Granularity(r), Pow2(r.intlvBits), RoundStripe(r, q);
    forall a: nat | lo <= a < lo + len ensures r.Contains(a) == Selected(g, n, m, a) {
      HashConstant(r, a, q, period);
      ContainsHashed(r, a, RoundHash(r, q));
    }
    assert Among(r, lo, len) == Chosen(g, n, m, lo, len);
    CountIsCardinality(g, n, m, lo, len);
  }

  /** An aligned round inside the interval holds one run of granularity addresses of the stripe. */
  lemma HashedRound(r: AddrRange, q: nat, period: nat, lo: nat)
    requires r.WellPlaced() && HashedAbove(r) && r.intlvMatch < Pow2(r.intlvBits)
    requires period == Pow2(r.intlvHighBit + 1) && lo == period * q && r.start <= lo && lo + period <= r.end + 1
    ensures |Among(r, lo, period)| == Granularity(r)
  {
    Pow2Splits(r.intlvHighBit - r.intlvBits + 1, r.intlvBits);
    PartOfRound(r, q, period, lo, period);
    AnyPeriod(Granularity(r), Pow2(r.intlvBits), RoundStripe(r, q), period, lo);
  }

  lemma AmongNone(r: AddrRange, lo: nat)
    requires r.WellPlaced() && lo <= SPACE
    ensures |Among(r, lo, 0)| == 0
  {
    assert Among(r, lo, 0) == {};
  }

  lemma AmongSplits(r: AddrRange, lo: nat, x: nat, y: nat)
    requires r.WellPlaced() && lo + x + y <= SPACE
    ensures |Among(r, lo, x + y)| == |Among(r, lo, x)| + |Among(r, lo + x, y)|
  {
    var A, B := Among(r, lo, x), Among(r, lo + x, y);
    assert A !! B && Among(r, lo, x + y) == A + B;
  }

  lemma AlignedTimes(period: nat, q: nat, k: nat)
    ensures period * q + Times(k, period) == period * (q + k)
  {
    TimesIsProduct(k, period);
    assert period * (q + k) == period * q + period * k;
  }

  /** One more aligned round adds one run. */
  lemma HashedNext(r: AddrRange, lo: nat, q: nat, period: nat, before: nat)
    requires r.WellPlaced() && HashedAbove(r) && r.intlvMatch < Pow2(r.intlvBits)
    requires period == Pow2(r.intlvHighBit + 1) && lo + before == period * q
    requires r.start <= lo && lo + before + period <= r.end + 1
    ensures |Among(r, lo, before + period)| == |Among(r, lo, before)| + Granularity(r)
  {
    HashedRound(r, q, period, lo + before);
    AmongSplits(r, lo, before, period);
  }

  lemma {:induction false} HashedRounds(r: AddrRange, lo: nat, q: nat, period: nat, rounds: nat)
    requires r.WellPlaced() && HashedAbove(r) && r.intlvMatch < Pow2(r.intlvBits)
    requires period == Pow2(r.intlvHighBit + 1) && lo == period * q
    requires r.start <= lo && lo + Times(rounds, period) <= r.end + 1
    ensures |Among(r, lo, Times(rounds, period))| == Times(rounds, Granularity(r))
    decreases rounds
  {
    if rounds == 0 {
      AmongNone(r, lo);
    } else {
      HashedRounds(r, lo, q, period, rounds - 1);
      AlignedTimes(period, q, rounds - 1);
      HashedNext(r, lo, q + rounds - 1, period, Times(rounds - 1, period));
    }
  }

  /**
   * A stripe whose hash bits lie above its interleaving bits also holds exactly size()
   * addresses, if the interval consists of whole rounds and starts at a multiple of a round.
   */
  lemma HashedStripeSize(r: AddrRange, rounds: nat, q: nat)
    requires r.WellPlaced() && HashedAbove(r) && r.Valid() && r.intlvMatch < Pow2(r.intlvBits)
    requires var period := Granularity(r) * Pow2(r.intlvBits);
             r.start == period * q && r.end - r.start + 1 == rounds * period
    ensures |Members(r)| == rounds * Granularity(r)
    ensures r.Size() == |Members(r)| <==> r.end - r.start + 1 < SPACE
  {
    var g, n := Granularity(r), Pow2(r.intlvBits);
    Pow2Splits(r.intlvHighBit - r.intlvBits + 1, r.intlvBits);
    RoundsRegroup(rounds, g, n);
    TimesIsProduct(rounds, g * n);
    TimesIsProduct(rounds, g);
    HashedRounds(r, r.start, q, g * n, rounds);
    assert Members(r) == Among(r, r.start, r.end - r.start + 1);
    SizeOfStripe(r, n, rounds * g);
  }

  /** How many of the first s addresses of round q, counted from its start, are the stripe's. */
  function Lead(r: AddrRange, q: nat, s: nat): nat
    requires r.WellPlaced() && HashedAbove(r) && r.intlvMatch < Pow2(r.intlvBits)
  {
    Count(Granularity(r), Pow2(r.intlvBits), RoundStripe(r, q), 0, s)
  }

  lemma {:induction false} CountPeriodLater(g: nat, n: nat, m: nat, period: nat, lo: nat, len: nat)
    requires g > 0 && n > 0 && period == g * n
    ensures Count(g, n, m, lo + period, len) == Count(g, n, m, lo, len)
    decreases len
  {
    if len > 0 {
      CountPeriodLater(g, n, m, period, lo, len - 1);
      SelectedRepeats(g, n, m, lo + len - 1);
    }
  }

  lemma {:induction false} CountRoundsLater(g: nat, n: nat, m: nat, period: nat, q: nat, len: nat)
    requires g > 0 && n > 0 && period == g * n
    ensures Count(g, n, m, Times(q, period), len) == Count(g, n, m, 0, len)
    decreases q
  {
    if q > 0 {
      CountRoundsLater(g, n, m, period, q - 1, len);
      CountPeriodLater(g, n, m, period, Times(q - 1, period), len);
    }
  }

  /** The start of round q and what lies before the offset s in it. */
  lemma LeadCounted(r: AddrRange, q: nat, period: nat, base: nat, s: nat)
    requires r.WellPlaced() && HashedAbove(r) && r.intlvMatch < Pow2(r.intlvBits) && s <= period
    requires period == Pow2(r.intlvHighBit + 1) && base == Times(q, period)
    ensures var g, n, m := Granularity(r), Pow2(r.intlvBits), RoundStripe(r, q);
            && Count(g, n, m, base, s) == Lead(r, q, s)
            && Count(g, n, m, base + s, period - s) == g - Lead(r, q, s)
  {
    var g, n, m := Granularity(r), Pow2(r.intlvBits), RoundStripe(r, q);
    Pow2Splits(r.intlvHighBit - r.intlvBits + 1, r.intlvBits);
    CountRoundsLater(g, n, m, period, q, s);
    CountSplits(g, n, m, base, s, period - s);
    AnyPeriod(g, n, m, period, base);
  }

  /** The end of the first round, from offset s on. */
  lemma FirstPart(r: AddrRange, q: nat, period: nat, s: nat)
    requires r.WellPlaced() && HashedAbove(r) && r.intlvMatch < Pow2(r.intlvBits) && s <= period
    requires period == Pow2(r.intlvHighBit + 1) && r.start == Times(q, period) + s
    requires r.start + (period - s) <= r.end + 1
    ensures |Among(r, r.start, period - s)| == Granularity(r) - Lead(r, q, s)
  {
    AlignedTimes(period, 0, q);
    LeadCounted(r, q, period, Times(q, period), s);
    PartOfRound(r, q, period, r.start, period - s);
  }

  /** The beginning of the last round, up to offset s. */
  lemma LastPart(r: AddrRange, q: nat, period: nat, base: nat, s: nat)
    requires r.WellPlaced() && HashedAbove(r) && r.intlvMatch < Pow2(r.intlvBits) && s <= period
    requires period == Pow2(r.intlvHighBit + 1) && base == Times(q, period) && r.start <= base && base + s <= r.end + 1
    ensures |Among(r, base, s)| == Lead(r, q, s)
  {
    AlignedTimes(period, 0, q);
    LeadCounted(r, q, period, base, s);
    PartOfRound(r, q, period, base, s);
  }

  /** The whole rounds between the first and the last. */
  lemma MiddlePart(r: AddrRange, q: nat, period: nat, lo: nat, rounds: nat)
    requires r.WellPlaced() && HashedAbove(r) && r.intlvMatch < Pow2(r.intlvBits)
    requires period == Pow2(r.intlvHighBit + 1) && lo == Times(q, period)
    requires r.start <= lo && lo + Times(rounds, period) <= r.end + 1
    ensures |Among(r, lo, Times(rounds, period))| == Times(rounds, Granularity(r))
  {
    AlignedTimes(period, 0, q);
    HashedRounds(r, lo, q, period, rounds);
  }

  lemma ThreeParts(r: AddrRange, second: nat, last: nat, x: nat, y: nat, z: nat)
    requires r.WellPlaced() && r.start <= second <= last <= r.end + 1
    requires |Among(r, r.start, second - r.start)| == x && |Among(r, second, last - second)| == y
    requires |Among(r, last, r.end + 1 - last)| == z
    ensures |Members(r)| == x + y + z
  {
    AmongSplits(r, r.start, second - r.start, last - second);
    AmongSplits(r, r.start, last - r.start, r.end + 1 - last);
    assert Members(r) == Among(r, r.start, r.end - r.start + 1);
  }

  /** Round q + 1 starts at second, round q + rounds at last, with middle addresses between. */
  lemma ShiftedParts(r: AddrRange, q: nat, period: nat, rounds: nat, s: nat, second: nat, middle: nat, last: nat)
    requires r.WellPlaced() && HashedAbove(r) && r.intlvMatch < Pow2(r.intlvBits) && s <= period && rounds > 0
    requires period == Pow2(r.intlvHighBit + 1) && r.start == Times(q, period) + s
    requires second == Times(q + 1, period) && middle == Times(rounds - 1, period) && last == Times(q + rounds, period)
    requires second == r.start + (period - s) && last == second + middle && last + s == r.end + 1
    ensures |Members(r)| == Granularity(r) - Lead(r, q, s) + Times(rounds - 1, Granularity(r)) + Lead(r, q + rounds, s)
  {
    FirstPart(r, q, period, s);
    MiddlePart(r, q + 1, period, second, rounds - 1);
    LastPart(r, q + rounds, period, last, s);
    ThreeParts(r, second, last, Granularity(r) - Lead(r, q, s), Times(rounds - 1, Granularity(r)),
               Lead(r, q + rounds, s));
  }

  /** An interval of whole rounds that starts at offset s of round q: what the shift costs and brings. */
  lemma ShiftedRounds(r: AddrRange, q: nat, period: nat, rounds: nat, s: nat)
    requires r.WellPlaced() && HashedAbove(r) && r.intlvMatch < Pow2(r.intlvBits) && s <= period && rounds > 0
    requires period == Pow2(r.intlvHighBit + 1) && r.start == Times(q, period) + s
    requires r.end - r.start + 1 == Times(rounds, period)
    ensures |Members(r)| == Times(rounds, Granularity(r)) - Lead(r, q, s) + Lead(r, q + rounds, s)
  {
    TimesAdds(q + 1, rounds - 1, period);
    ShiftedParts(r, q, period, rounds, s, Times(q + 1, period), Times(rounds - 1, period), Times(q + rounds, period));
  }

  /**
   * Wherever an interval of whole rounds starts, at offset s of round q: a stripe whose hash
   * bits lie above its interleaving bits holds exactly size() addresses if and only if it
   * takes as many of the first s addresses of the first round as of the last one.
   */
  lemma HashedShiftedSize(r: AddrRange, rounds: nat, q: nat, s: nat)
    requires r.WellPlaced() && HashedAbove(r) && r.Valid() && r.intlvMatch < Pow2(r.intlvBits)
    requires var period := Granularity(r) * Pow2(r.intlvBits);
             s < period && r.start == q * period + s && r.end - r.start + 1 == rounds * period < SPACE
    ensures |Members(r)| == rounds * Granularity(r) - Lead(r, q, s) + Lead(r, q + rounds, s)
    ensures r.Size() == |Members(r)| <==> Lead(r, q, s) == Lead(r, q + rounds, s)
  {
    var g, n := Granularity(r), Pow2(r.intlvBits);
    Pow2Splits(r.intlvHighBit - r.intlvBits + 1, r.intlvBits);
    RoundsRegroup(rounds, g, n);
    TimesIsProduct(q, g * n);
    TimesIsProduct(rounds, g * n);
    TimesIsProduct(rounds, g);
    ShiftedRounds(r, q, g * n, rounds, s);
    SizeOfStripe(r, n, rounds * g);
  }

  lemma OneBitStripe(r: AddrRange, a: Addr)
    requires r.intlvHighBit == 0 && r.xorHighBit == 1 && r.intlvBits == 1
    ensures r.Stripe(a) == Xor(a % 2, a / 2 % 2)
  {
    AndMask(Shr(a, 0), 1);
    AndMask(Shr(a, 1), 1);
    assert Shr(a, 1) == Shr(a / 2, 0);
  }

  lemma ShiftedStripes(r: AddrRange)
    requires r.intlvHighBit == 0 && r.xorHighBit == 1 && r.intlvBits == 1
    ensures r.Stripe(1) == 1 && r.Stripe(2) == 1
  {
    OneBitStripe(r, 1);
    OneBitStripe(r, 2);
  }

  lemma PairMissed(r: AddrRange)
    requires r.WellPlaced() && r.Interleaved() && r.end == r.start + 1
    requires r.Stripe(r.start) != r.intlvMatch && r.Stripe(r.end) != r.intlvMatch
    ensures Members(r) == {}
  {
    assert forall a: Addr | r.start <= a <= r.end :: !r.Contains(a);
  }

  lemma PairSize(r: AddrRange)
    requires r.intlvBits == 1 && r.end == r.start + 1
    ensures r.Size() == 1
  {
    SizeOfStripe(r, 2, 1);
  }

  /** Both addresses of [1, 2] are in stripe 1, though size() promises one address to each stripe. */
  lemma ShiftedExample(r: AddrRange)
    requires r == AddrRange(1, 2, 0, 1, 1, 0)
    ensures r.WellPlaced() && HashedAbove(r) && r.Size() == 1 && Members(r) == {}
  {
    ShiftedStripes(r);
    PairMissed(r);
    PairSize(r);
  }

  // ----- hash bits below the interleaving bits -----

  /** The hash bits lie below the interleaving bits. */
  predicate HashedBelow(r: AddrRange) { r.Hashed() && r.xorHighBit + r.intlvBits <= r.intlvHighBit }

  /** The hash value of an address with remainder o by the granularity. */
  function LowHash(r: AddrRange, o: nat): nat
    requires r.WellPlaced() && r.Hashed()
  {
    DivNonNegative(o, Pow2(r.xorHighBit - r.intlvBits + 1));
    o / Pow2(r.xorHighBit - r.intlvBits + 1) % Pow2(r.intlvBits)
  }

  lemma DivideAcross(a: nat, p: nat, w: nat, x: nat, q: nat, c: nat)
    requires c < p && a == (p * w) * x + (p * q + c)
    ensures a / p == w * x + q
  {
    assert p * (w * x + q) == (p * w) * x + p * q;
    DivModIs(a, p, w * x + q, c);
  }

  lemma ModAcross(n: nat, v: nat, x: nat, q: nat)
    requires n > 0
    ensures ((n * v) * x + q) % n == q % n
  {
    assert (n * v) * x == n * (v * x);
    ModMultiple(n, v * x, q);
  }

  /** Bits that all lie below the granularity are those of the remainder by it. */
  lemma LowBits(a: nat, g: nat, p: nat, n: nat, v: nat)
    requires g > 0 && p > 0 && n > 0 && g == p * (n * v)
    ensures a / p % n == a % g / p % n
  {
    DivNonNegative(a, g);
    var x: nat, o: nat := a / g, a % g;
    DivNonNegative(o, p);
    var q: nat, c: nat := o / p, o % p;
    SameSum(a, g, x, o, x);
    SameSum(o, p, q, c, q);
    DivideAcross(a, p, n * v, x, q, c);
    ModAcross(n, v, x, q);
  }

  lemma HashIsLow(r: AddrRange, a: Addr)
    requires r.WellPlaced() && HashedBelow(r)
    ensures Hash(r, a) == LowHash(r, a % Granularity(r))
  {
    var low := r.xorHighBit - r.intlvBits + 1;
    var gap := r.intlvHighBit - r.intlvBits - r.xorHighBit;
    BitsBounded(a, r.xorHighBit, low);
    Pow2Splits(r.intlvBits, gap);
    Pow2Splits(low, r.intlvBits + gap);
    LowBits(a, Granularity(r), Pow2(low), Pow2(r.intlvBits), Pow2(gap));
  }

  /** The place in a round of the stripe's address with remainder o by the granularity. */
  function Place(r: AddrRange, o: nat): nat
    requires r.WellPlaced() && r.Hashed()
  {
    Granularity(r) * Xor(r.intlvMatch, LowHash(r, o)) + o
  }

  lemma PlaceInRound(r: AddrRange, o: nat, period: nat)
    requires r.WellPlaced() && HashedBelow(r) && r.intlvMatch < Pow2(r.intlvBits) && o < Granularity(r)
    requires period == Granularity(r) * Pow2(r.intlvBits)
    ensures Place(r, o) < period
  {
    XorBounded(r.intlvMatch, LowHash(r, o), r.intlvBits);
    DigitsBounded(Granularity(r), Pow2(r.intlvBits), Xor(r.intlvMatch, LowHash(r, o)), o);
  }

  /** An address of the interval is in the stripe exactly at the place of its remainder. */
  lemma ContainsAtPlace(r: AddrRange, a: Addr, period: nat)
    requires r.WellPlaced() && HashedBelow(r) && r.Spans(a) && period == Granularity(r) * Pow2(r.intlvBits) > 0
    ensures r.Contains(a) <==> a % period == Place(r, a % Granularity(r))
  {
    var g, n := Granularity(r), Pow2(r.intlvBits);
    var m := Xor(r.intlvMatch, Hash(r, a));
    ContainsHashed(r, a, Hash(r, a));
    HashIsLow(r, a);
    ModDigits(a, g, n, period);
    SameDigits(g, a / g % n, a % g, m, a % g);
  }

  /** The address of the stripe, in the round that starts at lo, with remainder o by the granularity. */
  lemma StripeAddress(r: AddrRange, lo: nat, o: nat, period: nat) returns (a: nat)
    requires r.WellPlaced() && HashedBelow(r) && r.intlvMatch < Pow2(r.intlvBits) && o < Granularity(r)
    requires period == Granularity(r) * Pow2(r.intlvBits) && r.start <= lo && lo + period <= r.end + 1
    ensures a == Pick(lo, period, Place(r, o)) && lo <= a < lo + period && a % Granularity(r) == o && r.Contains(a)
  {
    var g, n := Granularity(r), Pow2(r.intlvBits);
    PlaceInRound(r, o, period);
    PickIs(lo, period, Place(r, o));
    a := Pick(lo, period, Place(r, o));
    ModDigits(a, g, n, period);
    SameDigits(g, a / g % n, a % g, Xor(r.intlvMatch, LowHash(r, o)), o);
    ContainsAtPlace(r, a, period);
  }

  /** Every address of the stripe is the one that its remainder picks. */
  lemma StripePicked(r: AddrRange, lo: nat, a: Addr, period: nat)
    requires r.WellPlaced() && HashedBelow(r) && r.Spans(a)
    requires period == Granularity(r) * Pow2(r.intlvBits) > 0 && lo <= a < lo + period
    ensures 0 <= a % Granularity(r) < Granularity(r)
    ensures r.Contains(a) ==> Pick(lo, period, Place(r, a % Granularity(r))) == a
  {
    ContainsAtPlace(r, a, period);
    PickIs(lo, period, a % period);
    PickUnique(lo, period, a, Pick(lo, period, a % period));
  }

  /** Any round inside the interval, wherever it starts, holds one address of the stripe per remainder. */
  lemma AnyHashedRound(r: AddrRange, lo: nat, period: nat)
    requires r.WellPlaced() && HashedBelow(r) && r.intlvMatch < Pow2(r.intlvBits)
    requires period == Granularity(r) * Pow2(r.intlvBits) > 0 && r.start <= lo && lo + period <= r.end + 1
    ensures |Among(r, lo, period)| == Granularity(r)
  {
    var g, A := Granularity(r), Among(r, lo, period);
    var f: map<nat, nat> := map o: nat | o in Below(g) :: Pick(lo, period, Place(r, o));
    var number: map<nat, nat> := map a: nat | a in A :: a % g;
    forall o | o in Below(g) ensures f[o] in A && number[f[o]] == o { var _ := StripeAddress(r, lo, o, period); }
    forall a | a in A ensures number[a] in Below(g) && f[number[a]] == a { StripePicked(r, lo, a, period); }
    NumberedSize(A, g, f, number);
  }

  /** One more round adds one address per remainder. */
  lemma AnyHashedNext(r: AddrRange, period: nat, before: nat)
    requires r.WellPlaced() && HashedBelow(r) && r.intlvMatch < Pow2(r.intlvBits)
    requires period == Pow2(r.intlvHighBit + 1) && r.start + before + period <= r.end + 1
    ensures |Among(r, r.start, before + period)| == |Among(r, r.start, before)| + Granularity(r)
  {
    Pow2Splits(r.intlvHighBit - r.intlvBits + 1, r.intlvBits);
    AnyHashedRound(r, r.start + before, period);
    AmongSplits(r, r.start, before, period);
  }

  lemma {:induction false} AnyHashedRounds(r: AddrRange, period: nat, rounds: nat)
    requires r.WellPlaced() && HashedBelow(r) && r.intlvMatch < Pow2(r.intlvBits)
    requires period == Pow2(r.intlvHighBit + 1) && r.start + Times(rounds, period) <= r.end + 1
    ensures |Among(r, r.start, Times(rounds, period))| == Times(rounds, Granularity(r))
    decreases rounds
  {
    if rounds == 0 {
      AmongNone(r, r.start);
    } else {
      AnyHashedRounds(r, period, rounds - 1);
      AnyHashedNext(r, period, Times(rounds - 1, period));
    }
  }

  /**
   * A stripe whose hash bits lie below its interleaving bits holds exactly size() addresses
   * of an interval of whole rounds, wherever it starts, unless it is the full address space.
   */
  lemma HashedBelowSize(r: AddrRange, rounds: nat)
    requires r.WellPlaced() && HashedBelow(r) && r.Valid() && r.intlvMatch < Pow2(r.intlvBits)
    requires r.end - r.start + 1 == rounds * (Granularity(r) * Pow2(r.intlvBits))
    ensures |Members(r)| == rounds * Granularity(r)
    ensures r.Size() == |Members(r)| <==> r.end - r.start + 1 < SPACE
  {
    var g, n := Granularity(r), Pow2(r.intlvBits);
    RoundsRegroup(rounds, g, n);
    Pow2Splits(r.intlvHighBit - r.intlvBits + 1, r.intlvBits);
    TimesIsProduct(rounds, g * n);
    TimesIsProduct(rounds, g);
    AnyHashedRounds(r, g * n, rounds);
    assert Members(r) == Among(r, r.start, r.end - r.start + 1);
    SizeOfStripe(r, n, rounds * g);
  }
}
