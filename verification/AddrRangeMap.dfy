/**
 * Address decoding: an ordered map from address ranges to values. A point lookup looks at
 * the predecessor and walks back through its interleave group; it agrees with a linear
 * scan exactly when the entry sought does not sort behind its own start address.
 */
module AddressRangeMap {
  import opened BitOps
  import opened AddressRange
  import opened Wrappers

  datatype Entry<V> = Entry(range: AddrRange, value: V)

  /** Interval-disjoint, or different stripes of one interleave group. */
  predicate Compatible(r: AddrRange, q: AddrRange)
  {
    || r.end < q.start || q.end < r.start
    || (r.Interleaved() && r.MergesWith(q) && r.intlvMatch != q.intlvMatch)
  }

  predicate Usable(r: AddrRange) { r.Valid() && r.WellPlaced() }

  /** An ordered map of valid ranges that are pairwise compatible. */
  ghost predicate WellFormed<V>(t: seq<Entry<V>>)
  {
    && (forall i :: 0 <= i < |t| ==> Usable(t[i].range))
    && (forall i, j :: 0 <= i < j < |t| ==> t[i].range.Less(t[j].range))
    && (forall i, j :: 0 <= i < j < |t| ==> Compatible(t[i].range, t[j].range))
  }

  /** The linear scan from position i: the first entry that contains a, or |t|. */
  function Scan<V>(t: seq<Entry<V>>, a: Addr, i: nat): (k: nat)
    requires i <= |t| && forall j :: 0 <= j < |t| ==> t[j].range.WellPlaced()
    ensures i <= k <= |t|
    ensures k < |t| ==> t[k].range.Contains(a)
    ensures forall j :: i <= j < k ==> !t[j].range.Contains(a)
    decreases |t| - i
  {
    if i == |t| then i else if t[i].range.Contains(a) then i else Scan(t, a, i + 1)
  }

  /** Some entry other than the first contains a, starts at a and has a nonzero match value. */
  ghost predicate Hidden<V>(t: seq<Entry<V>>, a: Addr)
    requires forall j :: 0 <= j < |t| ==> t[j].range.WellPlaced()
  {
    exists k :: 0 < k < |t| && t[k].range.start == a && t[k].range.intlvMatch > 0 && t[k].range.Contains(a)
  }

  // ----- lemmas about well-formed maps -----

  lemma AtMostOne<V>(t: seq<Entry<V>>, a: Addr, i: nat, j: nat)
    requires WellFormed(t) && i < |t| && j < |t|
    requires t[i].range.Contains(a) && t[j].range.Contains(a)
    ensures i == j
  {
    if i < j {
      assert Compatible(t[i].range, t[j].range);
      ContainsMergedBoth(t[i].range, t[j].range, a);
    } else if j < i {
      assert Compatible(t[j].range, t[i].range);
      ContainsMergedBoth(t[j].range, t[i].range, a);
    }
  }

  lemma ContainsMergedBoth(r: AddrRange, q: AddrRange, a: Addr)
    requires r.WellPlaced() && q.WellPlaced() && r.Contains(a) && q.Contains(a)
    ensures !Compatible(r, q)
  {
    if r.MergesWith(q) { ContainsMerged(r, q, a); }
  }

  /** An earlier entry that spans a drags everything up to a later start at or before a into its group. */
  lemma SameGroup<V>(t: seq<Entry<V>>, a: Addr, k: nat, i: nat, u: nat)
    requires WellFormed(t) && k < u < |t| && k <= i <= u
    requires t[u].range.start <= a
    ensures t[k].range.Spans(a) ==> t[i].range.MergesWith(t[u].range) && t[u].range.Interleaved()
  {
    assert t[k].range.Less(t[u].range) && Compatible(t[k].range, t[u].range);
    if k < i < u {
      assert t[k].range.Less(t[i].range) && Compatible(t[k].range, t[i].range) && t[i].range.Less(t[u].range);
    }
  }

  lemma SingleIntersects(r: AddrRange, a: Addr)
    requires r.WellPlaced()
    ensures r.Intersects(Single(a)) == Ok(r.Contains(a))
  {
  }

  /** The stripe q is taken for the single address where its interval starts, which r contains. */
  predicate Mistaken(r: AddrRange, q: AddrRange)
    requires r.WellPlaced() && q.WellPlaced()
  {
    q.Interleaved() && q.Size() == 1 && r.MergesWith(q) && r.Contains(q.start)
  }

  /** A compatible range is taken for an intersecting one exactly if it is mistaken for an address. */
  lemma CompatibleIntersects(r: AddrRange, q: AddrRange)
    requires Usable(r) && Usable(q) && Compatible(r, q)
    ensures r.Intersects(q) == Ok(Mistaken(r, q))
  {
  }

  /** If every group starts in its stripe 0 and plain ranges have match value 0, nothing is hidden. */
  lemma NothingHidden<V>(t: seq<Entry<V>>, a: Addr)
    requires forall j :: 0 <= j < |t| ==> t[j].range.WellPlaced()
    requires forall j :: 0 <= j < |t| ==>
               var r := t[j].range; if r.Interleaved() then r.Stripe(r.start) == 0 else r.intlvMatch == 0
    ensures !Hidden(t, a)
  {
    forall k | 0 < k < |t| && t[k].range.start == a && t[k].range.intlvMatch > 0 ensures !t[k].range.Contains(a) {
      var r := t[k].range;
      assert r.Interleaved() && r.Stripe(r.start) == 0;
    }
  }

  /** Plain entries follow each other without overlap. */
  lemma PlainBefore<V>(t: seq<Entry<V>>, k: nat, u: nat)
    requires WellFormed(t) && AllPlain(t) && k < u < |t|
    ensures t[k].range.end < t[u].range.start
  {
    assert t[k].range.Less(t[u].range) && Compatible(t[k].range, t[u].range);
  }

  /** A hidden entry: a lone stripe 1 that starts in stripe 1, behind another range. */
  lemma HiddenExample(t: seq<Entry<int>>)
    requires t == [Entry(AddrRange(0, 15, 0, 0, 0, 0), 0), Entry(AddrRange(16, 31, 4, 0, 1, 1), 1)]
    ensures WellFormed(t) && Hidden(t, 16)
  {
    var r := t[1].range;
    assert Pow2(4) == 16 && Pow2(1) == 2;
    ContainsUnhashed(r, 16);
    assert Granularity(r) == Pow2(4);
    assert t[1].range.Contains(16);
  }

  predicate Plain(r: AddrRange) { r.Valid() && !r.Interleaved() && r.intlvMatch == 0 }

  predicate AllPlain<V>(t: seq<Entry<V>>) { forall i :: 0 <= i < |t| ==> Plain(t[i].range) }

  predicate Overlaps(r: AddrRange, q: AddrRange) { r.start <= q.end && q.start <= r.end }

  /** An entry that overlaps r and that find looks at: the first one, or one that starts at or before r. */
  ghost predicate Seen<V>(t: seq<Entry<V>>, r: AddrRange)
  {
    exists k :: 0 <= k < |t| && (k == 0 || t[k].range.start <= r.start) && Overlaps(t[k].range, r)
  }

  /** What find returns for the query r. */
  ghost predicate Answers<V>(t: seq<Entry<V>>, r: AddrRange, res: Result<nat>)
    requires WellFormed(t) && r.WellPlaced()
  {
    // a single address: the linear scan, unless the entry is hidden
    && (forall a: Addr :: r == Single(a) ==> res == Ok(if Hidden(t, a) then |t| else Scan(t, a, 0)))
    // a range compatible with every entry: nothing, unless it is mistaken for an address
    && (AllCompatible(t, r) ==> res.Ok? && (res.value != |t| <==> MistakenIn(t, r)))
    // a plain range among plain ones: something exactly if an overlap is seen
    && (Plain(r) && AllPlain(t) ==> res.Ok? && (res.value != |t| <==> Seen(t, r)))
  }

  ghost predicate AllCompatible<V>(t: seq<Entry<V>>, r: AddrRange)
  {
    Usable(r) && forall i :: 0 <= i < |t| ==> Compatible(t[i].range, r)
  }

  /** The stripe r is mistaken for an address of an entry that find looks at: the first, or one not after r. */
  ghost predicate MistakenIn<V>(t: seq<Entry<V>>, r: AddrRange)
    requires WellFormed(t) && r.WellPlaced()
  {
    exists k :: 0 <= k < |t| && (k == 0 || !r.Less(t[k].range)) && Mistaken(t[k].range, r)
  }

  lemma PlainIntersects(r: AddrRange, q: AddrRange)
    requires r.WellPlaced() && q.WellPlaced() && Plain(r) && Plain(q)
    ensures r.Intersects(q) == Ok(Overlaps(r, q)) && (Compatible(r, q) <==> !Overlaps(r, q))
  {
  }

  /** Entry k, which the query hits, is the answer to it. */
  lemma AnswersHit<V>(t: seq<Entry<V>>, r: AddrRange, k: nat)
    requires WellFormed(t) && r.WellPlaced() && k < |t|
    requires t[k].range.Intersects(r) == Ok(true)
    requires k == 0 || !r.Less(t[k].range)
    ensures Answers(t, r, Ok(k))
  {
    forall a: Addr | r == Single(a) ensures !Hidden(t, a) && Scan(t, a, 0) == k {
      SingleIntersects(t[k].range, a);
      AtMostOne(t, a, k, Scan(t, a, 0));
      if Hidden(t, a) {
        var h :| 0 < h < |t| && t[h].range.start == a && t[h].range.intlvMatch > 0 && t[h].range.Contains(a);
        AtMostOne(t, a, k, h);
      }
    }
    if AllCompatible(t, r) {
      CompatibleIntersects(t[k].range, r);
      assert MistakenIn(t, r);
    }
    if Plain(r) && AllPlain(t) {
      PlainIntersects(t[k].range, r);
      assert Seen(t, r);
    }
  }

  /** Neither an entry before u nor the first one is hit. */
  ghost predicate Missed<V>(t: seq<Entry<V>>, r: AddrRange, u: nat)
    requires WellFormed(t) && r.WellPlaced()
  {
    && (AllCompatible(t, r) ==> forall k :: 0 <= k < |t| && (k == 0 || k < u) ==> !Mistaken(t[k].range, r))
    && (forall a: Addr, k :: r == Single(a) && 0 <= k < |t| && (k == 0 || k < u) ==> !t[k].range.Contains(a))
    && (Plain(r) && AllPlain(t) ==> forall k :: 0 <= k < |t| && (k == 0 || k < u) ==> !Overlaps(t[k].range, r))
  }

  /** If no entry before u and not the first one is hit, nothing is the answer. */
  lemma AnswersEnd<V>(t: seq<Entry<V>>, r: AddrRange, u: nat)
    requires WellFormed(t) && r.WellPlaced() && u <= |t| && |t| > 0
    requires forall k :: u <= k < |t| ==> r.Less(t[k].range)
    requires Missed(t, r, u)
    ensures Answers(t, r, Ok(|t|))
  {
    forall a: Addr | r == Single(a) ensures Hidden(t, a) || Scan(t, a, 0) == |t| {
      var k := Scan(t, a, 0);
      if k < |t| {
        assert r.Less(t[k].range) && t[k].range.Contains(a);
        assert 0 < k < |t| && t[k].range.start == a && t[k].range.intlvMatch > 0 && t[k].range.Contains(a);
      }
    }
  }

  class AddrRangeMap<V> {
    var tree: seq<Entry<V>>

    /** std::map::upper_bound: the first entry that r is less than. */
    method UpperBound(r: AddrRange) returns (i: nat)
      requires WellFormed(tree)
      ensures i <= |tree|
      ensures forall k :: 0 <= k < i ==> !r.Less(tree[k].range)
      ensures forall k :: i <= k < |tree| ==> r.Less(tree[k].range)
    {
      i := 0;
      while i < |tree| && !r.Less(tree[i].range)
        invariant i <= |tree| && forall k :: 0 <= k < i ==> !r.Less(tree[k].range)
      {
        i := i + 1;
      }
      if i < |tree| {
        assert forall k :: i < k < |tree| ==> tree[i].range.Less(tree[k].range);
      }
    }

    /** find: the position of the entry, |tree| for end(), or Abort for the panic of an unsupported test. */
    method Find(r: AddrRange) returns (res: Result<nat>)
      requires WellFormed(tree) && r.WellPlaced()
      ensures res.Ok? ==> res.value <= |tree|
      ensures res.Ok? && res.value < |tree| ==> tree[res.value].range.Intersects(r) == Ok(true)
      ensures Answers(tree, r, res)
    {
      if tree == [] {
        return Ok(|tree|);
      }
      Misses(r);
      var i: nat := UpperBound(r);
      ghost var u := i;
      if i == 0 {
        var first := tree[0].range.Intersects(r);
        if first.Abort? {
          return Abort;
        }
        if first.value {
          AnswersHit(tree, r, 0);
          return Ok(0);
        } else {
          FirstMissed(r);
          AnswersEnd(tree, r, u);
          return Ok(|tree|);
        }
      }
      i := i - 1;
      var hit := tree[i].range.Intersects(r);
      if hit.Abort? {
        return Abort;
      }
      if hit.value {
        AnswersHit(tree, r, i);
        return Ok(i);
      }
      if tree[i].range.Interleaved() {
        res := WalkBack(r, i);
        return;
      }
      NoneBefore(r, u, i);
      AnswersEnd(tree, r, u);
      return Ok(|tree|);
    }

    /** find's walk back from entry last, which is not hit, through the ranges of its interleave group. */
    method WalkBack(r: AddrRange, last: nat) returns (res: Result<nat>)
      requires WellFormed(tree) && r.WellPlaced() && last < |tree|
      requires tree[last].range.Intersects(r) == Ok(false)
      requires forall k :: 0 <= k <= last ==> !r.Less(tree[k].range)
      requires forall k :: last < k < |tree| ==> r.Less(tree[k].range)
      ensures res.Ok? ==> res.value <= |tree|
      ensures res.Ok? && res.value < |tree| ==> tree[res.value].range.Intersects(r) == Ok(true)
      ensures Answers(tree, r, res)
    {
      Misses(r);
      var i: nat, orig := last, tree[last].range;
      while i != 0 && tree[i].range.MergesWith(orig)
        invariant i <= last && forall k :: i <= k <= last ==> tree[k].range.Intersects(r) == Ok(false)
      {
        i := i - 1;
        var hit := tree[i].range.Intersects(r);
        if hit.Abort? {
          return Abort;
        }
        if hit.value {
          AnswersHit(tree, r, i);
          return Ok(i);
        }
      }
      var hit := tree[i].range.Intersects(r);
      if hit.Abort? {
        return Abort;
      }
      if hit.value {
        return Ok(i);
      }
      NoneBefore(r, last + 1, i);
      AnswersEnd(tree, r, last + 1);
      return Ok(|tree|);
    }

    /** Single-address queries, compatible ranges and plain ranges among plain ones are never unsupported tests. */
    lemma Misses(r: AddrRange)
      requires WellFormed(tree) && r.WellPlaced()
      ensures forall k, a: Addr :: 0 <= k < |tree| && r == Single(a) ==>
                tree[k].range.Intersects(r) == Ok(tree[k].range.Contains(a))
      ensures AllCompatible(tree, r) ==>
                forall k :: 0 <= k < |tree| ==> tree[k].range.Intersects(r) == Ok(Mistaken(tree[k].range, r))
      ensures Plain(r) && AllPlain(tree) ==>
                forall k :: 0 <= k < |tree| ==> tree[k].range.Intersects(r) == Ok(Overlaps(tree[k].range, r))
    {
      forall k, a: Addr | 0 <= k < |tree| && r == Single(a)
        ensures tree[k].range.Intersects(r) == Ok(tree[k].range.Contains(a))
      {
        SingleIntersects(tree[k].range, a);
      }
      if AllCompatible(tree, r) {
        forall k | 0 <= k < |tree| ensures tree[k].range.Intersects(r) == Ok(Mistaken(tree[k].range, r)) {
          CompatibleIntersects(tree[k].range, r);
        }
      }
      if Plain(r) && AllPlain(tree) {
        forall k | 0 <= k < |tree| ensures tree[k].range.Intersects(r) == Ok(Overlaps(tree[k].range, r)) {
          PlainIntersects(tree[k].range, r);
        }
      }
    }

    lemma FirstMissed(r: AddrRange)
      requires WellFormed(tree) && r.WellPlaced() && tree != [] && tree[0].range.Intersects(r) == Ok(false)
      ensures Missed(tree, r, 0)
    {
      Misses(r);
    }

    /** Where the walk back stopped, no earlier entry can be hit. */
    lemma NoneBefore(r: AddrRange, u: nat, i: nat)
      requires WellFormed(tree) && r.WellPlaced() && i < u <= |tree|
      requires !r.Less(tree[u - 1].range)
      requires forall k :: i <= k < u ==> tree[k].range.Intersects(r) == Ok(false)
      requires i == 0 || (i == u - 1 && !tree[i].range.Interleaved()) || !tree[i].range.MergesWith(tree[u - 1].range)
      ensures Missed(tree, r, u)
    {
      Misses(r);
      forall a: Addr, k | r == Single(a) && 0 <= k < u ensures !tree[k].range.Contains(a) {
        if k < i {
          SameGroup(tree, a, k, i, u - 1);
        }
      }
      if AllCompatible(tree, r) {
        forall k | 0 <= k < u ensures !Mistaken(tree[k].range, r) {
          if k < i {
            SameGroup(tree, r.start, k, i, u - 1);
          }
        }
      }
      if Plain(r) && AllPlain(tree) {
        forall k | 0 <= k < u ensures !Overlaps(tree[k].range, r) {
          if k < u - 1 { PlainBefore(tree, k, u - 1); }
        }
      }
    }

    /** The point lookup never panics, and is the linear scan if and only if the entry is not hidden. */
    method FindAddr(a: Addr) returns (res: Result<nat>)
      requires WellFormed(tree)
      ensures res.Ok? && (res.value == Scan(tree, a, 0) <==> !Hidden(tree, a))
      ensures Hidden(tree, a) ==> res.value == |tree|
    {
      res := Find(Single(a));
      if Hidden(tree, a) {
        var h :| 0 < h < |tree| && tree[h].range.start == a && tree[h].range.intlvMatch > 0 &&
                 tree[h].range.Contains(a);
        assert Scan(tree, a, 0) <= h;
      }
    }

    /** insert: end() if find reports an intersection; otherwise std::map::insert. */
    method Insert(r: AddrRange, d: V) returns (res: Result<nat>)
      requires WellFormed(tree) && r.WellPlaced()
      modifies this
      ensures old(AllCompatible(tree, r)) ==>
                && WellFormed(tree) && res.Ok?
                && if old(MistakenIn(tree, r)) then tree == old(tree) && res.value == |tree|
                   else Inserted(old(tree), tree, Entry(r, d), res)
      ensures tree != old(tree) ==> res.Ok? && Inserted(old(tree), tree, Entry(r, d), res)
      ensures Plain(r) && old(AllPlain(tree)) ==>
                && (tree == old(tree) <==> old(Seen(tree, r)))
                && (WellFormed(tree) <==> (old(OverlapsAny(tree, r)) ==> old(Seen(tree, r))))
    {
      var found := Find(r);
      if found.Abort? {
        return Abort;
      }
      if found.value < |tree| {
        return Ok(|tree|);
      }
      var i := UpperBound(r);
      if i > 0 && !tree[i - 1].range.Less(r) {
        assert Overlaps(tree[i - 1].range, r) || !Plain(r);
        return Ok(i - 1);
      }
      InsertSorted(tree, i, Entry(r, d));
      InsertPlain(tree, i, Entry(r, d));
      tree := tree[..i] + [Entry(r, d)] + tree[i..];
      return Ok(i);
    }
  }

  /** t2 is t1 with e at the position res, everything else in order. */
  ghost predicate Inserted<V>(t1: seq<Entry<V>>, t2: seq<Entry<V>>, e: Entry<V>, res: Result<nat>)
  {
    res.Ok? && res.value <= |t1| && t2 == t1[..res.value] + [e] + t1[res.value..]
  }

  ghost predicate OverlapsAny<V>(t: seq<Entry<V>>, r: AddrRange)
  {
    exists k :: 0 <= k < |t| && Overlaps(t[k].range, r)
  }

  /** A plain range put between plain ones keeps the map well formed exactly when it overlaps none of them. */
  lemma InsertPlain<V>(t: seq<Entry<V>>, i: nat, e: Entry<V>)
    requires WellFormed(t) && e.range.WellPlaced() && i <= |t|
    requires AllCompatible(t, e.range) ==> WellFormed(t[..i] + [e] + t[i..])
    ensures Plain(e.range) && AllPlain(t) ==>
              (WellFormed(t[..i] + [e] + t[i..]) <==> !OverlapsAny(t, e.range))
  {
    var r, t2 := e.range, t[..i] + [e] + t[i..];
    if Plain(r) && AllPlain(t) {
      forall k | 0 <= k < |t| ensures Compatible(t[k].range, r) <==> !Overlaps(t[k].range, r) {
        PlainIntersects(t[k].range, r);
      }
      forall k | 0 <= k < |t| && Overlaps(t[k].range, r) ensures !WellFormed(t2) {
        assert t2[i] == e && (k < i ==> t2[k] == t[k]) && (k >= i ==> t2[k + 1] == t[k]);
      }
    }
  }

  /** The stripe of the odd one of two addresses has size() 1. */
  lemma OddStripe(r: AddrRange)
    requires r == AddrRange(0, 1, 0, 0, 1, 1)
    ensures Usable(r) && r.Size() == 1
  {
    DivModIs(2, SPACE, 0, 2);
    assert Shr(2, 1) == Shr(1, 0);
  }

  /** The stripe of the even one contains address 0. */
  lemma EvenStripe(r: AddrRange)
    requires r == AddrRange(0, 1, 0, 0, 1, 0)
    ensures Usable(r) && r.Contains(0)
  {
    assert Shr(0, 0) == 0 && And(0, Pow2(1) - 1) == 0;
  }

  /** Next to the stripe that its interval starts in, any other stripe of the group with size() 1 is refused. */
  lemma SecondRefused<V>(t: seq<Entry<V>>, r: AddrRange)
    requires |t| == 1 && Usable(t[0].range) && Usable(r) && t[0].range.Interleaved() && t[0].range.MergesWith(r)
    requires t[0].range.intlvMatch != r.intlvMatch && t[0].range.Contains(r.start) && r.Size() == 1
    ensures WellFormed(t) && AllCompatible(t, r) && MistakenIn(t, r)
  {
    assert Mistaken(t[0].range, r);
  }

  /** insert refuses the second one of two stripes of one address each. */
  lemma StripeRefused(t: seq<Entry<int>>, e: AddrRange, r: AddrRange)
    requires e == AddrRange(0, 1, 0, 0, 1, 0) && r == AddrRange(0, 1, 0, 0, 1, 1) && t == [Entry(e, 0)]
    ensures WellFormed(t) && AllCompatible(t, r) && MistakenIn(t, r)
  {
    OddStripe(r);
    EvenStripe(e);
    SecondRefused(t, r);
  }

  /** insert accepts a range that overlaps an entry starting later. */
  lemma OverlapAccepted(t: seq<Entry<int>>, r: AddrRange)
    requires t == [Entry(AddrRange(0, 9, 0, 0, 0, 0), 0), Entry(AddrRange(20, 29, 0, 0, 0, 0), 1)]
    requires r == AddrRange(10, 25, 0, 0, 0, 0)
    ensures WellFormed(t) && AllPlain(t) && Plain(r) && !Seen(t, r) && OverlapsAny(t, r)
  {
    assert Overlaps(t[1].range, r);
  }

  /** Entry k of t with e put at position i. */
  function At<V>(t: seq<Entry<V>>, i: nat, e: Entry<V>, k: nat): Entry<V>
    requires i <= |t| && k <= |t|
  {
    if k < i then t[k] else if k == i then e else t[k - 1]
  }

  lemma PairKept<V>(t: seq<Entry<V>>, i: nat, e: Entry<V>, j: nat, k: nat)
    requires WellFormed(t) && i <= |t| && j < k <= |t| && AllCompatible(t, e.range)
    requires forall m :: i <= m < |t| ==> e.range.Less(t[m].range)
    requires forall m :: 0 <= m < i ==> t[m].range.Less(e.range)
    ensures var r, q := At(t, i, e, j).range, At(t, i, e, k).range; r.Less(q) && Compatible(r, q)
  {
    if j == i {
      assert Compatible(t[k - 1].range, e.range);
    } else if k == i {
      assert Compatible(t[j].range, e.range);
    } else {
      var j', k' := if j < i then j else j - 1, if k < i then k else k - 1;
      assert t[j'].range.Less(t[k'].range) && Compatible(t[j'].range, t[k'].range);
    }
  }

  lemma InsertSorted<V>(t: seq<Entry<V>>, i: nat, e: Entry<V>)
    requires WellFormed(t) && i <= |t|
    requires forall k :: i <= k < |t| ==> e.range.Less(t[k].range)
    requires i > 0 ==> t[i - 1].range.Less(e.range)
    ensures AllCompatible(t, e.range) ==> WellFormed(t[..i] + [e] + t[i..])
  {
    var t2 := t[..i] + [e] + t[i..];
    assert forall k :: 0 <= k < |t2| ==> t2[k] == At(t, i, e, k);
    forall k | 0 <= k < i ensures t[k].range.Less(e.range) {
      if k < i - 1 { assert t[k].range.Less(t[i - 1].range); }
    }
    if AllCompatible(t, e.range) {
      forall j, k | 0 <= j < k < |t2| ensures t2[j].range.Less(t2[k].range) && Compatible(t2[j].range, t2[k].range) {
        PairKept(t, i, e, j, k);
      }
    }
  }
}
