/**
 * Fixed-width keys and masks as bit strings, most significant bit first.
 * The operators are the bitwise ones of an unsigned integral type whose width is the
 * length of the sequence; a mask that keeps the first p bits is `Ones(p, w)`, and a
 * prefix p is stored as a key by `Pad(p, w)`.
 */
module KeyBits {

  type Bits = seq<bool>

  function And(a: Bits, b: Bits): (r: Bits)
    requires |a| == |b|
    ensures |r| == |a|
  {
    seq(|a|, i requires 0 <= i < |a| => a[i] && b[i])
  }

  function Or(a: Bits, b: Bits): (r: Bits)
    requires |a| == |b|
    ensures |r| == |a|
  {
    seq(|a|, i requires 0 <= i < |a| => a[i] || b[i])
  }

  /** Logical right shift by one. */
  function Shr1(a: Bits): (r: Bits)
    requires |a| > 0
    ensures |r| == |a|
  {
    [false] + a[..|a| - 1]
  }

  /** Left shift by k, filling with zeros. */
  function Shl(a: Bits, k: nat): (r: Bits)
    requires k <= |a|
    ensures |r| == |a|
  {
    a[k..] + seq(k, _ => false)
  }

  /** p leading ones followed by zeros. */
  function Ones(p: nat, w: nat): (r: Bits)
    ensures |r| == w
  {
    seq(w, i => i < p)
  }

  /** The prefix p filled up with zeros to width w. */
  function Pad(p: Bits, w: nat): (r: Bits)
    requires |p| <= w
    ensures |r| == w
  {
    p + seq(w - |p|, _ => false)
  }

  /** The source's extendMask: one more bit towards the least significant end. */
  function ExtendMask(orig: Bits): (r: Bits)
    requires |orig| > 0
    ensures |r| == |orig|
  {
    Or(Or(orig, Shr1(orig)), Ones(1, |orig|))
  }

  lemma ExtendMaskAddsOneBit(p: nat, w: nat)
    requires 0 < w && p <= w
    ensures ExtendMask(Ones(p, w)) == Ones(if p < w then p + 1 else w, w)
  {
    var m := Ones(p, w);
    forall i | 0 <= i < w
      ensures ExtendMask(m)[i] == Ones(if p < w then p + 1 else w, w)[i]
    {
      assert Shr1(m)[i] == if i == 0 then false else m[i - 1];
    }
  }

  /** Masking a key keeps exactly its first p bits. */
  lemma AndOnes(k: Bits, p: nat)
    requires p <= |k|
    ensures And(k, Ones(p, |k|)) == Pad(k[..p], |k|)
  {
  }

  lemma PadInjective(p: Bits, q: Bits, w: nat)
    requires |p| == |q| <= w
    ensures Pad(p, w) == Pad(q, w) <==> p == q
  {
    assert Pad(p, w)[..|p|] == p && Pad(q, w)[..|q|] == q;
  }

  lemma OnesInjective(p: nat, q: nat, w: nat)
    requires p <= w && q <= w
    ensures Ones(p, w) == Ones(q, w) <==> p == q
  {
    if p < q { assert !Ones(p, w)[p] && Ones(q, w)[p]; }
    if q < p { assert !Ones(q, w)[q] && Ones(p, w)[q]; }
  }

  /** One mask is contained in another exactly when it keeps no more bits. */
  lemma OnesContained(p: nat, q: nat, w: nat)
    requires p <= w && q <= w
    ensures And(Ones(p, w), Ones(q, w)) == Ones(p, w) <==> p <= q
  {
    if p <= q {
      assert And(Ones(p, w), Ones(q, w)) == Ones(p, w);
    } else {
      assert !And(Ones(p, w), Ones(q, w))[q] && Ones(p, w)[q];
    }
  }

  /** A node's stored (key, mask) pair matches exactly the keys that its prefix begins. */
  lemma MatchesIsPrefix(test: Bits, p: Bits)
    requires |p| <= |test|
    ensures And(test, Ones(|p|, |test|)) == Pad(p, |test|) <==> p <= test
  {
    AndOnes(test, |p|);
    PadInjective(test[..|p|], p, |test|);
  }
}
