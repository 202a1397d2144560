/**
 * Bitwise operators on unsigned integers of any width, and what masks do to them.
 */
module BitOps {

  function Pow2(k: nat): (r: nat)
    ensures r >= 1
  {
    if k == 0 then 1 else 2 * Pow2(k - 1)
  }

  /** Logical right shift. */
  function Shr(x: nat, k: nat): nat
    decreases k
  {
    if k == 0 then x else Shr(x / 2, k - 1)
  }

  lemma DivNonNegative(x: nat, m: nat)
    requires m > 0
    ensures x / m >= 0
  {
    var q, r := x / m, x % m;
    assert x == m * q + r;
    MulSign(m, q);
  }

  function And(x: nat, y: nat): nat
  {
    if x == 0 || y == 0 then 0 else 2 * And(x / 2, y / 2) + (if x % 2 == 1 && y % 2 == 1 then 1 else 0)
  }

  function Xor(x: nat, y: nat): nat
    decreases x + y
  {
    if x == 0 then y else if y == 0 then x
    else 2 * Xor(x / 2, y / 2) + (if x % 2 != y % 2 then 1 else 0)
  }

  lemma {:induction false} Pow2Monotone(a: nat, b: nat)
    requires a <= b
    ensures Pow2(a) <= Pow2(b)
    decreases b
  {
    if a < b { Pow2Monotone(a, b - 1); }
  }

  lemma {:induction false} Pow2Splits(a: nat, b: nat)
    ensures Pow2(a + b) == Pow2(a) * Pow2(b)
    decreases b
  {
    if b > 0 {
      Pow2Splits(a, b - 1);
      DoubleProduct(Pow2(a), Pow2(b - 1));
    }
  }

  lemma DoubleProduct(p: nat, q: nat)
    ensures p * (2 * q) == 2 * (p * q)
  {
  }

  lemma MulSign(m: int, d: int)
    requires m > 0
    ensures d >= 1 ==> m * d >= m
    ensures d <= -1 ==> m * d <= -m
  {
  }

  /** Division with remainder has one answer. */
  lemma DivModIs(x: int, m: int, q: int, r: int)
    requires m > 0 && x == m * q + r && 0 <= r < m
    ensures x / m == q && x % m == r
  {
    var d := x / m - q;
    assert m * d == r - x % m by { assert x == m * (x / m) + x % m; assert m * d == m * (x / m) - m * q; }
    MulSign(m, d);
  }

  lemma {:induction false} MulMonotone(g: nat, a: nat, b: nat)
    requires a <= b
    ensures g * a <= g * b
    decreases b
  {
    if a < b {
      MulMonotone(g, a, b - 1);
      assert g * b == g * (b - 1) + g;
    }
  }

  lemma AndOdd(x: nat, h: nat)
    ensures And(x, 2 * h + 1) == 2 * And(x / 2, h) + x % 2
  {
  }

  lemma AndEven(x: nat, h: nat)
    ensures And(x, 2 * h) == 2 * And(x / 2, h)
  {
    if x == 0 || h == 0 {
    } else {
      assert (2 * h) / 2 == h && (2 * h) % 2 == 0;
    }
  }

  /** p added up k times. */
  function Times(k: nat, p: nat): (r: nat)
    ensures k > 0 ==> r >= p
  {
    if k == 0 then 0 else Times(k - 1, p) + p
  }

  lemma {:induction false} TimesIsProduct(k: nat, p: nat)
    ensures Times(k, p) == k * p
  {
    if k > 0 {
      TimesIsProduct(k - 1, p);
      assert k * p == (k - 1) * p + p;
    }
  }

  lemma {:induction false} TimesDoubles(k: nat, p: nat)
    ensures Times(k, 2 * p) == 2 * Times(k, p)
  {
    if k > 0 { TimesDoubles(k - 1, p); }
  }

  lemma {:induction false} TimesOne(k: nat)
    ensures Times(k, 1) == k
  {
    if k > 0 { TimesOne(k - 1); }
  }

  lemma {:induction false} TimesAdds(a: nat, b: nat, p: nat)
    ensures Times(a + b, p) == Times(a, p) + Times(b, p)
    decreases b
  {
    if b > 0 { TimesAdds(a, b - 1, p); }
  }

  /** A power of two is a smaller one added up. */
  lemma {:induction false} Pow2Times(k: nat, w: nat)
    requires k <= w
    ensures Pow2(w) == Times(Pow2(w - k), Pow2(k))
    decreases w
  {
    if k == w {
      assert Times(1, Pow2(k)) == Times(0, Pow2(k)) + Pow2(k);
    } else {
      Pow2Times(k, w - 1);
      TimesAdds(Pow2(w - 1 - k), Pow2(w - 1 - k), Pow2(k));
    }
  }

  lemma MaskStep(x: nat, k: nat)
    requires k > 0
    ensures And(x, Pow2(k) - 1) == 2 * And(x / 2, Pow2(k - 1) - 1) + x % 2
  {
    AndOdd(x, Pow2(k - 1) - 1);
    assert Pow2(k) - 1 == 2 * (Pow2(k - 1) - 1) + 1;
  }

  lemma NotMaskStep(x: nat, k: nat, w: nat)
    requires 0 < k <= w
    ensures Pow2(k) <= Pow2(w) && Pow2(k - 1) <= Pow2(w - 1)
    ensures And(x, Pow2(w) - Pow2(k)) == 2 * And(x / 2, Pow2(w - 1) - Pow2(k - 1))
  {
    Pow2Monotone(k - 1, w - 1);
    AndEven(x, Pow2(w - 1) - Pow2(k - 1));
    assert Pow2(w) - Pow2(k) == 2 * (Pow2(w - 1) - Pow2(k - 1));
  }

  /** x & mask(k) is what x has beyond a multiple of 2^k. */
  lemma {:induction false} AndMaskSplits(x: nat, k: nat) returns (q: nat)
    ensures x == Times(q, Pow2(k)) + And(x, Pow2(k) - 1) && And(x, Pow2(k) - 1) < Pow2(k)
    decreases k
  {
    if k == 0 {
      q := x;
      TimesOne(x);
    } else {
      q := AndMaskSplits(x / 2, k - 1);
      MaskStep(x, k);
      TimesDoubles(q, Pow2(k - 1));
    }
  }

  /** x & mask(k) is the remainder modulo 2^k. */
  lemma AndMask(x: nat, k: nat)
    ensures And(x, Pow2(k) - 1) == x % Pow2(k)
  {
    var q := AndMaskSplits(x, k);
    TimesIsProduct(q, Pow2(k));
    DivModIs(x, Pow2(k), q, And(x, Pow2(k) - 1));
  }

  /** x & ~mask(k), in w bits, is the multiple of 2^k at or below x. */
  lemma {:induction false} AndNotMaskSplits(x: nat, k: nat, w: nat) returns (q: nat)
    requires k <= w && x < Pow2(w)
    ensures Pow2(k) <= Pow2(w) && And(x, Pow2(w) - Pow2(k)) == Times(q, Pow2(k)) <= x < Times(q, Pow2(k)) + Pow2(k)
    decreases w
  {
    if k == 0 {
      q := AndMaskSplits(x, w);
      q := x;
      TimesOne(x);
    } else {
      q := AndNotMaskSplits(x / 2, k - 1, w - 1);
      NotMaskStep(x, k, w);
      TimesDoubles(q, Pow2(k - 1));
    }
  }

  lemma {:induction false} XorBounded(x: nat, y: nat, k: nat)
    requires x < Pow2(k) && y < Pow2(k)
    ensures Xor(x, y) < Pow2(k)
    decreases k
  {
    if x > 0 && y > 0 { XorBounded(x / 2, y / 2, k - 1); }
  }

  /** Halving an exclusive or halves both operands, and its lowest bit tells whether theirs differ. */
  lemma XorParts(x: nat, y: nat)
    ensures Xor(x, y) / 2 == Xor(x / 2, y / 2) && Xor(x, y) % 2 == if x % 2 != y % 2 then 1 else 0
  {
  }

  lemma {:induction false} XorTwice(x: nat, y: nat)
    ensures Xor(Xor(x, y), y) == x
    decreases x + y
  {
    XorParts(x, y);
    XorParts(Xor(x, y), y);
    if x + y > 0 { XorTwice(x / 2, y / 2); }
  }

  lemma RegroupProduct(p: nat, q: nat, b: nat, d: nat, c: nat)
    ensures p * (q * b + d) + c == (p * q) * b + (p * d + c)
  {
  }

  lemma DigitsBounded(p: nat, q: nat, d: nat, c: nat)
    requires d < q && c < p
    ensures 0 <= p * d + c < p * q
  {
    MulMonotone(p, 0, d);
    MulMonotone(p, d + 1, q);
    assert p * (d + 1) == p * d + p;
  }

  /** Dividing by a product is dividing twice. */
  lemma DivideTwice(x: nat, p: nat, q: nat, pq: nat)
    requires p > 0 && q > 0 && pq == p * q && pq > 0
    ensures x / pq == x / p / q
  {
    DivNonNegative(x, p);
    var a: nat, c: nat := x / p, x % p;
    DivNonNegative(a, q);
    var b: nat, d: nat := a / q, a % q;
    RegroupProduct(p, q, b, d, c);
    DigitsBounded(p, q, d, c);
    SameSum(x, p, a, c, q * b + d);
    DivModIs(x, pq, b, p * d + c);
  }

  lemma SameSum(x: nat, p: nat, a: nat, c: nat, a': nat)
    requires p > 0 && a == x / p && c == x % p && a' == a
    ensures x == p * a' + c
  {
  }

  lemma {:induction false} ShrIsQuotient(x: nat, k: nat)
    ensures Shr(x, k) == x / Pow2(k)
    decreases k
  {
    if k == 0 {
      DivModIs(x, 1, x, 0);
    } else {
      ShrIsQuotient(x / 2, k - 1);
      DivideTwice(x, 2, Pow2(k - 1), Pow2(k));
    }
  }

  lemma ModMultiple(n: nat, y: int, z: nat)
    requires n > 0
    ensures (n * y + z) % n == z % n
  {
    var q, r := z / n, z % n;
    assert z == n * q + r;
    assert n * (y + q) == n * y + n * q;
    DivModIs(n * y + z, n, y + q, r);
  }

  /** The remainder by g * n in digits: the quotient by g, modulo n, and the remainder by g. */
  lemma ModDigits(a: nat, g: nat, n: nat, p: nat)
    requires g > 0 && n > 0 && p == g * n && p > 0
    ensures a / g >= 0 && a % p == g * (a / g % n) + a % g
  {
    DivNonNegative(a, g);
    var x: nat, o: nat := a / g, a % g;
    DivNonNegative(x, n);
    var y: nat, z: nat := x / n, x % n;
    RegroupProduct(g, n, y, z, o);
    DigitsBounded(g, n, z, o);
    SameSum(a, g, x, o, n * y + z);
    DivModIs(a, p, y, g * z + o);
  }

  /** Digits are unique. */
  lemma SameDigits(g: nat, z: nat, o: nat, m: nat, o': nat)
    requires o < g && o' < g
    ensures g * z + o == g * m + o' <==> z == m && o == o'
  {
    DivModIs(g * z + o, g, z, o);
    DivModIs(g * m + o', g, m, o');
  }

  /** The number in [lo, lo + p) with remainder r. */
  function Pick(lo: nat, p: nat, r: nat): nat
    requires p > 0
  {
    lo + (r - lo) % p
  }

  lemma PickIs(lo: nat, p: nat, r: nat)
    requires r < p
    ensures lo <= Pick(lo, p, r) < lo + p && Pick(lo, p, r) % p == r
  {
    var q, k := (r - lo) / p, (r - lo) % p;
    assert r - lo == p * q + k;
    assert p * (-q) == -(p * q);
    DivModIs(lo + k, p, -q, r);
  }

  lemma PickUnique(lo: nat, p: nat, a: nat, b: nat)
    requires p > 0 && lo <= a < lo + p && lo <= b < lo + p && a % p == b % p
    ensures a == b
  {
    var d := a / p - b / p;
    assert a == p * (a / p) + a % p && b == p * (b / p) + b % p;
    assert p * d == p * (a / p) - p * (b / p);
    MulSign(p, d);
  }
}
