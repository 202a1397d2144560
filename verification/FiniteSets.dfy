/**
 * Sizes of finite sets.
 */
module FiniteSets {

  ghost function Image<S, T>(A: set<S>, f: map<S, T>): set<T>
    requires A <= f.Keys
  {
    set x | x in A :: f[x]
  }

  /** The images of A under an injective map are as many as A. */
  lemma {:induction false} ImageSize<S, T>(A: set<S>, f: map<S, T>)
    requires A <= f.Keys && forall x, y :: x in A && y in A && f[x] == f[y] ==> x == y
    ensures |Image(A, f)| == |A|
  {
    if A != {} {
      var a :| a in A;
      ImageSize(A - {a}, f);
      assert Image(A, f) == Image(A - {a}, f) + {f[a]};
    }
  }

  lemma {:induction false} SubsetSize<T>(A: set<T>, B: set<T>)
    requires A <= B
    ensures |A| <= |B|
  {
    assert B == A + (B - A);
  }

  lemma AddTwice<T>(A: set<T>, x: T)
    ensures A + {x} == A + {x} + {x}
  {
  }

  /** The numbers below n. */
  ghost function Below(n: nat): (r: set<nat>)
    ensures |r| == n && forall x: nat :: x in r <==> x < n
  {
    if n == 0 then {} else Below(n - 1) + {n - 1}
  }

  /** A set whose elements are numbered from 0 to n - 1 has n elements. */
  lemma NumberedSize<T>(A: set<T>, n: nat, f: map<nat, T>, number: map<T, nat>)
    requires Below(n) <= f.Keys && A <= number.Keys
    requires forall x :: x in Below(n) ==> f[x] in A && number[f[x]] == x
    requires forall a :: a in A ==> number[a] in Below(n) && f[number[a]] == a
    ensures |A| == n
  {
    forall a | a in A ensures a in Image(Below(n), f) { assert number[a] in Below(n); }
    assert A == Image(Below(n), f);
    ImageSize(Below(n), f);
  }
}
