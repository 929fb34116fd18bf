/** Quotients and remainders. */
module Arithmetic {

  lemma AtLeastOnce(d: nat, more: int, less: int)
    requires more > less
    ensures d * more >= d * less + d
  {
    assert d * more - d * less - d == d * (more - less - 1);
    assert d * (more - less - 1) >= 0;
  }

  lemma QuotientUnique(d: nat, q: int, r: int, q': int, r': int)
    requires 0 <= r < d && 0 <= r' < d && d * q + r == d * q' + r'
    ensures q == q' && r == r'
  {
    if q > q' {
      AtLeastOnce(d, q, q');
    } else if q < q' {
      AtLeastOnce(d, q', q);
    }
  }

  lemma DivModUnique(a: int, d: nat, q: int, r: int)
    requires d > 0 && 0 <= r < d && a == d * q + r
    ensures a / d == q && a % d == r
  {
    QuotientUnique(d, q, r, a / d, a % d);
  }

  function Pow2(n: nat): (p: nat)
    ensures p > 0
  {
    if n == 0 then 1 else 2 * Pow2(n - 1)
  }
}

/** Sums over sequences. */
module Sums {
  import opened Sequences

  function SumBy<T>(s: seq<T>, f: T -> nat): nat {
    if s == [] then 0 else SumBy(s[..|s| - 1], f) + f(s[|s| - 1])
  }

  lemma {:induction false} SumWithout<T>(s: seq<T>, f: T -> nat, k: nat)
    requires k < |s|
    ensures SumBy(s, f) == f(s[k]) + SumBy(Without(s, k), f)
  {
    var n := |s| - 1;
    var rest := Without(s, k);
    if k == n {
      assert rest == s[..n];
    } else {
      SumWithout(s[..n], f, k);
      assert rest[..n - 1] == Without(s[..n], k);
      assert rest[n - 1] == s[n];
    }
  }

  /** A sum does not depend on the order of its terms. */
  lemma {:induction false} SumForgetsOrder<T>(a: seq<T>, b: seq<T>, f: T -> nat)
    requires multiset(a) == multiset(b)
    ensures SumBy(a, f) == SumBy(b, f)
    decreases |a|
  {
    if a == [] {
      assert |b| == |multiset(b)| == 0;
    } else {
      var n := |a| - 1;
      assert a[n] in multiset(b);
      var k :| 0 <= k < |b| && b[k] == a[n];
      MultisetInit(a);
      MultisetWithout(b, k);
      SumWithout(b, f, k);
      SumForgetsOrder(a[..n], Without(b, k), f);
    }
  }
}
