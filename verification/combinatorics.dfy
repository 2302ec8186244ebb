/** Elementary combinatorics shared by the set primitives and the coordinator. */
module Combinatorics {

  function Pow2(n: nat): (r: nat)
    ensures r >= 1
  {
    if n == 0 then 1 else 2 * Pow2(n - 1)
  }

  lemma {:induction false} Pow2Monotone(a: nat, b: nat)
    requires a <= b
    ensures Pow2(a) <= Pow2(b)
    decreases b - a
  {
    if a < b {
      Pow2Monotone(a, b - 1);
    }
  }

  lemma {:induction false} Pow2Strict(a: nat, b: nat)
    requires a < b
    ensures Pow2(a) < Pow2(b)
  {
    Pow2Monotone(a, b - 1);
  }

  function Fact(n: nat): (r: nat)
    ensures r >= 1
  {
    if n == 0 then 1 else n * Fact(n - 1)
  }

  /** The binomial coefficient by Pascal's rule: an independent reference for the loop-based versions. */
  function Binom(n: nat, k: nat): nat
  {
    if k == 0 then 1
    else if n == 0 then 0
    else Binom(n - 1, k - 1) + Binom(n - 1, k)
  }

  /** The product (lo + 1) * (lo + 2) * ... * hi. */
  function Prod(lo: nat, hi: nat): (r: nat)
    requires lo <= hi
    ensures r >= 1
    decreases hi - lo
  {
    if lo == hi then 1 else hi * Prod(lo, hi - 1)
  }

  lemma {:induction false} ProdFact(lo: nat, hi: nat)
    requires lo <= hi
    ensures Fact(hi) == Fact(lo) * Prod(lo, hi)
    decreases hi - lo
  {
    if lo < hi {
      ProdFact(lo, hi - 1);
      var f, p := Fact(lo), Prod(lo, hi - 1);
      assert Fact(hi) == hi * (f * p);
      assert Prod(lo, hi) == hi * p;
      Swap(hi, f, p);
    }
  }

  lemma {:induction false} BinomAbove(n: nat, k: nat)
    requires n < k
    ensures Binom(n, k) == 0
  {
    if n > 0 {
      BinomAbove(n - 1, k - 1);
      BinomAbove(n - 1, k);
    }
  }

  /** Pascal's binomial satisfies C(n, k) * k! * (n - k)! == n!. */
  lemma {:induction false} BinomFactorial(n: nat, k: nat)
    requires k <= n
    ensures Binom(n, k) * Fact(k) * Fact(n - k) == Fact(n)
  {
    if k == 0 {
    } else if k == n {
      BinomFactorial(n - 1, k - 1);
      BinomAbove(n - 1, k);
      assert Binom(n, k) == Binom(n - 1, k - 1);
      assert Fact(n - k) == 1;
      EdgeStep(Binom(n - 1, k - 1), k, Fact(k - 1), Fact(n - 1));
    } else {
      BinomFactorial(n - 1, k - 1);
      BinomFactorial(n - 1, k);
      assert n - 1 - (k - 1) == n - k;
      PascalStep(Binom(n - 1, k - 1), Binom(n - 1, k), k, n, Fact(k - 1), Fact(n - 1 - k), Fact(n - 1));
    }
  }

  lemma EdgeStep(x: int, k: int, a: int, f: int)
    requires x * a * 1 == f
    ensures x * (k * a) * 1 == k * f
  {
    assert x * (k * a) == k * (x * a);
  }

  lemma PascalStep(x: int, y: int, k: int, n: int, a: int, b: int, f: int)
    requires x * a * ((n - k) * b) == f
    requires y * (k * a) * b == f
    ensures (x + y) * (k * a) * ((n - k) * b) == n * f
  {
    var u := x * (k * a) * ((n - k) * b);
    var v := y * (k * a) * ((n - k) * b);
    assert (x + y) * (k * a) * ((n - k) * b) == u + v;
    assert u == k * (x * a * ((n - k) * b));
    assert v == (n - k) * (y * (k * a) * b);
  }

  lemma Cancel(a: int, b: int, c: int)
    requires a > 0 && a * b == a * c
    ensures b == c
  {
  }

  /** The falling product i!/j! divided by (i - j)! is the binomial coefficient. */
  lemma BinomFromProd(i: nat, j: nat)
    requires j <= i
    ensures Prod(j, i) == Binom(i, j) * Fact(i - j)
  {
    ProdFact(j, i);
    BinomFactorial(i, j);
    CancelFactor(Prod(j, i), Binom(i, j), Fact(j), Fact(i - j), Fact(i));
  }

  lemma CancelFactor(p: int, c: int, fj: int, fij: int, fi: int)
    requires fj > 0
    requires fi == fj * p
    requires c * fj * fij == fi
    ensures p == c * fij
  {
    assert fj * p == fj * (c * fij);
    Cancel(fj, p, c * fij);
  }

  /** Extending the product downward by one factor: lo * ((lo+1) * ... * hi). */
  lemma {:induction false} ProdLow(lo: nat, hi: nat)
    requires 1 <= lo <= hi
    ensures Prod(lo - 1, hi) == lo * Prod(lo, hi)
    decreases hi - lo
  {
    if lo < hi {
      ProdLow(lo, hi - 1);
      var p := Prod(lo, hi - 1);
      assert Prod(lo - 1, hi) == hi * (lo * p);
      assert Prod(lo, hi) == hi * p;
      Swap(hi, lo, p);
    }
  }

  lemma MulAtLeast(t: int, d: int)
    requires t > 0 && d >= 1
    ensures t * d >= t
  {
  }

  /** Dividing a multiple of t by t is exact. */
  lemma DivCancel(t: int, x: int)
    requires t > 0
    ensures (t * x) / t == x
    ensures (t * x) % t == 0
  {
    var q, r := (t * x) / t, (t * x) % t;
    assert t * q + r == t * x;
    assert t * (x - q) == r;
    if x - q >= 1 {
      MulAtLeast(t, x - q);
    } else if x - q <= -1 {
      MulAtLeast(t, q - x);
    }
  }

  lemma Swap(a: int, b: int, c: int)
    ensures a * (b * c) == b * (a * c)
  {
  }
}
