/**
 * The immutable hash-set of integers that the bit-packed sets are built from.
 * A value is a plain finite set of integers; every operation returns a fresh set and
 * leaves its argument untouched, as the Java copies do.
 */
module BasicSet {
  import opened Combinatorics

  function EmptySet(): (r: set<int>)
    ensures forall x :: x !in r
  {
    {}
  }

  /** `add(x)`: a copy holding x and every old element, and nothing else. */
  function Add(s: set<int>, x: int): (r: set<int>)
    ensures x in r
    ensures forall y :: y in s ==> y in r
    ensures forall y :: y in r ==> y == x || y in s
  {
    s + {x}
  }

  /** `remove(f)`: a copy without f, every other element preserved. */
  function Remove(s: set<int>, f: int): (r: set<int>)
    ensures f !in r
    ensures forall y :: y != f ==> (y in r <==> y in s)
  {
    s - {f}
  }

  function Contains(s: set<int>, f: int): (r: bool)
    ensures r <==> f in s
  {
    f in s
  }

  /** Java's `/` on non-negative divisors truncates toward zero. */
  function JavaDiv(a: int, b: int): (r: int)
    requires b > 0
    ensures a >= 0 ==> r == a / b
  {
    if a >= 0 then a / b else -((-a) / b)
  }

  /**
   * `combinations(i, j)`: multiply i * (i-1) * ... * (j+1), then divide by
   * (i-j), (i-j-1), ..., 2. For 0 <= j <= i this is C(i, j) and every division is exact;
   * for i < j neither loop runs and the result is 1. For j < 0 <= i the
   * product passes through 0, so the result is 0.
   */
  method Combinations(i: int, j: int) returns (res: int)
    ensures 0 <= j <= i ==> res == Binom(i, j)
    ensures i < j ==> res == 1
    ensures j < 0 <= i ==> res == 0
  {
    res := 1;
    var k, t := i, i - j;
    while k > j
      invariant j <= i ==> j <= k <= i
      invariant 0 <= j <= i ==> res == Prod(k, i)
      invariant i < j ==> k == i && res == 1
      invariant j < 0 <= i && k < 0 ==> res == 0
    {
      if 0 <= j <= i {
        ProdLow(k, i);
      }
      res := res * k;
      k := k - 1;
    }
    if 0 <= j <= i {
      BinomFromProd(i, j);
    }
    while t > 1
      invariant 0 <= j <= i ==> 0 <= t <= i - j && res == Binom(i, j) * Fact(t)
      invariant i < j ==> res == 1
      invariant j < 0 <= i ==> res == 0
    {
      if 0 <= j <= i {
        ghost var rest := Binom(i, j) * Fact(t - 1);
        assert Fact(t) == t * Fact(t - 1);
        Swap(Binom(i, j), t, Fact(t - 1));
        DivCancel(t, rest);
      }
      res := JavaDiv(res, t);
      t := t - 1;
    }
  }
}
