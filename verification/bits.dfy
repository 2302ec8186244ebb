/**
 * Bitwise arithmetic on the non-negative integers that hold a bit pattern.
 * Bit x - 1 of a pattern stands for the element x (so element 1 is the lowest bit);
 * `Or`, `And` and `AndNot` are Java's `|`, `&` and `& ~` restricted to non-negative values.
 */
module Bits {
  import opened Combinatorics

  /** Element x is present in the pattern n: bit x - 1 of n is set. */
  predicate Has(n: nat, x: int)
    decreases if x < 1 then 0 else x
  {
    if x < 1 then false
    else if x == 1 then n % 2 == 1
    else Has(n / 2, x - 1)
  }

  function Or(a: nat, b: nat): nat
    decreases a + b
  {
    if a == 0 then b
    else if b == 0 then a
    else 2 * Or(a / 2, b / 2) + (if a % 2 == 1 || b % 2 == 1 then 1 else 0)
  }

  function And(a: nat, b: nat): nat
    decreases a + b
  {
    if a == 0 || b == 0 then 0
    else 2 * And(a / 2, b / 2) + (if a % 2 == 1 && b % 2 == 1 then 1 else 0)
  }

  /** `a & ~b`: the bits of a that are not bits of b. */
  function AndNot(a: nat, b: nat): nat
    decreases a + b
  {
    if a == 0 then 0
    else if b == 0 then a
    else 2 * AndNot(a / 2, b / 2) + (if a % 2 == 1 && b % 2 == 0 then 1 else 0)
  }

  /** The number of set bits (`Long.bitCount`). */
  function PopCount(n: nat): nat
  {
    if n == 0 then 0 else n % 2 + PopCount(n / 2)
  }

  lemma HasShift(n: nat, x: int)
    requires x >= 1
    ensures Has(n, x + 1) == Has(n / 2, x)
  {
  }

  lemma {:induction false} HasOr(a: nat, b: nat, x: int)
    ensures Has(Or(a, b), x) <==> Has(a, x) || Has(b, x)
    decreases a + b
  {
    if x > 1 {
      if a == 0 || b == 0 {
        ZeroHasNothing(x);
      } else {
        HasOr(a / 2, b / 2, x - 1);
      }
    }
  }

  lemma {:induction false} HasAnd(a: nat, b: nat, x: int)
    ensures Has(And(a, b), x) <==> Has(a, x) && Has(b, x)
    decreases a + b
  {
    if x > 1 {
      if a == 0 || b == 0 {
        ZeroHasNothing(x);
      } else {
        HasAnd(a / 2, b / 2, x - 1);
      }
    }
  }

  lemma {:induction false} HasAndNot(a: nat, b: nat, x: int)
    ensures Has(AndNot(a, b), x) <==> Has(a, x) && !Has(b, x)
    decreases a + b
  {
    if x > 1 {
      if a == 0 {
        ZeroHasNothing(x);
      } else if b == 0 {
        ZeroHasNothing(x);
      } else {
        HasAndNot(a / 2, b / 2, x - 1);
      }
    }
  }

  lemma {:induction false} ZeroHasNothing(x: int)
    ensures !Has(0, x)
    decreases if x < 1 then 0 else x
  {
    if x > 1 {
      ZeroHasNothing(x - 1);
    }
  }

  /** The pattern with the single element k + 1: Java's `1L << k`. */
  lemma {:induction false} HasPow2(k: nat, x: int)
    ensures Has(Pow2(k), x) <==> x == k + 1
  {
    if k == 0 {
      if x > 1 {
        ZeroHasNothing(x - 1);
      }
    } else if x > 1 {
      HasPow2(k - 1, x - 1);
    }
  }

  /** Two patterns with the same elements are the same number. */
  lemma {:induction false} Ext(a: nat, b: nat)
    requires forall x :: 1 <= x ==> (Has(a, x) <==> Has(b, x))
    ensures a == b
    decreases a + b
  {
    if a != 0 || b != 0 {
      assert Has(a, 1) <==> Has(b, 1);
      forall x | 1 <= x
        ensures Has(a / 2, x) <==> Has(b / 2, x)
      {
        assert Has(a, x + 1) <==> Has(b, x + 1);
      }
      Ext(a / 2, b / 2);
    }
  }

  /** No element of the pattern n exceeds k. */
  ghost predicate NoneAbove(n: nat, k: int)
  {
    forall x :: k < x ==> !Has(n, x)
  }

  /** A pattern is below 2^k exactly when it has no element above k. */
  lemma BoundHas(n: nat, k: nat)
    ensures n < Pow2(k) <==> NoneAbove(n, k)
  {
    if NoneAbove(n, k) {
      NoHighIsBelow(n, k);
    }
    if n < Pow2(k) {
      BelowHasNoHigh(n, k);
    }
  }

  lemma {:induction false} BelowHasNoHigh(n: nat, k: nat)
    requires n < Pow2(k)
    ensures NoneAbove(n, k)
  {
    if k == 0 {
      assert n == 0;
      forall x | 0 < x
        ensures !Has(n, x)
      {
        ZeroHasNothing(x);
      }
    } else {
      BelowHasNoHigh(n / 2, k - 1);
      forall x | k < x
        ensures !Has(n, x)
      {
        HasShift(n, x - 1);
      }
    }
  }

  lemma {:induction false} NoHighIsBelow(n: nat, k: nat)
    requires NoneAbove(n, k)
    ensures n < Pow2(k)
  {
    if k == 0 {
      forall x | 1 <= x
        ensures Has(n, x) <==> Has(0, x)
      {
        ZeroHasNothing(x);
      }
      Ext(n, 0);
    } else {
      forall y | k - 1 < y
        ensures !Has(n / 2, y)
      {
        HasShift(n, y);
      }
      NoHighIsBelow(n / 2, k - 1);
    }
  }

  /** The least element of a non-empty pattern. */
  function LowestElement(n: nat): (x: int)
    requires n > 0
    ensures x >= 1 && Has(n, x)
    ensures forall y :: 1 <= y < x ==> !Has(n, y)
  {
    if n % 2 == 1 then 1
    else
      var y := LowestElement(n / 2);
      assert Has(n, y + 1);
      assert forall z :: 2 <= z < y + 1 ==> Has(n, z) == Has(n / 2, z - 1);
      y + 1
  }

  /** Every element of the pattern b is an element of the pattern a. */
  ghost predicate SubPattern(b: nat, a: nat)
  {
    forall y :: Has(b, y) ==> Has(a, y)
  }

  /** Or-ing in b changes nothing exactly when every element of b is already in a. */
  lemma OrAbsorbs(a: nat, b: nat)
    ensures Or(a, b) == a <==> SubPattern(b, a)
  {
    if SubPattern(b, a) {
      forall y | 1 <= y
        ensures Has(Or(a, b), y) <==> Has(a, y)
      {
        HasOr(a, b, y);
      }
      Ext(Or(a, b), a);
    } else {
      var y :| Has(b, y) && !Has(a, y);
      HasOr(a, b, y);
      assert Has(Or(a, b), y);
    }
  }

  /** The pattern n has no element at all. */
  ghost predicate NoElements(n: nat)
  {
    forall y :: !Has(n, y)
  }

  /** Only the zero pattern has no elements. */
  lemma ZeroIffNoElements(n: nat)
    ensures n == 0 <==> NoElements(n)
  {
    if n == 0 {
      forall y
        ensures !Has(n, y)
      {
        ZeroHasNothing(y);
      }
    } else {
      var y := LowestElement(n);
      assert Has(n, y);
    }
  }

  /** The positions of the set bits of n, numbering the lowest bit e. */
  function Positions(n: nat, e: int): set<int>
  {
    if n == 0 then {} else (if n % 2 == 1 then {e} else {}) + Positions(n / 2, e + 1)
  }

  lemma {:induction false} PositionsHas(n: nat, e: int, x: int)
    ensures x in Positions(n, e) <==> e <= x && Has(n, x - e + 1)
  {
    if n == 0 {
      ZeroHasNothing(x - e + 1);
    } else {
      PositionsHas(n / 2, e + 1, x);
      if x > e {
        HasShift(n, x - e);
      }
    }
  }

  lemma {:induction false} PositionsCount(n: nat, e: int)
    ensures |Positions(n, e)| == PopCount(n)
  {
    if n != 0 {
      PositionsCount(n / 2, e + 1);
      PositionsHas(n / 2, e + 1, e);
    }
  }

  /** The pattern 2^k - 1 holds exactly the elements 1..k. */
  lemma {:induction false} HasLowMask(k: nat, x: int)
    ensures Has(Pow2(k) - 1, x) <==> 1 <= x <= k
  {
    if k == 0 {
      ZeroHasNothing(x);
    } else if x > 1 {
      HasLowMask(k - 1, x - 1);
      assert (Pow2(k) - 1) / 2 == Pow2(k - 1) - 1;
    }
  }

  /** Numeric order extends inclusion: a sub-pattern is never the larger number. */
  lemma {:induction false} SubPatternLe(a: nat, b: nat)
    requires SubPattern(a, b)
    ensures a <= b
    decreases a + b
  {
    if b == 0 {
      forall y
        ensures !Has(a, y)
      {
        ZeroHasNothing(y);
      }
      ZeroIffNoElements(a);
    } else if a != 0 {
      assert Has(a, 1) ==> Has(b, 1);
      forall y | Has(a / 2, y)
        ensures Has(b / 2, y)
      {
        if y >= 1 {
          HasShift(a, y);
          HasShift(b, y);
        }
      }
      SubPatternLe(a / 2, b / 2);
    }
  }
}
