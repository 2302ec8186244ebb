/**
 * The bit-packed set over the elements 1..12 (`MAXELEMENT`). A value wraps the bit pattern
 * `theSet`; element x is bit x - 1. `Elems` is the abstraction every contract is stated in.
 */
module SmallBasicSet {
  import opened Combinatorics
  import opened Bits
  import opened Wrappers
  import BasicSet

  const MaxElement: nat := 12

  /** 2^MaxElement: the number of patterns, and the length of the static tables. */
  const TableSize: nat := 4096

  type Pattern = n: nat | n < 4096

  datatype SmallSet = SmallSet(theSet: Pattern)

  predicate InRange(x: int)
  {
    1 <= x <= MaxElement
  }

  function Elems(s: SmallSet): set<int>
  {
    set x | 1 <= x <= MaxElement && Has(s.theSet, x)
  }

  /** The set {1, ..., k}. */
  function UpTo(k: int): (r: set<int>)
    ensures forall x :: x in r <==> 1 <= x <= k
    decreases if k < 0 then 0 else k
  {
    if k < 1 then {} else UpTo(k - 1) + {k}
  }

  lemma Pow2Max()
    ensures Pow2(MaxElement) == TableSize
  {
    assert Pow2(12) == 4096;
  }

  /** A pattern with no element above 12 fits the 12-bit universe. */
  lemma Fits(n: nat)
    requires NoneAbove(n, MaxElement)
    ensures n < TableSize
  {
    BoundHas(n, MaxElement);
    Pow2Max();
  }

  lemma NothingAbove(s: SmallSet)
    ensures NoneAbove(s.theSet, MaxElement)
  {
    BoundHas(s.theSet, MaxElement);
    Pow2Max();
  }

  /** Two sets with the same elements are the same set. */
  lemma ElemsInjective(a: SmallSet, b: SmallSet)
    requires Elems(a) == Elems(b)
    ensures a == b
  {
    NothingAbove(a);
    NothingAbove(b);
    forall x | 1 <= x
      ensures Has(a.theSet, x) <==> Has(b.theSet, x)
    {
      if x <= MaxElement {
        assert Has(a.theSet, x) <==> x in Elems(a);
      }
    }
    Ext(a.theSet, b.theSet);
  }

  /** `getBit(x)`: the pattern of the single element x. */
  function Bit(x: int): (r: Pattern)
    requires InRange(x)
    ensures forall y :: Has(r, y) <==> y == x
  {
    var k := x - 1;
    Pow2Max();
    Pow2Monotone(k, MaxElement);
    forall y
      ensures Has(Pow2(k), y) <==> y == x
    {
      HasPow2(k, y);
    }
    Pow2(k)
  }

  function Empty(): (r: SmallSet)
    ensures Elems(r) == {}
  {
    forall x
      ensures !Has(0, x)
    {
      ZeroHasNothing(x);
    }
    SmallSet(0)
  }

  function Union(a: SmallSet, b: SmallSet): (r: SmallSet)
    ensures Elems(r) == Elems(a) + Elems(b)
  {
    var n := Or(a.theSet, b.theSet);
    NothingAbove(a);
    NothingAbove(b);
    forall x
      ensures Has(n, x) <==> Has(a.theSet, x) || Has(b.theSet, x)
    {
      HasOr(a.theSet, b.theSet, x);
    }
    Fits(n);
    SmallSet(n)
  }

  function Intersection(a: SmallSet, b: SmallSet): (r: SmallSet)
    ensures Elems(r) == Elems(a) * Elems(b)
  {
    var n := And(a.theSet, b.theSet);
    NothingAbove(a);
    forall x
      ensures Has(n, x) <==> Has(a.theSet, x) && Has(b.theSet, x)
    {
      HasAnd(a.theSet, b.theSet, x);
    }
    Fits(n);
    SmallSet(n)
  }

  /** `minus(basicSet)`: `theSet & ~basicSet.theSet`. */
  function Minus(a: SmallSet, b: SmallSet): (r: SmallSet)
    ensures Elems(r) == Elems(a) - Elems(b)
  {
    var n := AndNot(a.theSet, b.theSet);
    NothingAbove(a);
    forall x
      ensures Has(n, x) <==> Has(a.theSet, x) && !Has(b.theSet, x)
    {
      HasAndNot(a.theSet, b.theSet, x);
    }
    Fits(n);
    SmallSet(n)
  }

  /** `minus(Integer x)` and `remove(int f)`: the same pattern with bit f - 1 cleared. */
  function Remove(a: SmallSet, f: int): (r: SmallSet)
    requires InRange(f)
    ensures f !in Elems(r)
    ensures forall y :: y != f ==> (y in Elems(r) <==> y in Elems(a))
  {
    var n := AndNot(a.theSet, Bit(f));
    NothingAbove(a);
    forall x
      ensures Has(n, x) <==> Has(a.theSet, x) && x != f
    {
      HasAndNot(a.theSet, Bit(f), x);
    }
    Fits(n);
    SmallSet(n)
  }

  function Add(a: SmallSet, x: int): (r: SmallSet)
    requires InRange(x)
    ensures x in Elems(r)
    ensures forall y :: y != x ==> (y in Elems(r) <==> y in Elems(a))
  {
    var n := Or(a.theSet, Bit(x));
    NothingAbove(a);
    forall y
      ensures Has(n, y) <==> Has(a.theSet, y) || y == x
    {
      HasOr(a.theSet, Bit(x), y);
    }
    Fits(n);
    SmallSet(n)
  }

  /** `add(int[] x)`: every listed element joins the set; an entry outside 1..12 throws. */
  function AddAll(a: SmallSet, xs: seq<int>): (r: Result<SmallSet, string>)
    ensures r.Failure? <==> exists i :: 0 <= i < |xs| && !InRange(xs[i])
    ensures r.Failure? ==> r.error == OutOfBounds
    ensures r.Success? ==> Elems(r.value) == Elems(a) + (set i | 0 <= i < |xs| :: xs[i])
  {
    if xs == [] then Success(a)
    else
      var front, last := xs[..|xs| - 1], xs[|xs| - 1];
      assert forall i :: 0 <= i < |front| ==> front[i] == xs[i];
      var done := AddAll(a, front);
      if done.Failure? then done
      else if !InRange(last) then Failure(OutOfBounds)
      else Success(Add(done.value, last))
  }

  /** The array constructor `SmallBasicSet(int[] is)`. */
  function FromSeq(xs: seq<int>): (r: Result<SmallSet, string>)
    ensures r.Failure? <==> exists i :: 0 <= i < |xs| && !InRange(xs[i])
    ensures r.Failure? ==> r.error == OutOfBounds
    ensures r.Success? ==> Elems(r.value) == set i | 0 <= i < |xs| :: xs[i]
  {
    AddAll(Empty(), xs)
  }

  /** `contains(f)`: adding bit f - 1 leaves the pattern unchanged. */
  function Contains(a: SmallSet, f: int): (r: bool)
    requires InRange(f)
    ensures r <==> f in Elems(a)
  {
    OrAbsorbs(a.theSet, Bit(f));
    assert SubPattern(Bit(f), a.theSet) <==> Has(a.theSet, f) by {
      assert Has(Bit(f), f);
    }
    Or(a.theSet, Bit(f)) == a.theSet
  }

  /** What `bits[i - 1]` throws for an i outside 1..12. */
  const OutOfBounds: string := "ArrayIndexOutOfBoundsException"

  /** `getBit(x)` as the source runs it: the one-bit pattern of x, or a throw outside 1..12. */
  function GetBit(x: int): (r: Result<Pattern, string>)
    ensures r.Failure? <==> !InRange(x)
    ensures r.Failure? ==> r.error == OutOfBounds
    ensures r.Success? ==> forall y :: Has(r.value, y) <==> y == x
  {
    if InRange(x) then Success(Bit(x)) else Failure(OutOfBounds)
  }

  /** `add(int x)` for any int: x joins the set, or `getBit` throws. */
  function TryAdd(a: SmallSet, x: int): (r: Result<SmallSet, string>)
    ensures r.Failure? <==> !InRange(x)
    ensures r.Failure? ==> r.error == OutOfBounds
    ensures r.Success? ==> Elems(r.value) == Elems(a) + {x}
  {
    if InRange(x) then Success(Add(a, x)) else Failure(OutOfBounds)
  }

  /** `remove(int f)` for any int: f leaves the set, or `getBit` throws. */
  function TryRemove(a: SmallSet, f: int): (r: Result<SmallSet, string>)
    ensures r.Failure? <==> !InRange(f)
    ensures r.Failure? ==> r.error == OutOfBounds
    ensures r.Success? ==> Elems(r.value) == Elems(a) - {f}
  {
    if InRange(f) then Success(Remove(a, f)) else Failure(OutOfBounds)
  }

  /** `contains(int f)` for any int: membership, or `getBit` throws. */
  function TryContains(a: SmallSet, f: int): (r: Result<bool, string>)
    ensures r.Failure? <==> !InRange(f)
    ensures r.Failure? ==> r.error == OutOfBounds
    ensures r.Success? ==> (r.value <==> f in Elems(a))
  {
    if InRange(f) then Success(Contains(a, f)) else Failure(OutOfBounds)
  }

  /** `hasAsSubset(b)`: adding the bits of b leaves the pattern unchanged. */
  function HasAsSubset(a: SmallSet, b: SmallSet): (r: bool)
    ensures r <==> Elems(b) <= Elems(a)
  {
    OrAbsorbs(a.theSet, b.theSet);
    NothingAbove(b);
    assert SubPattern(b.theSet, a.theSet) <==> Elems(b) <= Elems(a) by {
      if Elems(b) <= Elems(a) {
        forall y | Has(b.theSet, y)
          ensures Has(a.theSet, y)
        {
          assert y in Elems(b);
        }
      }
    }
    Or(a.theSet, b.theSet) == a.theSet
  }

  function IsEmpty(a: SmallSet): (r: bool)
    ensures r <==> Elems(a) == {}
  {
    ZeroIffNoElements(a.theSet);
    NothingAbove(a);
    assert NoElements(a.theSet) <==> Elems(a) == {} by {
      if Elems(a) == {} {
        forall y
          ensures !Has(a.theSet, y)
        {
          assert y !in Elems(a);
        }
      } else {
        var y :| y in Elems(a);
        assert Has(a.theSet, y);
      }
    }
    a.theSet == 0
  }

  function Equals(a: SmallSet, b: SmallSet): (r: bool)
    ensures r <==> Elems(a) == Elems(b)
  {
    assert Elems(a) == Elems(b) ==> a == b by {
      if Elems(a) == Elems(b) {
        ElemsInjective(a, b);
      }
    }
    a.theSet == b.theSet
  }

  /** `getSet(theSet)`: the table entry for a pattern lists exactly the set's elements. */
  lemma PositionsAreElems(s: SmallSet)
    ensures Positions(s.theSet, 1) == Elems(s)
  {
    NothingAbove(s);
    forall x
      ensures x in Positions(s.theSet, 1) <==> x in Elems(s)
    {
      PositionsHas(s.theSet, 1, x);
    }
  }

  /** `size()`: `Long.bitCount(theSet)` is the number of elements. */
  function Size(s: SmallSet): (r: nat)
    ensures r == |Elems(s)|
  {
    PositionsCount(s.theSet, 1);
    PositionsAreElems(s);
    PopCount(s.theSet)
  }

  /** `numberOFSubsets()`: `1L << size()`. */
  function NumberOfSubsets(s: SmallSet): (r: nat)
    ensures r == Pow2(|Elems(s)|)
  {
    Pow2(Size(s))
  }

  /** `combinations(i, j)`: 0 below the diagonal and for a negative j, the binomial coefficient between. */
  method Combinations(i: int, j: int) returns (res: int)
    ensures i < j ==> res == 0
    ensures 0 <= j <= i ==> res == Binom(i, j)
    ensures j < 0 <= i ==> res == 0
  {
    if i < j {
      return 0;
    }
    res := BasicSet.Combinations(i, j);
  }

  /** The pattern 2^k - 1: the set {1, ..., k}. */
  function LowSet(k: nat): (r: SmallSet)
    requires k <= MaxElement
    ensures Elems(r) == UpTo(k)
  {
    Pow2Monotone(k, MaxElement);
    Pow2Max();
    var m := Pow2(k) - 1;
    forall x
      ensures Has(m, x) <==> 1 <= x <= k
    {
      HasLowMask(k, x);
    }
    SmallSet(m)
  }

  /**
   * `universe(n)`: the `int` expression `(1 << n) - 1`. The shift distance is
   * n mod 32 and `(1 << 31) - 1` wraps to 2^31 - 1, so for every int n the
   * pattern is 2^(n mod 32) - 1, the set {1, ..., n mod 32}. Patterns with
   * bits above 12 are outside this model: those n give a Failure.
   */
  function Universe(n: int): (r: Result<SmallSet, string>)
    ensures r.Success? <==> n % 32 <= MaxElement
    ensures r.Success? ==> Elems(r.value) == UpTo(n % 32)
  {
    var k := n % 32;
    if k <= MaxElement then Success(LowSet(k)) else Failure(BeyondMaxElement)
  }

  /** The Failure for a pattern with an element above 12. */
  const BeyondMaxElement: string := "element above MAXELEMENT"

  /** The shift distance wraps: n and n + 32 give the same universe, and -20 gives {1..12}. */
  lemma UniverseWraps(n: int)
    ensures Universe(n + 32) == Universe(n)
    ensures Universe(-20).Success? && Elems(Universe(-20).value) == UpTo(MaxElement)
  {
    assert (n + 32) % 32 == n % 32;
    assert -20 % 32 == 12;
  }

  /** `compareTo(o)`: the numeric difference of the two patterns. */
  function CompareTo(a: SmallSet, b: SmallSet): (r: int)
    ensures r == 0 <==> Elems(a) == Elems(b)
  {
    assert Elems(a) == Elems(b) ==> a == b by {
      if Elems(a) == Elems(b) {
        ElemsInjective(a, b);
      }
    }
    a.theSet - b.theSet
  }

  /** The numeric order of `compareTo` extends strict inclusion. */
  lemma CompareToExtendsInclusion(a: SmallSet, b: SmallSet)
    requires Elems(a) < Elems(b)
    ensures CompareTo(a, b) < 0
  {
    NothingAbove(a);
    forall y | Has(a.theSet, y)
      ensures Has(b.theSet, y)
    {
      assert y in Elems(a);
    }
    SubPatternLe(a.theSet, b.theSet);
  }

  /** Binary increment on the element set of a counter, carrying from position e. */
  function IncreaseSet(aSet: set<int>, e: int): set<int>
    decreases |aSet|
  {
    if BasicSet.Contains(aSet, e) then
      var rest := BasicSet.Remove(aSet, e);
      assert rest == aSet - {e};
      IncreaseSet(rest, e + 1)
    else BasicSet.Add(aSet, e)
  }

  /** `increaseSet` is the successor function on counters written as sets of bit positions. */
  lemma {:induction false} IncreaseIsSuccessor(n: nat, e: int)
    ensures IncreaseSet(Positions(n, e), e) == Positions(n + 1, e)
    decreases n
  {
    var upper := Positions(n / 2, e + 1);
    PositionsHas(n / 2, e + 1, e);
    assert e !in upper;
    if n % 2 == 1 {
      assert Positions(n, e) - {e} == upper;
      IncreaseIsSuccessor(n / 2, e + 1);
      assert (n + 1) / 2 == n / 2 + 1;
    } else {
      assert Positions(n, e) == upper;
      assert (n + 1) / 2 == n / 2;
    }
  }

  /** A pattern of the form 2^k - 1: the set {1, ..., k}. */
  ghost predicate IsLowMask(i: int)
  {
    exists k :: 0 <= k <= MaxElement && i == Pow2(k) - 1
  }

  /**
   * The static initializer: `sets[i]` lists the elements of pattern i, obtained by
   * incrementing from the empty set, and `compactSets[i]` flags the patterns 2^k - 1.
   */
  method StaticTables() returns (sets: seq<set<int>>, compactSets: seq<bool>)
    ensures |sets| == TableSize && |compactSets| == TableSize
    ensures forall i :: 0 <= i < TableSize ==> sets[i] == Positions(i, 1)
    ensures forall i :: 0 <= i < TableSize ==> (compactSets[i] <==> IsLowMask(i))
  {
    var m2 := 1;
    ghost var k := 0;
    var aSet := BasicSet.EmptySet();
    sets, compactSets := [], [];
    var i := 0;
    while i < TableSize
      invariant 0 <= i <= TableSize
      invariant SetsAt(i, aSet, sets) && CompactAt(i, k, m2, compactSets)
      decreases TableSize - i
    {
      aSet, sets := SetsStep(i, aSet, sets);
      k, m2, compactSets := CompactStep(i, k, m2, compactSets);
      i := i + 1;
    }
  }

  /** The element lists of the first i patterns, and the counter standing at pattern i. */
  ghost predicate SetsAt(i: nat, aSet: set<int>, sets: seq<set<int>>)
  {
    && |sets| == i
    && aSet == Positions(i, 1)
    && forall j :: 0 <= j < i ==> sets[j] == Positions(j, 1)
  }

  /** The flags of the first i patterns, with m2 == 2^k the next mask boundary. */
  ghost predicate CompactAt(i: nat, k: nat, m2: int, compactSets: seq<bool>)
  {
    && |compactSets| == i
    && (forall j :: 0 <= j < i ==> (compactSets[j] <==> IsLowMask(j)))
    && k <= MaxElement + 1 && m2 == Pow2(k)
    && (i < TableSize ==> i <= m2 - 1)
    && (k == 0 || Pow2(k - 1) - 1 < i)
  }

  /** One pattern of the static initializer: record its elements and increment the counter. */
  method SetsStep(i: nat, aSet: set<int>, sets: seq<set<int>>) returns (aSet': set<int>, sets': seq<set<int>>)
    requires SetsAt(i, aSet, sets)
    ensures SetsAt(i + 1, aSet', sets')
  {
    sets' := sets + [aSet];
    assert forall j :: 0 <= j < i ==> sets'[j] == sets[j];
    IncreaseIsSuccessor(i, 1);
    aSet' := IncreaseSet(aSet, 1);
  }

  /** One pattern of the static initializer: flag it when it is 2^k - 1, and move to the next boundary. */
  method CompactStep(i: nat, ghost k: nat, m2: int, compactSets: seq<bool>)
    returns (ghost k': nat, m2': int, compactSets': seq<bool>)
    requires i < TableSize && CompactAt(i, k, m2, compactSets)
    ensures CompactAt(i + 1, k', m2', compactSets')
  {
    if i == m2 - 1 {
      LowMaskAt(i, k);
      compactSets' := compactSets + [true];
      m2', k' := 2 * m2, k + 1;
    } else {
      NotLowMask(i, k);
      compactSets' := compactSets + [false];
      m2', k' := m2, k;
    }
    assert forall j :: 0 <= j < i ==> compactSets'[j] == compactSets[j];
  }

  lemma LowMaskAt(i: int, k: nat)
    requires k <= MaxElement + 1 && i == Pow2(k) - 1 && i < TableSize
    ensures k <= MaxElement && IsLowMask(i)
  {
    Pow2Max();
    if k > MaxElement {
      Pow2Monotone(MaxElement, k);
    }
  }

  lemma NotLowMask(i: int, k: nat)
    requires i < Pow2(k) - 1 && (k == 0 || Pow2(k - 1) - 1 < i)
    ensures !IsLowMask(i)
  {
    forall j | 0 <= j <= MaxElement
      ensures i != Pow2(j) - 1
    {
      NotMaskAt(i, k, j);
    }
  }

  lemma NotMaskAt(i: int, k: nat, j: nat)
    requires i < Pow2(k) - 1 && (k == 0 || Pow2(k - 1) - 1 < i)
    ensures i != Pow2(j) - 1
  {
    if j < k {
      Pow2Monotone(j, k - 1);
    } else {
      Pow2Monotone(k, j);
    }
  }

  /** `isCompact()`: the set is an initial segment {1, ..., k}. */
  method IsCompact(s: SmallSet) returns (r: bool)
    ensures r <==> exists k :: 0 <= k <= MaxElement && Elems(s) == UpTo(k)
  {
    var _, compactSets := StaticTables();
    r := compactSets[s.theSet];
    LowMaskIffUpTo(s);
  }

  /** A pattern is 2^k - 1 exactly when its elements are {1, ..., k}. */
  lemma LowMaskIffUpTo(s: SmallSet)
    ensures IsLowMask(s.theSet) <==> exists k :: 0 <= k <= MaxElement && Elems(s) == UpTo(k)
  {
    if IsLowMask(s.theSet) {
      var k :| 0 <= k <= MaxElement && s.theSet == Pow2(k) - 1;
      assert Elems(s) == UpTo(k) by {
        assert s == LowSet(k);
      }
    }
    if exists k :: 0 <= k <= MaxElement && Elems(s) == UpTo(k) {
      var k :| 0 <= k <= MaxElement && Elems(s) == UpTo(k);
      ElemsInjective(s, LowSet(k));
    }
  }

  /** All elements of a sequence of sets. */
  ghost function UnionAll(parts: seq<SmallSet>): set<int>
  {
    set q, y | 0 <= q < |parts| && y in Elems(parts[q]) :: y
  }

  ghost predicate PairwiseDisjoint(parts: seq<SmallSet>)
  {
    forall p, q :: 0 <= p < q < |parts| ==> Elems(parts[p]) !! Elems(parts[q])
  }

  /**
   * `split(n)`: deal the elements round-robin into n parts, in the order the table entry
   * `getSet(theSet)` yields them (any order). A negative n, and n == 0 for a non-empty set,
   * end in the exceptions Java raises.
   */
  method Split(s: SmallSet, n: int) returns (r: Result<seq<SmallSet>, string>)
    ensures n < 0 ==> r.Failure?
    ensures n == 0 ==> (r.Success? <==> Elems(s) == {})
    ensures r.Success? ==> |r.value| == n
    ensures r.Success? ==> PairwiseDisjoint(r.value) && UnionAll(r.value) == Elems(s)
    ensures r.Success? ==> forall p, q :: 0 <= p < q < n ==>
      |Elems(r.value[q])| <= |Elems(r.value[p])| <= |Elems(r.value[q])| + 1
  {
    if n < 0 {
      return Failure("NegativeArraySizeException");
    }
    var parts := seq(n, _ => Empty());
    var p := 0;
    var sets, _ := StaticTables();
    var remaining := sets[s.theSet];
    PositionsAreElems(s);
    ghost var round := 0;
    while remaining != {}
      invariant Dealt(s, n, parts, p, remaining, round)
      decreases |remaining|
    {
      if p >= |parts| {
        return Failure("ArrayIndexOutOfBoundsException");
      }
      parts, p, remaining, round := DealStep(s, n, parts, p, remaining, round);
    }
    r := Success(parts);
  }

  /**
   * The loop state of `split`: the dealt elements are spread over disjoint
   * parts, `round` full rounds and then one more to each part before p.
   */
  ghost predicate Dealt(s: SmallSet, n: int, parts: seq<SmallSet>, p: int, remaining: set<int>, round: nat)
  {
    && remaining <= Elems(s)
    && |parts| == n && 0 <= p && (n > 0 ==> p < n)
    && PairwiseDisjoint(parts)
    && UnionAll(parts) == Elems(s) - remaining
    && forall q :: 0 <= q < n ==> |Elems(parts[q])| == round + (if q < p then 1 else 0)
  }

  /** One element of `split`: deal some remaining element to part p and move to the next part. */
  method DealStep(s: SmallSet, n: int, parts: seq<SmallSet>, p: int, remaining: set<int>, ghost round: nat)
    returns (parts': seq<SmallSet>, p': int, remaining': set<int>, ghost round': nat)
    requires Dealt(s, n, parts, p, remaining, round) && remaining != {} && p < |parts|
    ensures Dealt(s, n, parts', p', remaining', round') && |remaining'| < |remaining|
  {
    var x :| x in remaining;
    DealOne(parts, p, x);
    parts' := parts[p := Add(parts[p], x)];
    remaining' := remaining - {x};
    round' := if p + 1 == n then round + 1 else round;
    p' := NextPart(p, n);
  }

  /** Adding a fresh element to one part keeps the parts disjoint and grows their union by it. */
  lemma DealOne(parts: seq<SmallSet>, p: nat, x: int)
    requires p < |parts| && InRange(x)
    requires x !in UnionAll(parts) && PairwiseDisjoint(parts)
    ensures var dealt := parts[p := Add(parts[p], x)];
      PairwiseDisjoint(dealt) && UnionAll(dealt) == UnionAll(parts) + {x} &&
      |Elems(dealt[p])| == |Elems(parts[p])| + 1
  {
    var dealt := parts[p := Add(parts[p], x)];
    assert Elems(dealt[p]) == Elems(parts[p]) + {x};
    forall y | y in UnionAll(dealt)
      ensures y in UnionAll(parts) + {x}
    {
      var q :| 0 <= q < |dealt| && y in Elems(dealt[q]);
      if q != p || y != x {
        assert y in Elems(parts[q]);
      }
    }
    forall y | y in UnionAll(parts) + {x}
      ensures y in UnionAll(dealt)
    {
      if y != x {
        var q :| 0 <= q < |parts| && y in Elems(parts[q]);
        assert y in Elems(dealt[q]);
      } else {
        assert y in Elems(dealt[p]);
      }
    }
  }

  /** `p = (p + 1) % n` for a part index p < n. */
  function NextPart(p: nat, n: nat): (r: nat)
    requires p < n
    ensures r == if p + 1 == n then 0 else p + 1
  {
    (p + 1) % n
  }

  /** The skip loop of the iterator: the first element at or above `current`, or 13. */
  method SkipAbsent(s: SmallSet, current0: int) returns (current: int)
    requires 1 <= current0 <= MaxElement + 1
    ensures current0 <= current <= MaxElement + 1
    ensures current <= MaxElement ==> current in Elems(s)
    ensures forall y :: current0 <= y < current ==> y !in Elems(s)
  {
    current := current0;
    while current <= MaxElement && !Contains(s, current)
      invariant current0 <= current <= MaxElement + 1
      invariant forall y :: current0 <= y < current ==> y !in Elems(s)
    {
      current := current + 1;
    }
  }

  /** The iterator, run to exhaustion: the elements in strictly ascending order. */
  method Iterate(s: SmallSet) returns (xs: seq<int>)
    ensures forall i, j :: 0 <= i < j < |xs| ==> xs[i] < xs[j]
    ensures forall x :: x in xs <==> x in Elems(s)
  {
    var current := SkipAbsent(s, 1);
    xs := [];
    while current <= MaxElement
      invariant 1 <= current <= MaxElement + 1
      invariant current <= MaxElement ==> current in Elems(s)
      invariant forall i, j :: 0 <= i < j < |xs| ==> xs[i] < xs[j]
      invariant forall i :: 0 <= i < |xs| ==> xs[i] < current
      invariant forall x :: x in xs <==> x in Elems(s) && x < current
      decreases MaxElement + 1 - current
    {
      var prv := current;
      current := SkipAbsent(s, current + 1);
      xs := xs + [prv];
    }
  }

  /** `minimum()`: the least element, or 0 for the empty set. */
  method Minimum(s: SmallSet) returns (m: int)
    ensures Elems(s) == {} ==> m == 0
    ensures Elems(s) != {} ==> m in Elems(s) && forall y :: y in Elems(s) ==> m <= y
  {
    if IsEmpty(s) {
      return 0;
    }
    ghost var w :| w in Elems(s);
    m := 1;
    while !Contains(s, m)
      invariant 1 <= m <= w
      invariant forall y :: 1 <= y < m ==> y !in Elems(s)
      decreases w - m
    {
      m := m + 1;
    }
  }

  /** `maximum()`: the greatest element, or 0 for the empty set. */
  method Maximum(s: SmallSet) returns (m: int)
    ensures Elems(s) == {} ==> m == 0
    ensures Elems(s) != {} ==> m in Elems(s) && forall y :: y in Elems(s) ==> y <= m
  {
    if IsEmpty(s) {
      return 0;
    }
    ghost var w :| w in Elems(s);
    m := MaxElement;
    while !Contains(s, m)
      invariant w <= m <= MaxElement
      invariant forall y :: m < y <= MaxElement ==> y !in Elems(s)
      decreases m
    {
      m := m - 1;
    }
  }

  /**
   * `map(table)`: every element i is replaced by table[i] + 1. An element at or
   * past the table's end, or an image outside 1..12, throws.
   */
  method Map(s: SmallSet, table: seq<int>) returns (r: Result<SmallSet, string>)
    ensures r.Failure? <==> exists i :: i in Elems(s) && !MapsInRange(table, i)
    ensures r.Failure? ==> r.error == OutOfBounds
    ensures r.Success? ==> Elems(r.value) == set i | i in Elems(s) && i < |table| :: table[i] + 1
  {
    var xs := Iterate(s);
    var res := Empty();
    var k := 0;
    while k < |xs|
      invariant 0 <= k <= |xs|
      invariant forall j :: 0 <= j < |xs| ==> xs[j] in Elems(s)
      invariant forall j :: 0 <= j < k ==> MapsInRange(table, xs[j])
      invariant Elems(res) == set j | 0 <= j < k :: table[xs[j]] + 1
    {
      assert xs[k] in xs;
      if !MapsInRange(table, xs[k]) {
        return Failure(OutOfBounds);
      }
      res := Add(res, table[xs[k]] + 1);
      k := k + 1;
    }
    assert forall i :: i in Elems(s) ==> exists j :: 0 <= j < |xs| && xs[j] == i;
    r := Success(res);
  }

  /** `table[i] + 1` is an index in the table and an element in 1..12. */
  predicate MapsInRange(table: seq<int>, i: int)
  {
    0 <= i < |table| && InRange(table[i] + 1)
  }
}
