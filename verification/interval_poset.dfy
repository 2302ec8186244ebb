/**
 * The poset of sets that `IntervalPoset` holds: its elements are small
 * sets arranged in levels by size, with a successor and a predecessor map
 * and two memo maps for the elements after and before each element.
 */
module IntervalPosets {
  import opened Wrappers
  import opened Combinatorics
  import opened Bits
  import opened SmallBasicSet
  import opened Closures

  lemma {:induction false} PopCountBound(n: nat, k: nat)
    requires n < Pow2(k)
    ensures PopCount(n) <= k
    decreases k
  {
    if k > 0 && n > 0 {
      PopCountBound(n / 2, k - 1);
    }
  }

  /** A small set has at most 12 elements. */
  lemma SizeAtMost(s: SmallSet)
    ensures Size(s) <= MaxElement
  {
    Pow2Max();
    PopCountBound(s.theSet, MaxElement);
  }

  /** How many levels lie above the level of v: every step to a successor lowers it. */
  function AfterHeight(v: SmallSet): nat
  {
    SizeAtMost(v);
    MaxElement - Size(v)
  }

  /** The level of v: every step to a predecessor lowers it. */
  function BeforeHeight(v: SmallSet): nat
  {
    Size(v)
  }

  /** Successors are larger sets than the element they follow. */
  predicate GradedUp(edges: map<SmallSet, set<SmallSet>>)
  {
    forall v, p :: v in edges && p in edges[v] ==> Size(v) < Size(p)
  }

  /** Predecessors are smaller sets than the element they precede. */
  predicate GradedDown(edges: map<SmallSet, set<SmallSet>>)
  {
    forall v, p :: v in edges && p in edges[v] ==> Size(p) < Size(v)
  }

  /** In a poset graded by size, the height above goes down along successor edges, and only then. */
  lemma GradedUpIsRanked(succ: map<SmallSet, set<SmallSet>>)
    ensures GradedUp(succ) <==> Ranked(succ, AfterHeight)
  {
    if Ranked(succ, AfterHeight) {
      forall v, q | v in succ && q in succ[v]
        ensures Size(v) < Size(q)
      {
        assert AfterHeight(q) < AfterHeight(v);
        SizeAtMost(v);
        SizeAtMost(q);
      }
    }
    if GradedUp(succ) {
      forall v, q | v in succ && q in succ[v]
        ensures AfterHeight(q) < AfterHeight(v)
      {
        assert Size(v) < Size(q);
        SizeAtMost(v);
        SizeAtMost(q);
      }
    }
  }

  /** In a poset graded by size, the level goes down along predecessor edges, and only then. */
  lemma GradedDownIsRanked(pred: map<SmallSet, set<SmallSet>>)
    ensures GradedDown(pred) <==> Ranked(pred, BeforeHeight)
  {
    if Ranked(pred, BeforeHeight) {
      forall v, q | v in pred && q in pred[v]
        ensures Size(q) < Size(v)
      {
        assert BeforeHeight(q) < BeforeHeight(v);
      }
    }
    if GradedDown(pred) {
      forall v, q | v in pred && q in pred[v]
        ensures BeforeHeight(q) < BeforeHeight(v)
      {
        assert Size(q) < Size(v);
      }
    }
  }

  datatype IntervalPoset = IntervalPoset(
    levels: seq<set<SmallSet>>,
    successors: map<SmallSet, set<SmallSet>>,
    predecessors: map<SmallSet, set<SmallSet>>,
    after: map<SmallSet, set<SmallSet>>,
    before: map<SmallSet, set<SmallSet>>)

  /**
   * Every successor and predecessor has entries of its own, the two maps
   * go up and down in size, and every memo entry is the closure of its key.
   * No code of the class fills its fields in, so this is an assumption
   * about how a poset would be built, not a fact the class establishes.
   */
  ghost predicate Valid(p: IntervalPoset)
  {
    && Closed(p.successors) && Ranked(p.successors, AfterHeight)
    && Closed(p.predecessors) && Ranked(p.predecessors, BeforeHeight)
    && MemoSound(p.successors, AfterHeight, p.after)
    && MemoSound(p.predecessors, BeforeHeight, p.before)
  }

  /**
   * `getAfter(v)`: for an element of the poset, every element reachable by
   * successor steps, taken from the memo or built and memoised; for any
   * other element nothing (null). Only the `after` memo changes.
   */
  method GetAfter(p: IntervalPoset, v: SmallSet) returns (r: Option<set<SmallSet>>, p': IntervalPoset)
    requires Valid(p)
    ensures v in p.successors ==> r == Some(Reach(p.successors, AfterHeight, v)) && v in p'.after
    ensures v !in p.successors ==> r == None
    ensures p' == p.(after := p'.after) && Valid(p') && p.after.Keys <= p'.after.Keys
  {
    var memo;
    r, memo := Get(p.successors, AfterHeight, p.after, v);
    p' := p.(after := memo);
  }

  /** `getBefore(v)`: the dual of `GetAfter` over the predecessors. */
  method GetBefore(p: IntervalPoset, v: SmallSet) returns (r: Option<set<SmallSet>>, p': IntervalPoset)
    requires Valid(p)
    ensures v in p.predecessors ==> r == Some(Reach(p.predecessors, BeforeHeight, v)) && v in p'.before
    ensures v !in p.predecessors ==> r == None
    ensures p' == p.(before := p'.before) && Valid(p') && p.before.Keys <= p'.before.Keys
  {
    var memo;
    r, memo := Get(p.predecessors, BeforeHeight, p.before, v);
    p' := p.(before := memo);
  }

  /**
   * `getLevel(n)`: level n is the array entry n - 1; a number past the last
   * level gives an empty level, and one below 1 indexes outside the array.
   */
  function GetLevel(p: IntervalPoset, n: int): (r: Result<set<SmallSet>, string>)
    ensures r.Failure? <==> n < 1
    ensures n > |p.levels| ==> r == Success({})
  {
    if n > |p.levels| then Success({})
    else if n < 1 then Failure("ArrayIndexOutOfBoundsException")
    else Success(p.levels[n - 1])
  }

  /** `getLevel(s)`: the level of a set is its number of elements. */
  function LevelOf(s: SmallSet): (r: nat)
    ensures r == |Elems(s)| && r <= MaxElement
  {
    SizeAtMost(s);
    Size(s)
  }

  /** Level n (counted from 1) holds sets of n elements. */
  ghost predicate Levelled(p: IntervalPoset)
  {
    forall i, s :: 0 <= i < |p.levels| && s in p.levels[i] ==> Size(s) == i + 1
  }

  /**
   * The two `getLevel`s agree on a poset levelled by size: a set found at
   * level n has level n, and the level of a set of the poset is the level
   * it is stored in.
   */
  lemma LevelsAgree(p: IntervalPoset, s: SmallSet, n: int)
    requires Levelled(p)
    ensures GetLevel(p, n).Success? && s in GetLevel(p, n).value ==> LevelOf(s) == n
    ensures forall i :: 0 <= i < |p.levels| && s in p.levels[i] ==>
      GetLevel(p, LevelOf(s)) == Success(p.levels[i])
  {
  }
}
