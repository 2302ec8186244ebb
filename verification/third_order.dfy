/**
 * The coordinator of one node: the getters with their defaults, `compute`
 * chaining the four stage operations, the work of the first two stages
 * (equivalence classes scaled by binomial coefficients, left interval
 * sizes) and the interval that eta ranges over for given mu and nu.
 */
module ThirdOrder {
  import opened Wrappers
  import opened AntiChains
  import opened Combinatorics
  import opened States
  import opened Stages
  import opened MuNuEtas
  import SmallBasicSet
  import CountMaps

  /** `getEquivalenceClasses`: the stored classes, or an empty map when there are none. */
  function ClassesOrEmpty<C>(s: State<C>): (r: map<AntiChain, int>)
    ensures s.data.classes.Some? ==> r == s.data.classes.value
    ensures s.data.classes.None? ==> r == map[]
  {
    s.data.classes.GetOr(map[])
  }

  /** `getLeftIntervalSizes`: the stored sizes, or an empty map when there are none. */
  function LeftOrEmpty<C>(s: State<C>): (r: map<AntiChain, int>)
    ensures s.data.left.Some? ==> r == s.data.left.value
    ensures s.data.left.None? ==> r == map[]
  {
    s.data.left.GetOr(map[])
  }

  /** `getMunuetaEquivalenceClasses`: the stored (mu,nu,eta) classes, or an empty map when there are none. */
  function TriplesOrEmpty<C>(s: State<C>): (r: map<C, int>)
    ensures s.data.triples.Some? ==> r == s.data.triples.value
    ensures s.data.triples.None? ==> r == map[]
  {
    s.data.triples.GetOr(map[])
  }

  /** `getSum`: the stored sum, or zero when there is none; never negative in a valid state. */
  function SumOrZero<C>(s: State<C>): (r: int)
    ensures s.data.sum.Some? ==> r == s.data.sum.value
    ensures s.data.sum.None? ==> r == 0
    ensures Valid(s) ==> r >= 0
  {
    s.data.sum.GetOr(0)
  }

  /**
   * The getters see what the updates write: the first value added under a
   * key, the count of a (mu,nu,eta) class grown by the addend, and the sum
   * grown by the addend.
   */
  lemma GettersSeeUpdates<C(!new)>(s: State<C>, ac: AntiChain, nr: int, code: C)
    ensures var m := ClassesOrEmpty(AddEquivalenceClass(s, ac, nr));
      ac in m && m[ac] == (if ac in ClassesOrEmpty(s) then ClassesOrEmpty(s)[ac] else nr)
    ensures var m := LeftOrEmpty(AddLeftIntervalSize(s, ac, nr));
      ac in m && m[ac] == (if ac in LeftOrEmpty(s) then LeftOrEmpty(s)[ac] else nr)
    ensures TriplesOrEmpty(AddToTriple(s, code, nr))[code] == CountMaps.Get0(TriplesOrEmpty(s), code) + nr
    ensures AddToSum(s, nr).Success? ==> SumOrZero(AddToSum(s, nr).value) == SumOrZero(s) + nr
  {
  }

  /** A node that has only just been set up reads as empty: no classes, no sizes, no triples, sum zero. */
  lemma FreshStateReadsEmpty<C>(rank: int, nodes: int, order: int)
    requires order >= 3
    ensures NewInit<C>(rank, nodes, order).Success?
    ensures var s := NewInit<C>(rank, nodes, order).value;
      && ClassesOrEmpty(s) == map[] && LeftOrEmpty(s) == map[] && TriplesOrEmpty(s) == map[]
      && SumOrZero(s) == 0
  {
  }

  /**
   * The node's interrupted flag as each of the last three stage operations
   * sees it. The shutdown hook raises the flag at any moment and nothing
   * lowers it, so in a real run a raised flag stays raised for the later
   * stages; the contracts below do not depend on that.
   */
  datatype Flags = Flags(atLeft: bool, atTriples: bool, atSum: bool)

  /**
   * `compute`: the four stage operations in their fixed order, each handed
   * its own work and the flag as it stands then; the answer is the sum as
   * the final state holds it. A stage that is interrupted leaves the node
   * where it was, and the next stage operation then throws.
   */
  function Compute<C>(s: State<C>, classes: State<C> -> Data<C>, left: State<C> -> Data<C>,
                      triples: State<C> -> Data<C>, sum: State<C> -> Data<C>, elapsed: int, f: Flags)
    : (r: Result<(State<C>, int), Error>)
    ensures r.Success? ==> r.value.1 == SumOrZero(r.value.0)
    ensures r.Success? ==>
              && r.value.0.rank == s.rank && r.value.0.nodes == s.nodes && r.value.0.order == s.order
              && StageIndex(r.value.0.stage) >= StageIndex(s.stage)
    ensures r.Success? ==> r.value.0.stage == (if f.atSum && s.stage != Finished then Summing else Finished)
    ensures s.stage == Finished ==> r == Success((s, SumOrZero(s)))
    ensures s.stage == Init && (f.atLeft || f.atTriples) ==> r.Failure?
    ensures s.stage == Preparation && f.atTriples ==> r.Failure?
  {
    var c := ComputeClasses(s, classes, elapsed);
    var l :- ComputeLeft(c.current, left, elapsed, f.atLeft);
    var t :- ComputeTriples(l.current, triples, elapsed, f.atTriples);
    var u :- ComputeSum(t.current, sum, elapsed, f.atSum);
    Success((u.current, SumOrZero(u.current)))
  }

  /** Work that always leaves behind what the next stage needs. */
  ghost predicate Productive<C(!new)>(classes: State<C> -> Data<C>, left: State<C> -> Data<C>,
                                triples: State<C> -> Data<C>, sum: State<C> -> Data<C>)
  {
    && (forall t :: Filled(classes(t).classes) && NonNegative(classes(t).sum))
    && (forall t :: Filled(left(t).classes) && NonNegative(left(t).sum))
    && (forall t :: Filled(triples(t).triples) && Filled(triples(t).left) && NonNegative(triples(t).sum))
    && (forall t :: sum(t).sum.Some? && sum(t).sum.value >= 0)
  }

  /**
   * A computation from scratch that is not interrupted before the summing
   * stage gets there and answers normally: in the finished stage with the
   * non-negative sum when the flag stays down, and still in the summing
   * stage when it rises during the sum.
   */
  lemma ComputeFromScratch<C(!new)>(s: State<C>, classes: State<C> -> Data<C>, left: State<C> -> Data<C>,
                              triples: State<C> -> Data<C>, sum: State<C> -> Data<C>, elapsed: int, atSum: bool)
    requires s.stage == Init && s.order >= 3
    requires Productive(classes, left, triples, sum)
    ensures var r := Compute(s, classes, left, triples, sum, elapsed, Flags(false, false, atSum));
      && r.Success? && r.value.0.stage == (if atSum then Summing else Finished) && r.value.1 >= 0
      && (!atSum ==> r.value.0.data.sum.Some? && r.value.1 == r.value.0.data.sum.value)
  {
    var c := ComputeClasses(s, classes, elapsed);
    assert Filled(classes(s).classes) && NonNegative(classes(s).sum);
    var l := ComputeLeft(c.current, left, elapsed, false);
    assert Filled(left(c.current).classes) && NonNegative(left(c.current).sum);
    assert l.Success? && l.value.current.stage == Preparation;
    var t := ComputeTriples(l.value.current, triples, elapsed, false);
    var w := triples(l.value.current);
    assert Filled(w.triples) && Filled(w.left) && NonNegative(w.sum);
    assert t.Success? && t.value.current.stage == Summing;
    var u := ComputeSum(t.value.current, sum, elapsed, atSum);
    assert sum(t.value.current).sum.Some? && sum(t.value.current).sum.value >= 0;
    assert u.Success? && u.value.current.stage == (if atSum then Summing else Finished);
  }

  /** Once finished, computing again changes nothing and answers the same sum. */
  lemma ComputeAgain<C>(s: State<C>, classes: State<C> -> Data<C>, left: State<C> -> Data<C>,
                        triples: State<C> -> Data<C>, sum: State<C> -> Data<C>, elapsed: int, f: Flags, g: Flags)
    requires Compute(s, classes, left, triples, sum, elapsed, f).Success?
    requires !f.atSum
    ensures var r := Compute(s, classes, left, triples, sum, elapsed, f).value;
      Compute(r.0, classes, left, triples, sum, elapsed, g) == Success(r)
  {
  }

  /** `combinations(n, i)` as the factor of level `i`: zero past `n`. */
  function Scale(n: nat, i: nat): nat
  {
    if n < i then 0 else Binom(n, i)
  }

  /** Entry `k` of level `j` has been handled once levels below `i`, and the keys `done` of level `i`, are. */
  predicate Handled(i: int, done: set<int>, j: int, k: int)
  {
    j < i || (j == i && k in done)
  }

  /** `a` is the decoded key of a handled entry. */
  ghost predicate FromHandled(levels: seq<map<int, int>>, decode: int -> AntiChain, i: int, done: set<int>, a: AntiChain)
  {
    exists j, k :: 0 <= j < |levels| && k in levels[j] && Handled(i, done, j, k) && decode(k) == a
  }

  /** `v` is the scaled count of a handled entry whose key decodes to `a`. */
  ghost predicate ScaledHandled(levels: seq<map<int, int>>, decode: int -> AntiChain, n: nat, i: int, done: set<int>,
                                a: AntiChain, v: int)
  {
    exists j, k :: 0 <= j < |levels| && k in levels[j] && Handled(i, done, j, k) && decode(k) == a
                   && v == levels[j][k] * Scale(n, j)
  }

  /**
   * The classes `after` handling some entries, starting from `before`: the
   * keys are the old ones and the handled ones, old keys keep their counts,
   * and every new key holds the scaled count of an entry that decodes to it.
   */
  ghost predicate Loaded(before: map<AntiChain, int>, after: map<AntiChain, int>, levels: seq<map<int, int>>,
                         decode: int -> AntiChain, n: nat, i: int, done: set<int>)
  {
    && (forall a :: a in after <==> a in before || FromHandled(levels, decode, i, done, a))
    && (forall a :: a in before ==> a in after && after[a] == before[a])
    && (forall a :: a in after && a !in before ==> ScaledHandled(levels, decode, n, i, done, a, after[a]))
  }

  lemma LoadOne(before: map<AntiChain, int>, after: map<AntiChain, int>, levels: seq<map<int, int>>,
                decode: int -> AntiChain, n: nat, i: nat, done: set<int>, k: int)
    requires i < |levels| && k in levels[i]
    requires Loaded(before, after, levels, decode, n, i, done)
    ensures Loaded(before, CountMaps.PutIfAbsent(after, decode(k), levels[i][k] * Scale(n, i)), levels, decode, n, i, done + {k})
  {
    var next := CountMaps.PutIfAbsent(after, decode(k), levels[i][k] * Scale(n, i));
    forall a ensures FromHandled(levels, decode, i, done + {k}, a) <==> FromHandled(levels, decode, i, done, a) || a == decode(k) {
      if FromHandled(levels, decode, i, done + {k}, a) && a != decode(k) {
        var j, k' :| 0 <= j < |levels| && k' in levels[j] && Handled(i, done + {k}, j, k') && decode(k') == a;
        assert Handled(i, done, j, k');
      }
      if a == decode(k) {
        assert Handled(i, done + {k}, i, k);
      }
      if FromHandled(levels, decode, i, done, a) {
        var j, k' :| 0 <= j < |levels| && k' in levels[j] && Handled(i, done, j, k') && decode(k') == a;
        assert Handled(i, done + {k}, j, k');
      }
    }
    forall a | a in next && a !in before
      ensures ScaledHandled(levels, decode, n, i, done + {k}, a, next[a])
    {
      if a in after {
        var j, k' :| 0 <= j < |levels| && k' in levels[j] && Handled(i, done, j, k') && decode(k') == a
                     && after[a] == levels[j][k'] * Scale(n, j);
        assert Handled(i, done + {k}, j, k');
      } else {
        assert Handled(i, done + {k}, i, k);
      }
    }
  }

  lemma NextLevel(before: map<AntiChain, int>, after: map<AntiChain, int>, levels: seq<map<int, int>>,
                  decode: int -> AntiChain, n: nat, i: nat)
    requires i < |levels|
    requires Loaded(before, after, levels, decode, n, i, levels[i].Keys)
    ensures Loaded(before, after, levels, decode, n, i + 1, {})
  {
    assert forall j, k :: 0 <= j < |levels| && k in levels[j] ==>
      (Handled(i, levels[i].Keys, j, k) <==> Handled(i + 1, {}, j, k));
  }

  /** No level has an entry below level `i`. */
  predicate NoEntriesBelow(levels: seq<map<int, int>>, i: int)
  {
    forall j :: 0 <= j < i && j < |levels| ==> levels[j].Keys == {}
  }

  /** The classes of level `i` are added to what the levels below it left in `r0`. */
  method AddLevel<C>(s: State<C>, r0: State<C>, levels: seq<map<int, int>>, n: nat, decode: int -> AntiChain, i: nat)
    returns (r: State<C>)
    requires i < |levels|
    requires r0 == s.(data := s.data.(classes := r0.data.classes))
    requires Loaded(ClassesOrEmpty(s), ClassesOrEmpty(r0), levels, decode, n, i, {})
    requires r0.data.classes.None? <==> s.data.classes.None? && NoEntriesBelow(levels, i)
    ensures r == s.(data := s.data.(classes := r.data.classes))
    ensures Loaded(ClassesOrEmpty(s), ClassesOrEmpty(r), levels, decode, n, i + 1, {})
    ensures r.data.classes.None? <==> s.data.classes.None? && NoEntriesBelow(levels, i + 1)
  {
    var factor := SmallBasicSet.Combinations(n, i);
    assert factor == Scale(n, i);
    r := r0;
    var todo := levels[i].Keys;
    ghost var done: set<int> := {};
    while todo != {}
      invariant LevelAt(s, r, levels, n, decode, i, todo, done)
      decreases |todo|
    {
      r, todo, done := ClassStep(s, r, levels, n, decode, i, factor, todo, done);
    }
    assert done == levels[i].Keys;
    NextLevel(ClassesOrEmpty(s), ClassesOrEmpty(r), levels, decode, n, i);
  }

  /** The state of `AddLevel` with `todo` left of level `i` and `done` handled. */
  ghost predicate LevelAt<C>(s: State<C>, r: State<C>, levels: seq<map<int, int>>, n: nat, decode: int -> AntiChain,
                             i: nat, todo: set<int>, done: set<int>)
  {
    && i < |levels|
    && todo <= levels[i].Keys && done == levels[i].Keys - todo
    && r == s.(data := s.data.(classes := r.data.classes))
    && Loaded(ClassesOrEmpty(s), ClassesOrEmpty(r), levels, decode, n, i, done)
    && (r.data.classes.None? <==> s.data.classes.None? && NoEntriesBelow(levels, i) && todo == levels[i].Keys)
  }

  /** One class of level `i`: stored with its count scaled by the binomial, unless already present. */
  method ClassStep<C>(s: State<C>, r0: State<C>, levels: seq<map<int, int>>, n: nat, decode: int -> AntiChain,
                      i: nat, factor: int, todo: set<int>, ghost done: set<int>)
    returns (r: State<C>, todo': set<int>, ghost done': set<int>)
    requires factor == Scale(n, i) && todo != {}
    requires LevelAt(s, r0, levels, n, decode, i, todo, done)
    ensures LevelAt(s, r, levels, n, decode, i, todo', done') && |todo'| < |todo|
  {
    var k := Choose(todo);
    LoadOne(ClassesOrEmpty(s), ClassesOrEmpty(r0), levels, decode, n, i, done, k);
    r := AddEquivalenceClass(r0, decode(k), levels[i][k] * factor);
    todo' := todo - {k};
    done' := done + {k};
  }

  /**
   * `computeEquivalenceClasses`: the classes of level `i` (as the solver
   * returns them, keyed by antichain code) are stored under the decoded
   * antichain, their counts multiplied by `combinations(n, i)`; a class
   * already present keeps its count.
   */
  method AddLevels<C>(s: State<C>, levels: seq<map<int, int>>, n: nat, decode: int -> AntiChain) returns (r: State<C>)
    ensures r == s.(data := s.data.(classes := r.data.classes))
    ensures Loaded(ClassesOrEmpty(s), ClassesOrEmpty(r), levels, decode, n, |levels|, {})
    ensures r.data.classes.None? <==> s.data.classes.None? && NoEntriesBelow(levels, |levels|)
  {
    r := s;
    var i := 0;
    while i < |levels|
      invariant 0 <= i <= |levels|
      invariant r == s.(data := s.data.(classes := r.data.classes))
      invariant Loaded(ClassesOrEmpty(s), ClassesOrEmpty(r), levels, decode, n, i, {})
      invariant r.data.classes.None? <==> s.data.classes.None? && NoEntriesBelow(levels, i)
    {
      r := AddLevel(s, r, levels, n, decode, i);
      i := i + 1;
    }
  }

  /** No antichain code is used twice, and none decodes to a class already present. */
  ghost predicate Unambiguous(before: map<AntiChain, int>, levels: seq<map<int, int>>, decode: int -> AntiChain)
  {
    && (forall j, k :: 0 <= j < |levels| && k in levels[j] ==> decode(k) !in before)
    && (forall j1, k1, j2, k2 ::
          (0 <= j1 < |levels| && k1 in levels[j1] && 0 <= j2 < |levels| && k2 in levels[j2] && decode(k1) == decode(k2))
          ==> j1 == j2 && k1 == k2)
  }

  /** When the codes are unambiguous, each class of level `j` holds its count times `combinations(n, j)`. */
  lemma EachClassScaled(before: map<AntiChain, int>, after: map<AntiChain, int>, levels: seq<map<int, int>>,
                        decode: int -> AntiChain, n: nat, j: nat, k: int)
    requires Loaded(before, after, levels, decode, n, |levels|, {}) && Unambiguous(before, levels, decode)
    requires j < |levels| && k in levels[j]
    ensures decode(k) in after && after[decode(k)] == levels[j][k] * Scale(n, j)
  {
    assert Handled(|levels|, {}, j, k);
    assert FromHandled(levels, decode, |levels|, {}, decode(k));
    var j', k' :| 0 <= j' < |levels| && k' in levels[j'] && Handled(|levels|, {}, j', k') && decode(k') == decode(k)
                  && after[decode(k)] == levels[j'][k'] * Scale(n, j');
  }

  /**
   * `computeLeftIntervalSizes`: every class representative gets the size of
   * the lattice interval below it, unless it already has a size.
   */
  method AddLeftSizes<C>(s: State<C>, latticeSize: AntiChain -> int) returns (r: State<C>)
    ensures r == s.(data := s.data.(left := r.data.left))
    ensures r.data.left.None? <==> s.data.left.None? && ClassesOrEmpty(s).Keys == {}
    ensures forall a :: a in LeftOrEmpty(r) <==> a in LeftOrEmpty(s) || a in ClassesOrEmpty(s)
    ensures forall a :: a in LeftOrEmpty(s) ==> LeftOrEmpty(r)[a] == LeftOrEmpty(s)[a]
    ensures forall a :: a in ClassesOrEmpty(s) && a !in LeftOrEmpty(s) ==> LeftOrEmpty(r)[a] == latticeSize(a)
  {
    var all := ClassesOrEmpty(s).Keys;
    var todo := all;
    r := s;
    while todo != {}
      invariant todo <= all
      invariant r == s.(data := s.data.(left := r.data.left))
      invariant r.data.left.None? <==> s.data.left.None? && todo == all
      invariant forall a :: a in LeftOrEmpty(r) <==> a in LeftOrEmpty(s) || a in all - todo
      invariant forall a :: a in LeftOrEmpty(s) ==> LeftOrEmpty(r)[a] == LeftOrEmpty(s)[a]
      invariant forall a :: a in all - todo && a !in LeftOrEmpty(s) ==> LeftOrEmpty(r)[a] == latticeSize(a)
      decreases |todo|
    {
      var ac :| ac in todo;
      r := AddLeftIntervalSize(r, ac, latticeSize(ac));
      todo := todo - {ac};
    }
  }

  /**
   * `getEtaInterval`: with the common part of mu and nu removed from both,
   * the join of what is left is the lower end, and the join of mu and nu the
   * upper end.
   */
  function EtaInterval(mu: AntiChain, nu: AntiChain): (r: (AntiChain, AntiChain))
    ensures r == (EtaLow(mu, nu), EtaHigh(mu, nu))
    ensures Le(r.0, r.1)
  {
    var overlap := mu * nu;
    var etamu := mu - overlap;
    var etanu := nu - overlap;
    assert etamu == mu - nu && etanu == nu - mu;
    EtaLowBelowHigh(mu, nu);
    (Join(etamu, etanu), Join(mu, nu))
  }

  /** A member of a join of `a` and `b` that is not in the join of `a` and `c` lies below `b` or `c`. */
  lemma OneSided(a: AntiChain, b: AntiChain, c: AntiChain, s: set<int>)
    requires s in Join(a, b) && s !in Join(a, c)
    ensures Ge(b, s) || Ge(c, s)
  {
    if s in a {
      assert IsTop(s, a + b);
      assert forall y | y in a :: y in a + b;
      assert s in a + c && !IsTop(s, a + c);
      var y :| y in a + c && s < y;
      assert y in c;
    } else {
      assert s in b;
    }
  }

  /**
   * The eta interval is where eta must lie: for any a, b and c with
   * mu = a join b, nu = a join c and eta = b join c, eta lies between the
   * two ends of `EtaInterval(mu, nu)`.
   */
  lemma EtaIntervalHoldsEta(a: AntiChain, b: AntiChain, c: AntiChain)
    ensures var r := EtaInterval(Join(a, b), Join(a, c));
      Le(r.0, Join(b, c)) && Le(Join(b, c), r.1)
  {
    var mu, nu, eta := Join(a, b), Join(a, c), Join(b, c);
    forall s | s in eta ensures Ge(EtaHigh(mu, nu), s) {
      JoinGe(mu, nu, s);
      assert s in b + c;
      if s in b {
        JoinGe(a, b, s);
        assert Ge(b, s);
      } else {
        JoinGe(a, c, s);
        assert Ge(c, s);
      }
    }
    forall s | s in EtaLow(mu, nu) ensures Ge(eta, s) {
      assert s in (mu - nu) + (nu - mu);
      JoinGe(b, c, s);
      if s in mu - nu {
        OneSided(a, b, c, s);
      } else {
        OneSided(a, c, b, s);
      }
    }
  }
}
