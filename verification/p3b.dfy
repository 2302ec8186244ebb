/**
 * The third-order p-coefficient: the number of antichain triples (a, b, c)
 * with a join b == mu, a join c == nu, b join c == eta and
 * a meet b meet c == abc, counted by forcing what must go where and then
 * branching over the connected components that are left.
 */
module P3B {
  import opened AntiChains
  import opened AntiChainSolver
  import opened Combinatorics

  function Meet3(a: AntiChain, b: AntiChain, c: AntiChain): (r: AntiChain)
    ensures IsAntiChain(r)
  {
    Meet(Meet(a, b), c)
  }

  /** `ss` meets `x` somewhere outside the down-set of `abc`. */
  predicate Above(ss: AntiChain, x: AntiChain, abc: AntiChain)
  {
    !Le(Meet(ss, x), abc)
  }

  /**
   * The branch-and-bound count. Components shared by all three chains go
   * first, into two of the three chains; then the components of `cab`, `cac`
   * and `cbc` each go into one of their two chains. A component that meets a
   * chain above `abc` is forced, and a branch whose triple meet is not `abc`
   * counts nothing.
   */
  function Count(a: AntiChain, b: AntiChain, c: AntiChain,
                 cab: seq<AntiChain>, cac: seq<AntiChain>, cbc: seq<AntiChain>,
                 cabacbc: seq<AntiChain>, abc: AntiChain): (r: nat)
    ensures Meet3(a, b, c) != abc ==> r == 0
    ensures Meet3(a, b, c) == abc && cab == [] && cac == [] && cbc == [] && cabacbc == [] ==> r == 1
    decreases |cab| + |cac| + |cbc| + |cabacbc|
  {
    if Meet3(a, b, c) != abc then 0
    else if cabacbc != [] then
      var ss, rest := cabacbc[0], cabacbc[1..];
      var ina, inb, inc := Above(ss, a, abc), Above(ss, b, abc), Above(ss, c, abc);
      if ina && inb && inc then 0
      else if ina && inb then Count(Join(a, ss), Join(b, ss), c, cab, cac, cbc, rest, abc)
      else if ina && inc then Count(Join(a, ss), b, Join(c, ss), cab, cac, cbc, rest, abc)
      else if inb && inc then Count(a, Join(b, ss), Join(c, ss), cab, cac, cbc, rest, abc)
      else if ina then
        Count(Join(a, ss), Join(b, ss), c, cab, cac, cbc, rest, abc)
        + Count(Join(a, ss), b, Join(c, ss), cab, cac, cbc, rest, abc)
      else if inb then
        Count(Join(a, ss), Join(b, ss), c, cab, cac, cbc, rest, abc)
        + Count(a, Join(b, ss), Join(c, ss), cab, cac, cbc, rest, abc)
      else if inc then
        Count(Join(a, ss), b, Join(c, ss), cab, cac, cbc, rest, abc)
        + Count(a, Join(b, ss), Join(c, ss), cab, cac, cbc, rest, abc)
      else
        Count(Join(a, ss), Join(b, ss), c, cab, cac, cbc, rest, abc)
        + Count(Join(a, ss), b, Join(c, ss), cab, cac, cbc, rest, abc)
        + Count(a, Join(b, ss), Join(c, ss), cab, cac, cbc, rest, abc)
    else if cab != [] then
      var ss, rest := cab[0], cab[1..];
      if Above(ss, a, abc) then Count(Join(a, ss), b, c, rest, cac, cbc, cabacbc, abc)
      else if Above(ss, b, abc) then Count(a, Join(b, ss), c, rest, cac, cbc, cabacbc, abc)
      else Count(Join(a, ss), b, c, rest, cac, cbc, cabacbc, abc) + Count(a, Join(b, ss), c, rest, cac, cbc, cabacbc, abc)
    else if cac != [] then
      var ss, rest := cac[0], cac[1..];
      if Above(ss, a, abc) then Count(Join(a, ss), b, c, cab, rest, cbc, cabacbc, abc)
      else if Above(ss, c, abc) then Count(a, b, Join(c, ss), cab, rest, cbc, cabacbc, abc)
      else Count(Join(a, ss), b, c, cab, rest, cbc, cabacbc, abc) + Count(a, b, Join(c, ss), cab, rest, cbc, cabacbc, abc)
    else if cbc != [] then
      var ss, rest := cbc[0], cbc[1..];
      if Above(ss, b, abc) then Count(a, Join(b, ss), c, cab, cac, rest, cabacbc, abc)
      else if Above(ss, c, abc) then Count(a, b, Join(c, ss), cab, cac, rest, cabacbc, abc)
      else Count(a, Join(b, ss), c, cab, cac, rest, cabacbc, abc) + Count(a, b, Join(c, ss), cab, cac, rest, cabacbc, abc)
    else 1
  }

  /**
   * The reference count: every way of giving each shared component to two
   * of the chains and each other component to one of its two chains,
   * counted when the final triple meet is `abc`. No forcing, no pruning.
   */
  function Distribute(a: AntiChain, b: AntiChain, c: AntiChain,
                      cab: seq<AntiChain>, cac: seq<AntiChain>, cbc: seq<AntiChain>,
                      cabacbc: seq<AntiChain>, abc: AntiChain): nat
    decreases |cab| + |cac| + |cbc| + |cabacbc|
  {
    if cabacbc != [] then
      var ss, rest := cabacbc[0], cabacbc[1..];
      Distribute(Join(a, ss), Join(b, ss), c, cab, cac, cbc, rest, abc)
      + Distribute(Join(a, ss), b, Join(c, ss), cab, cac, cbc, rest, abc)
      + Distribute(a, Join(b, ss), Join(c, ss), cab, cac, cbc, rest, abc)
    else if cab != [] then
      Distribute(Join(a, cab[0]), b, c, cab[1..], cac, cbc, cabacbc, abc)
      + Distribute(a, Join(b, cab[0]), c, cab[1..], cac, cbc, cabacbc, abc)
    else if cac != [] then
      Distribute(Join(a, cac[0]), b, c, cab, cac[1..], cbc, cabacbc, abc)
      + Distribute(a, b, Join(c, cac[0]), cab, cac[1..], cbc, cabacbc, abc)
    else if cbc != [] then
      Distribute(a, Join(b, cbc[0]), c, cab, cac, cbc[1..], cabacbc, abc)
      + Distribute(a, b, Join(c, cbc[0]), cab, cac, cbc[1..], cabacbc, abc)
    else if Meet3(a, b, c) == abc then 1
    else 0
  }

  /** The counter never exceeds the unpruned enumeration. */
  lemma {:induction false} CountAtMostDistribute(a: AntiChain, b: AntiChain, c: AntiChain,
                                                 cab: seq<AntiChain>, cac: seq<AntiChain>, cbc: seq<AntiChain>,
                                                 cabacbc: seq<AntiChain>, abc: AntiChain)
    ensures Count(a, b, c, cab, cac, cbc, cabacbc, abc) <= Distribute(a, b, c, cab, cac, cbc, cabacbc, abc)
    decreases |cab| + |cac| + |cbc| + |cabacbc|
  {
    if Meet3(a, b, c) != abc {
    } else if cabacbc != [] {
      var ss, rest := cabacbc[0], cabacbc[1..];
      CountAtMostDistribute(Join(a, ss), Join(b, ss), c, cab, cac, cbc, rest, abc);
      CountAtMostDistribute(Join(a, ss), b, Join(c, ss), cab, cac, cbc, rest, abc);
      CountAtMostDistribute(a, Join(b, ss), Join(c, ss), cab, cac, cbc, rest, abc);
      SharedAtMost(a, b, c, cab, cac, cbc, cabacbc, abc);
    } else if cab != [] {
      CountAtMostDistribute(Join(a, cab[0]), b, c, cab[1..], cac, cbc, cabacbc, abc);
      CountAtMostDistribute(a, Join(b, cab[0]), c, cab[1..], cac, cbc, cabacbc, abc);
    } else if cac != [] {
      CountAtMostDistribute(Join(a, cac[0]), b, c, cab, cac[1..], cbc, cabacbc, abc);
      CountAtMostDistribute(a, b, Join(c, cac[0]), cab, cac[1..], cbc, cabacbc, abc);
    } else if cbc != [] {
      CountAtMostDistribute(a, Join(b, cbc[0]), c, cab, cac, cbc[1..], cabacbc, abc);
      CountAtMostDistribute(a, b, Join(c, cbc[0]), cab, cac, cbc[1..], cabacbc, abc);
    }
  }

  /** One shared-component step: each case of the counter drops some of the three branches. */
  lemma SharedAtMost(a: AntiChain, b: AntiChain, c: AntiChain,
                     cab: seq<AntiChain>, cac: seq<AntiChain>, cbc: seq<AntiChain>,
                     cabacbc: seq<AntiChain>, abc: AntiChain)
    requires Meet3(a, b, c) == abc && cabacbc != []
    requires Count(Join(a, cabacbc[0]), Join(b, cabacbc[0]), c, cab, cac, cbc, cabacbc[1..], abc)
             <= Distribute(Join(a, cabacbc[0]), Join(b, cabacbc[0]), c, cab, cac, cbc, cabacbc[1..], abc)
    requires Count(Join(a, cabacbc[0]), b, Join(c, cabacbc[0]), cab, cac, cbc, cabacbc[1..], abc)
             <= Distribute(Join(a, cabacbc[0]), b, Join(c, cabacbc[0]), cab, cac, cbc, cabacbc[1..], abc)
    requires Count(a, Join(b, cabacbc[0]), Join(c, cabacbc[0]), cab, cac, cbc, cabacbc[1..], abc)
             <= Distribute(a, Join(b, cabacbc[0]), Join(c, cabacbc[0]), cab, cac, cbc, cabacbc[1..], abc)
    ensures Count(a, b, c, cab, cac, cbc, cabacbc, abc) <= Distribute(a, b, c, cab, cac, cbc, cabacbc, abc)
  {
    var ss, rest := cabacbc[0], cabacbc[1..];
    var ab := Count(Join(a, ss), Join(b, ss), c, cab, cac, cbc, rest, abc);
    var ac := Count(Join(a, ss), b, Join(c, ss), cab, cac, cbc, rest, abc);
    var bc := Count(a, Join(b, ss), Join(c, ss), cab, cac, cbc, rest, abc);
    var ina, inb, inc := Above(ss, a, abc), Above(ss, b, abc), Above(ss, c, abc);
    var r := Count(a, b, c, cab, cac, cbc, cabacbc, abc);
    if ina && inb && inc {
      assert r == 0;
    } else if ina && inb {
      assert r == ab;
    } else if ina && inc {
      assert r == ac;
    } else if inb && inc {
      assert r == bc;
    } else if ina {
      assert r == ab + ac;
    } else if inb {
      assert r == ab + bc;
    } else if inc {
      assert r == ac + bc;
    } else {
      assert r == ab + ac + bc;
    }
  }

  lemma Meet3Ge(a: AntiChain, b: AntiChain, c: AntiChain, s: set<int>)
    ensures Ge(Meet3(a, b, c), s) <==> Ge(a, s) && Ge(b, s) && Ge(c, s)
  {
    MeetGe(Meet(a, b), c, s);
    MeetGe(a, b, s);
  }

  /** Joining more into the chains can only raise their triple meet. */
  lemma Meet3Grows(a: AntiChain, b: AntiChain, c: AntiChain, a2: AntiChain, b2: AntiChain, c2: AntiChain)
    requires DownBelow(a, a2) && DownBelow(b, b2) && DownBelow(c, c2)
    ensures Le(Meet3(a, b, c), Meet3(a2, b2, c2))
  {
    forall s | Ge(Meet3(a, b, c), s) ensures Ge(Meet3(a2, b2, c2), s) {
      Meet3Ge(a, b, c, s);
      Meet3Ge(a2, b2, c2, s);
    }
    LeIffDownBelow(Meet3(a, b, c), Meet3(a2, b2, c2));
  }

  lemma JoinAbove(a: AntiChain, x: AntiChain)
    ensures DownBelow(a, Join(a, x)) && DownBelow(x, Join(a, x))
  {
    forall s ensures Ge(a, s) ==> Ge(Join(a, x), s) {
      JoinGe(a, x, s);
    }
    forall s ensures Ge(x, s) ==> Ge(Join(a, x), s) {
      JoinGe(a, x, s);
    }
  }

  lemma DownBelowRefl(a: AntiChain)
    ensures DownBelow(a, a)
  {
  }

  /** Once the triple meet has left the down-set of `abc`, no distribution reaches `abc`. */
  lemma {:induction false} DistributeZero(a: AntiChain, b: AntiChain, c: AntiChain,
                                          cab: seq<AntiChain>, cac: seq<AntiChain>, cbc: seq<AntiChain>,
                                          cabacbc: seq<AntiChain>, abc: AntiChain)
    requires !Le(Meet3(a, b, c), abc)
    ensures Distribute(a, b, c, cab, cac, cbc, cabacbc, abc) == 0
    decreases |cab| + |cac| + |cbc| + |cabacbc|
  {
    if cabacbc != [] {
      var ss, rest := cabacbc[0], cabacbc[1..];
      StillAbove(a, b, c, Join(a, ss), Join(b, ss), c, abc);
      DistributeZero(Join(a, ss), Join(b, ss), c, cab, cac, cbc, rest, abc);
      StillAbove(a, b, c, Join(a, ss), b, Join(c, ss), abc);
      DistributeZero(Join(a, ss), b, Join(c, ss), cab, cac, cbc, rest, abc);
      StillAbove(a, b, c, a, Join(b, ss), Join(c, ss), abc);
      DistributeZero(a, Join(b, ss), Join(c, ss), cab, cac, cbc, rest, abc);
    } else if cab != [] {
      var ss := cab[0];
      StillAbove(a, b, c, Join(a, ss), b, c, abc);
      DistributeZero(Join(a, ss), b, c, cab[1..], cac, cbc, cabacbc, abc);
      StillAbove(a, b, c, a, Join(b, ss), c, abc);
      DistributeZero(a, Join(b, ss), c, cab[1..], cac, cbc, cabacbc, abc);
    } else if cac != [] {
      var ss := cac[0];
      StillAbove(a, b, c, Join(a, ss), b, c, abc);
      DistributeZero(Join(a, ss), b, c, cab, cac[1..], cbc, cabacbc, abc);
      StillAbove(a, b, c, a, b, Join(c, ss), abc);
      DistributeZero(a, b, Join(c, ss), cab, cac[1..], cbc, cabacbc, abc);
    } else if cbc != [] {
      var ss := cbc[0];
      StillAbove(a, b, c, a, Join(b, ss), c, abc);
      DistributeZero(a, Join(b, ss), c, cab, cac, cbc[1..], cabacbc, abc);
      StillAbove(a, b, c, a, b, Join(c, ss), abc);
      DistributeZero(a, b, Join(c, ss), cab, cac, cbc[1..], cabacbc, abc);
    } else {
      LeRefl(abc);
    }
  }

  lemma LeRefl(a: AntiChain)
    ensures Le(a, a)
  {
    forall s | s in a ensures Ge(a, s) {
      assert s <= s;
    }
  }

  /** Growing chains keep a triple meet that is outside the down-set of `abc` outside it. */
  lemma StillAbove(a: AntiChain, b: AntiChain, c: AntiChain, a2: AntiChain, b2: AntiChain, c2: AntiChain, abc: AntiChain)
    requires a2 == a || (exists x :: a2 == Join(a, x))
    requires b2 == b || (exists x :: b2 == Join(b, x))
    requires c2 == c || (exists x :: c2 == Join(c, x))
    ensures !Le(Meet3(a, b, c), abc) ==> !Le(Meet3(a2, b2, c2), abc)
  {
    Grown(a, a2);
    Grown(b, b2);
    Grown(c, c2);
    Meet3Grows(a, b, c, a2, b2, c2);
    if Le(Meet3(a2, b2, c2), abc) {
      LeTransitive(Meet3(a, b, c), Meet3(a2, b2, c2), abc);
    }
  }

  lemma Grown(a: AntiChain, a2: AntiChain)
    requires a2 == a || (exists x :: a2 == Join(a, x))
    ensures DownBelow(a, a2)
  {
    if a2 != a {
      var x :| a2 == Join(a, x);
      JoinAbove(a, x);
    }
  }

  /**
   * A shared component that meets chain `x` above `abc` cannot go into the
   * other two chains: the triple meet would then contain `ss meet x`.
   */
  lemma PairMissingZero(x: AntiChain, y: AntiChain, z: AntiChain, ss: AntiChain,
                        cab: seq<AntiChain>, cac: seq<AntiChain>, cbc: seq<AntiChain>,
                        rest: seq<AntiChain>, abc: AntiChain, which: nat)
    requires which < 3
    requires Above(ss, [x, y, z][which], abc)
    ensures which == 0 ==> Distribute(x, Join(y, ss), Join(z, ss), cab, cac, cbc, rest, abc) == 0
    ensures which == 1 ==> Distribute(Join(x, ss), y, Join(z, ss), cab, cac, cbc, rest, abc) == 0
    ensures which == 2 ==> Distribute(Join(x, ss), Join(y, ss), z, cab, cac, cbc, rest, abc) == 0
  {
    var w := [x, y, z][which];
    var a2 := if which == 0 then x else Join(x, ss);
    var b2 := if which == 1 then y else Join(y, ss);
    var c2 := if which == 2 then z else Join(z, ss);
    JoinAbove(x, ss);
    JoinAbove(y, ss);
    JoinAbove(z, ss);
    forall s | Ge(Meet(ss, w), s) ensures Ge(Meet3(a2, b2, c2), s) {
      MeetGe(ss, w, s);
      Meet3Ge(a2, b2, c2, s);
    }
    LeIffDownBelow(Meet(ss, w), Meet3(a2, b2, c2));
    if Le(Meet3(a2, b2, c2), abc) {
      LeTransitive(Meet(ss, w), Meet3(a2, b2, c2), abc);
    }
    DistributeZero(a2, b2, c2, cab, cac, cbc, rest, abc);
  }

  /**
   * With only shared components left, the forcing loses nothing: starting
   * from a triple meet at or above `abc`, the counter equals the unpruned
   * enumeration.
   */
  lemma {:induction false} CountSharedExact(a: AntiChain, b: AntiChain, c: AntiChain,
                                            cabacbc: seq<AntiChain>, abc: AntiChain)
    requires IsAntiChain(abc) && Le(abc, Meet3(a, b, c))
    ensures Count(a, b, c, [], [], [], cabacbc, abc) == Distribute(a, b, c, [], [], [], cabacbc, abc)
    decreases |cabacbc|
  {
    var m := Meet3(a, b, c);
    if m != abc {
      if Le(m, abc) {
        LeAntisymmetric(m, abc);
      }
      DistributeZero(a, b, c, [], [], [], cabacbc, abc);
    } else if cabacbc != [] {
      var ss, rest := cabacbc[0], cabacbc[1..];
      var e: seq<AntiChain> := [];
      SharedStep(a, b, c, ss, Join(a, ss), Join(b, ss), c, abc);
      SharedStep(a, b, c, ss, Join(a, ss), b, Join(c, ss), abc);
      SharedStep(a, b, c, ss, a, Join(b, ss), Join(c, ss), abc);
      CountSharedExact(Join(a, ss), Join(b, ss), c, rest, abc);
      CountSharedExact(Join(a, ss), b, Join(c, ss), rest, abc);
      CountSharedExact(a, Join(b, ss), Join(c, ss), rest, abc);
      if Above(ss, a, abc) {
        PairMissingZero(a, b, c, ss, e, e, e, rest, abc, 0);
      }
      if Above(ss, b, abc) {
        PairMissingZero(a, b, c, ss, e, e, e, rest, abc, 1);
      }
      if Above(ss, c, abc) {
        PairMissingZero(a, b, c, ss, e, e, e, rest, abc, 2);
      }
    }
  }

  /** A child of the recursion keeps its triple meet at or above `abc`. */
  lemma SharedStep(a: AntiChain, b: AntiChain, c: AntiChain, ss: AntiChain,
                   a2: AntiChain, b2: AntiChain, c2: AntiChain, abc: AntiChain)
    requires Le(abc, Meet3(a, b, c))
    requires a2 == a || a2 == Join(a, ss)
    requires b2 == b || b2 == Join(b, ss)
    requires c2 == c || c2 == Join(c, ss)
    ensures Le(abc, Meet3(a2, b2, c2))
  {
    JoinAbove(a, ss);
    JoinAbove(b, ss);
    JoinAbove(c, ss);
    Meet3Grows(a, b, c, a2, b2, c2);
    LeTransitive(abc, Meet3(a, b, c), Meet3(a2, b2, c2));
  }

  /** Every check of `pab` passes: each of its sets lies below `pacbc` or occurs in `pac` or `pbc`. */
  method SingleCheck(pacbc: AntiChain, pac: AntiChain, pbc: AntiChain, pab: AntiChain) returns (ok: bool)
    ensures ok <==> forall s | s in pab :: Ge(pacbc, s) || s in pac || s in pbc
  {
    var todo := pab;
    while todo != {}
      invariant todo <= pab
      invariant forall s | s in pab - todo :: Ge(pacbc, s) || s in pac || s in pbc
      decreases |todo|
    {
      var s :| s in todo;
      if !Ge(pacbc, s) && s !in pac && s !in pbc {
        return false;
      }
      todo := todo - {s};
    }
    return true;
  }

  /** No component is forced into two chains. */
  method CheckUnique(ina: set<AntiChain>, inb: set<AntiChain>, inc: set<AntiChain>) returns (ok: bool)
    ensures ok <==> ina !! inb && ina !! inc && inb !! inc
  {
    var todo := ina;
    while todo != {}
      invariant todo <= ina
      invariant forall x | x in ina - todo :: x !in inb && x !in inc
      decreases |todo|
    {
      var x :| x in todo;
      if x in inb || x in inc {
        return false;
      }
      todo := todo - {x};
    }
    todo := inb;
    while todo != {}
      invariant todo <= inb
      invariant ina !! inb && ina !! inc
      invariant forall x | x in inb - todo :: x !in inc
      decreases |todo|
    {
      var x :| x in todo;
      if x in ina || x in inc {
        return false;
      }
      todo := todo - {x};
    }
    todo := inc;
    while todo != {}
      invariant todo <= inc
      invariant ina !! inb && ina !! inc && inb !! inc
      decreases |todo|
    {
      var x :| x in todo;
      if x in inb || x in ina {
        return false;
      }
      todo := todo - {x};
    }
    return true;
  }

  /** `x` meets some member of `ys` above `abc`. */
  predicate HitsSome(x: AntiChain, ys: set<AntiChain>, abc: AntiChain)
  {
    exists y | y in ys :: Above(x, y, abc)
  }

  /** Some member of `xs` meets `y` above `abc`. */
  predicate HitBySome(xs: set<AntiChain>, y: AntiChain, abc: AntiChain)
  {
    exists x | x in xs :: Above(x, y, abc)
  }

  /** The members of `xs` that meet some member of `ys` above `abc`. */
  function Firsts(xs: set<AntiChain>, ys: set<AntiChain>, abc: AntiChain): set<AntiChain>
  {
    set x | x in xs && HitsSome(x, ys, abc)
  }

  /** The members of `ys` that meet some member of `xs` above `abc`. */
  function Seconds(xs: set<AntiChain>, ys: set<AntiChain>, abc: AntiChain): set<AntiChain>
  {
    set y | y in ys && HitBySome(xs, y, abc)
  }

  /** The members of `ys` that `x` meets above `abc`. */
  function Hits(x: AntiChain, ys: set<AntiChain>, abc: AntiChain): set<AntiChain>
  {
    set y | y in ys && Above(x, y, abc)
  }

  /**
   * The nested loop over pairs of components: both components of every
   * pair that meets above `abc` are collected, the first into `firsts`,
   * the second into `seconds`.
   */
  method ConflictingPairs(xs: set<AntiChain>, ys: set<AntiChain>, abc: AntiChain)
    returns (firsts: set<AntiChain>, seconds: set<AntiChain>)
    ensures firsts == Firsts(xs, ys, abc)
    ensures seconds == Seconds(xs, ys, abc)
  {
    firsts, seconds := {}, {};
    var outer := xs;
    while outer != {}
      invariant outer <= xs
      invariant firsts == Firsts(xs - outer, ys, abc)
      invariant seconds == Seconds(xs - outer, ys, abc)
      decreases |outer|
    {
      var x :| x in outer;
      var hit, found := ConflictsOf(x, ys, abc);
      seconds := seconds + found;
      if hit {
        firsts := firsts + {x};
      }
      PairStep(xs, ys, outer, x, abc);
      outer := outer - {x};
    }
    NothingLeft(xs);
  }

  /** The inner loop: the members of `ys` that `x` meets above `abc`. */
  method ConflictsOf(x: AntiChain, ys: set<AntiChain>, abc: AntiChain) returns (hit: bool, found: set<AntiChain>)
    ensures hit == HitsSome(x, ys, abc)
    ensures found == Hits(x, ys, abc)
  {
    var inner := ys;
    hit, found := false, {};
    NoneDone(x, ys, abc);
    while inner != {}
      invariant inner <= ys
      invariant hit <==> HitsSome(x, ys - inner, abc)
      invariant found == Hits(x, ys - inner, abc)
      decreases |inner|
    {
      var y :| y in inner;
      HitsStep(x, ys, inner, y, abc);
      if Above(x, y, abc) {
        hit := true;
        found := found + {y};
      }
      inner := inner - {y};
    }
    NothingLeft(ys);
  }

  lemma NoneDone(x: AntiChain, ys: set<AntiChain>, abc: AntiChain)
    ensures Hits(x, ys - ys, abc) == {} && !HitsSome(x, ys - ys, abc)
  {
    assert ys - ys == {};
  }

  lemma NothingLeft<T>(s: set<T>)
    ensures s - {} == s
  {
  }

  lemma HitsStep(x: AntiChain, ys: set<AntiChain>, inner: set<AntiChain>, y: AntiChain, abc: AntiChain)
    requires y in inner && inner <= ys
    ensures HitsSome(x, ys - (inner - {y}), abc) <==> HitsSome(x, ys - inner, abc) || Above(x, y, abc)
    ensures Hits(x, ys - (inner - {y}), abc)
            == Hits(x, ys - inner, abc) + (if Above(x, y, abc) then {y} else {})
  {
    assert ys - (inner - {y}) == (ys - inner) + {y};
  }

  lemma PairStep(xs: set<AntiChain>, ys: set<AntiChain>, outer: set<AntiChain>, x: AntiChain, abc: AntiChain)
    requires x in outer && outer <= xs
    ensures Firsts(xs - (outer - {x}), ys, abc)
            == Firsts(xs - outer, ys, abc) + (if HitsSome(x, ys, abc) then {x} else {})
    ensures Seconds(xs - (outer - {x}), ys, abc) == Seconds(xs - outer, ys, abc) + Hits(x, ys, abc)
  {
    var done := xs - outer;
    assert xs - (outer - {x}) == done + {x};
    forall y | y in ys
      ensures HitBySome(done + {x}, y, abc) <==> HitBySome(done, y, abc) || Above(x, y, abc)
    {
      if HitBySome(done + {x}, y, abc) {
        var z :| z in done + {x} && Above(z, y, abc);
      }
    }
  }

  /** `mu`, `nu` and `eta` outside `abc`, with the sets common to all three taken apart. */
  datatype Parts = Parts(pab: AntiChain, pac: AntiChain, pbc: AntiChain, shared: AntiChain)

  function SplitParts(abc: AntiChain, mu: AntiChain, nu: AntiChain, eta: AntiChain): (p: Parts)
    ensures p.shared == (mu * nu * eta) - abc
    ensures p.pab + p.shared == mu - abc && p.pab !! p.shared
    ensures p.pac + p.shared == nu - abc && p.pac !! p.shared
    ensures p.pbc + p.shared == eta - abc && p.pbc !! p.shared
    ensures p.pab * p.pac * p.pbc == {}
  {
    var shared := (mu - abc) * (nu - abc) * (eta - abc);
    Parts((mu - abc) - shared, (nu - abc) - shared, (eta - abc) - shared, shared)
  }

  /** The sets of all antichains in `xs`. */
  function Flatten(xs: set<AntiChain>): set<set<int>>
  {
    set t, x | x in xs && t in x :: t
  }

  /** `a` joined with every member of `xs`. */
  function JoinAll(a: AntiChain, xs: set<AntiChain>): (r: AntiChain)
    ensures IsAntiChain(r)
  {
    Maximal(a + Flatten(xs))
  }

  /** The join of a family generates the union of the down-sets. */
  lemma JoinAllGe(a: AntiChain, xs: set<AntiChain>, s: set<int>)
    ensures Ge(JoinAll(a, xs), s) <==> Ge(a, s) || exists x | x in xs :: Ge(x, s)
  {
    MaximalGe(a + Flatten(xs), s);
    if x :| x in xs && Ge(x, s) {
      var t :| t in x && s <= t;
      assert t in Flatten(xs);
    }
    if t :| t in Flatten(xs) && s <= t {
      var x :| x in xs && t in x;
      assert Ge(x, s);
    }
  }

  /** Joining one more member is joining the larger family. */
  lemma JoinAllStep(a: AntiChain, done: set<AntiChain>, x: AntiChain)
    ensures Join(JoinAll(a, done), x) == JoinAll(a, done + {x})
  {
    var l, r := Join(JoinAll(a, done), x), JoinAll(a, done + {x});
    forall s ensures Ge(l, s) <==> Ge(r, s) {
      JoinGe(JoinAll(a, done), x, s);
      JoinAllGe(a, done, s);
      JoinAllGe(a, done + {x}, s);
      if y :| y in done + {x} && Ge(y, s) {
        if y != x {
          assert y in done;
        }
      }
    }
    LeIffDownBelow(l, r);
    LeIffDownBelow(r, l);
    LeAntisymmetric(l, r);
  }

  lemma JoinAllNone(a: AntiChain)
    requires IsAntiChain(a)
    ensures JoinAll(a, {}) == a
  {
    forall s ensures Ge(JoinAll(a, {}), s) <==> Ge(a, s) {
      JoinAllGe(a, {}, s);
    }
    LeIffDownBelow(a, JoinAll(a, {}));
    LeIffDownBelow(JoinAll(a, {}), a);
    LeAntisymmetric(a, JoinAll(a, {}));
  }

  /** The loop `for (x : xs) a = a.join(x)`, in whatever order the set yields. */
  method JoinEach(a: AntiChain, xs: set<AntiChain>) returns (r: AntiChain)
    requires IsAntiChain(a)
    ensures r == JoinAll(a, xs)
  {
    r := a;
    var todo := xs;
    JoinAllNone(a);
    assert xs - todo == {};
    while todo != {}
      invariant todo <= xs
      invariant r == JoinAll(a, xs - todo)
      decreases |todo|
    {
      var x :| x in todo;
      JoinAllStep(a, xs - todo, x);
      assert (xs - todo) + {x} == xs - (todo - {x});
      r := Join(r, x);
      todo := todo - {x};
    }
    NothingLeft(xs);
  }

  /** Lists the members of a sorted set; the order is left open. */
  method Enumerate(s: set<AntiChain>) returns (r: seq<AntiChain>)
    ensures |r| == |s|
    ensures forall x :: x in r <==> x in s
    ensures forall i, j :: 0 <= i < j < |r| ==> r[i] != r[j]
  {
    r := [];
    var todo := s;
    while todo != {}
      invariant todo <= s
      invariant |r| + |todo| == |s|
      invariant forall x :: x in r <==> x in s - todo
      invariant forall i, j :: 0 <= i < j < |r| ==> r[i] != r[j]
      decreases |todo|
    {
      var x :| x in todo;
      assert x !in r;
      r := r + [x];
      todo := todo - {x};
    }
  }

  lemma BelowAll(abc: AntiChain, a: AntiChain, b: AntiChain, c: AntiChain)
    requires Le(abc, a) && Le(abc, b) && Le(abc, c)
    ensures Le(abc, Meet3(a, b, c))
  {
    MeetIsGlb(a, b, abc);
    MeetIsGlb(Meet(a, b), c, abc);
  }

  lemma JoinAllAbove(abc: AntiChain, a: AntiChain, xs: set<AntiChain>)
    requires Le(abc, a)
    ensures Le(abc, JoinAll(a, xs))
  {
    forall s | Ge(a, s) ensures Ge(JoinAll(a, xs), s) {
      JoinAllGe(a, xs, s);
    }
    LeIffDownBelow(a, JoinAll(a, xs));
    LeTransitive(abc, a, JoinAll(a, xs));
  }

  /** The first sets of `a`, `b` and `c`: those shared by two of the chains, with `abc`. */
  function Seed(abc: AntiChain, p: Parts): (t: (AntiChain, AntiChain, AntiChain))
    ensures Le(abc, t.0) && Le(abc, t.1) && Le(abc, t.2)
    ensures Le(p.pab * p.pac, t.0) && Le(p.pab * p.pbc, t.1) && Le(p.pac * p.pbc, t.2)
  {
    JoinIsLub(p.pab * p.pac, abc, abc);
    JoinIsLub(p.pab * p.pbc, abc, abc);
    JoinIsLub(p.pac * p.pbc, abc, abc);
    (Join(p.pab * p.pac, abc), Join(p.pab * p.pbc, abc), Join(p.pac * p.pbc, abc))
  }

  /**
   * Forces the components that clash with a component of another pair
   * into a chain and joins them in; `ok` is false when some component is
   * forced into two chains.
   */
  method Force(abc: AntiChain, a0: AntiChain, b0: AntiChain, c0: AntiChain,
               cab: set<AntiChain>, cac: set<AntiChain>, cbc: set<AntiChain>)
    returns (ok: bool, a: AntiChain, b: AntiChain, c: AntiChain,
             ina: set<AntiChain>, inb: set<AntiChain>, inc: set<AntiChain>)
    requires IsAntiChain(a0) && IsAntiChain(b0) && IsAntiChain(c0)
    ensures ina == Firsts(cab, cbc, abc) + Firsts(cac, cbc, abc)
    ensures inb == Firsts(cab, cac, abc) + Seconds(cac, cbc, abc)
    ensures inc == Seconds(cab, cac, abc) + Seconds(cab, cbc, abc)
    ensures ok <==> ina !! inb && ina !! inc && inb !! inc
    ensures ok ==> a == JoinAll(a0, ina) && b == JoinAll(b0, inb) && c == JoinAll(c0, inc)
    ensures Le(abc, a0) && Le(abc, b0) && Le(abc, c0) ==> Le(abc, Meet3(a, b, c))
  {
    var inb1, inc1 := ConflictingPairs(cab, cac, abc);
    var ina2, inc2 := ConflictingPairs(cab, cbc, abc);
    var ina3, inb3 := ConflictingPairs(cac, cbc, abc);
    ina, inb, inc := ina2 + ina3, inb1 + inb3, inc1 + inc2;
    ok := CheckUnique(ina, inb, inc);
    a, b, c := a0, b0, c0;
    if ok {
      a := JoinEach(a0, ina);
      b := JoinEach(b0, inb);
      c := JoinEach(c0, inc);
    }
    if Le(abc, a0) && Le(abc, b0) && Le(abc, c0) {
      JoinAllAbove(abc, a0, ina);
      JoinAllAbove(abc, b0, inb);
      JoinAllAbove(abc, c0, inc);
      BelowAll(abc, a, b, c);
    }
  }

  /**
   * The order-3 p-coefficient for `abc` under `(mu, nu, eta)`: the sets in
   * two of the three chains fix where they go, components that clash with
   * a component of another pair are forced, and `Count` branches over the
   * rest. `IsNonZero` is the caller's precondition in the program; the
   * model takes any arguments.
   */
  method P(abc: AntiChain, mu: AntiChain, nu: AntiChain, eta: AntiChain)
    returns (r: nat, a: AntiChain, b: AntiChain, c: AntiChain,
             ina: set<AntiChain>, inb: set<AntiChain>, inc: set<AntiChain>,
             sab: seq<AntiChain>, sac: seq<AntiChain>, sbc: seq<AntiChain>, sshared: seq<AntiChain>)
    ensures var t := Seed(abc, SplitParts(abc, mu, nu, eta)); Meet3(t.0, t.1, t.2) != abc ==> r == 0
    ensures !(ina !! inb && ina !! inc && inb !! inc) ==> r == 0
    ensures r <= Distribute(a, b, c, sab, sac, sbc, sshared, abc)
    ensures Le(abc, Meet3(a, b, c))
    ensures IsAntiChain(abc) && sab == [] && sac == [] && sbc == [] && ina !! inb && ina !! inc && inb !! inc ==>
              r == Distribute(a, b, c, sab, sac, sbc, sshared, abc)
  {
    var p := SplitParts(abc, mu, nu, eta);
    var t := Seed(abc, p);
    a, b, c := t.0, t.1, t.2;
    ina, inb, inc, sab, sac, sbc, sshared := {}, {}, {}, [], [], [], [];
    BelowAll(abc, a, b, c);
    if Meet3(a, b, c) != abc {
      CountBounded(a, b, c, sab, sac, sbc, sshared, abc);
      return 0, a, b, c, ina, inb, inc, sab, sac, sbc, sshared;
    }
    var cab := GetConnectedComponents(abc, p.pab - Join(a, b));
    var cac := GetConnectedComponents(abc, p.pac - Join(a, c));
    var cbc := GetConnectedComponents(abc, p.pbc - Join(b, c));
    var ok;
    ok, a, b, c, ina, inb, inc := Force(abc, a, b, c, cab, cac, cbc);
    if !ok {
      return 0, a, b, c, ina, inb, inc, sab, sac, sbc, sshared;
    }
    var shared := GetConnectedComponents(abc, p.shared);
    sab := Enumerate(cab - ina - inb);
    sac := Enumerate(cac - ina - inc);
    sbc := Enumerate(cbc - inb - inc);
    sshared := Enumerate(shared);
    r := Count(a, b, c, sab, sac, sbc, sshared, abc);
    CountBounded(a, b, c, sab, sac, sbc, sshared, abc);
  }

  /** What the driver needs about the counter: both bounds and the exact case. */
  lemma CountBounded(a: AntiChain, b: AntiChain, c: AntiChain,
                     sab: seq<AntiChain>, sac: seq<AntiChain>, sbc: seq<AntiChain>,
                     sshared: seq<AntiChain>, abc: AntiChain)
    requires Le(abc, Meet3(a, b, c))
    ensures Count(a, b, c, sab, sac, sbc, sshared, abc) <= Distribute(a, b, c, sab, sac, sbc, sshared, abc)
    ensures IsAntiChain(abc) && sab == [] && sac == [] && sbc == [] ==>
              Count(a, b, c, sab, sac, sbc, sshared, abc) == Distribute(a, b, c, sab, sac, sbc, sshared, abc)
  {
    CountAtMostDistribute(a, b, c, sab, sac, sbc, sshared, abc);
    if IsAntiChain(abc) && sab == [] && sac == [] && sbc == [] {
      CountSharedExact(a, b, c, sshared, abc);
    }
  }
}
