/**
 * Antichains of finite sets of positive integers. An antichain stands for a
 * monotone Boolean function through its extreme points; what the algorithms
 * use is the down-set it generates:
 * `Ge(a, s)` holds when some member of `a` contains `s`. Join and meet are
 * the maximal elements of the union and of the pairwise intersections, and
 * `Le` is inclusion of the generated down-sets.
 */
module AntiChains {

  type AntiChain = set<set<int>>

  ghost predicate IsAntiChain(a: AntiChain)
  {
    forall x, y :: x in a && y in a && x <= y ==> x == y
  }

  /** `s` lies below some member of `a`. */
  predicate Ge(a: AntiChain, s: set<int>)
  {
    exists t | t in a :: s <= t
  }

  /** Every member of `a` lies below some member of `b`. */
  predicate Le(a: AntiChain, b: AntiChain)
  {
    forall s | s in a :: Ge(b, s)
  }

  /** `x` is a member of `S` with no proper superset in `S`. */
  predicate IsTop(x: set<int>, S: set<set<int>>)
  {
    x in S && forall y | y in S :: !(x < y)
  }

  function Maximal(S: set<set<int>>): (r: AntiChain)
    ensures r <= S
    ensures IsAntiChain(r)
  {
    set x | x in S && IsTop(x, S)
  }

  function Join(a: AntiChain, b: AntiChain): (r: AntiChain)
    ensures IsAntiChain(r)
  {
    Maximal(a + b)
  }

  function Intersections(a: AntiChain, b: AntiChain): set<set<int>>
  {
    set x, y | x in a && y in b :: x * y
  }

  function Meet(a: AntiChain, b: AntiChain): (r: AntiChain)
    ensures IsAntiChain(r)
  {
    Maximal(Intersections(a, b))
  }

  /** Down-set inclusion: everything below `a` is below `b`. */
  ghost predicate DownBelow(a: AntiChain, b: AntiChain)
  {
    forall s :: Ge(a, s) ==> Ge(b, s)
  }

  function Above(S: set<set<int>>, s: set<int>): set<set<int>>
  {
    set y | y in S && s < y
  }

  /** Every member of a finite family lies below one of its maximal members. */
  lemma {:induction false} MaximalCovers(S: set<set<int>>, s: set<int>)
    requires s in S
    ensures Ge(Maximal(S), s)
    decreases |Above(S, s)|
  {
    if IsTop(s, S) {
      assert s in Maximal(S);
    } else {
      var y :| y in S && s < y;
      assert Above(S, y) <= Above(S, s) - {y} by {
        forall z | z in Above(S, y) ensures z in Above(S, s) - {y} {
        }
      }
      SubsetCard(Above(S, y), Above(S, s) - {y});
      MaximalCovers(S, y);
      var t :| t in Maximal(S) && y <= t;
      assert s <= t;
    }
  }

  lemma {:induction false} SubsetCard<T>(a: set<T>, b: set<T>)
    requires a <= b
    ensures |a| <= |b|
    decreases |b|
  {
    if b != {} {
      var x :| x in b;
      SubsetCard(a - {x}, b - {x});
    }
  }

  /** Taking maximal elements does not change the generated down-set. */
  lemma MaximalGe(S: set<set<int>>, s: set<int>)
    ensures Ge(Maximal(S), s) <==> exists t | t in S :: s <= t
  {
    if t :| t in S && s <= t {
      MaximalCovers(S, t);
      var m :| m in Maximal(S) && t <= m;
      assert s <= m;
    }
  }

  /** The join generates the union of the two down-sets. */
  lemma JoinGe(a: AntiChain, b: AntiChain, s: set<int>)
    ensures Ge(Join(a, b), s) <==> Ge(a, s) || Ge(b, s)
  {
    MaximalGe(a + b, s);
  }

  /** The meet generates the intersection of the two down-sets. */
  lemma MeetGe(a: AntiChain, b: AntiChain, s: set<int>)
    ensures Ge(Meet(a, b), s) <==> Ge(a, s) && Ge(b, s)
  {
    MaximalGe(Intersections(a, b), s);
    if Ge(a, s) && Ge(b, s) {
      var x :| x in a && s <= x;
      var y :| y in b && s <= y;
      assert x * y in Intersections(a, b);
    }
    if t :| t in Intersections(a, b) && s <= t {
      var x, y :| x in a && y in b && t == x * y;
      assert s <= x && s <= y;
    }
  }

  /** `Le` is exactly inclusion of the generated down-sets. */
  lemma LeIffDownBelow(a: AntiChain, b: AntiChain)
    ensures Le(a, b) <==> DownBelow(a, b)
  {
    if Le(a, b) {
      forall s | Ge(a, s) ensures Ge(b, s) {
        var t :| t in a && s <= t;
        var u :| u in b && t <= u;
        assert s <= u;
      }
    }
    if DownBelow(a, b) {
      forall s | s in a ensures Ge(b, s) {
        assert s <= s;
        assert Ge(a, s);
      }
    }
  }

  lemma LeTransitive(a: AntiChain, b: AntiChain, c: AntiChain)
    requires Le(a, b) && Le(b, c)
    ensures Le(a, c)
  {
    LeIffDownBelow(a, b);
    LeIffDownBelow(b, c);
    LeIffDownBelow(a, c);
  }

  /** On antichains `Le` is antisymmetric, so it is a partial order. */
  lemma LeAntisymmetric(a: AntiChain, b: AntiChain)
    requires IsAntiChain(a) && IsAntiChain(b)
    requires Le(a, b) && Le(b, a)
    ensures a == b
  {
    LeBackAndForth(a, b);
    LeBackAndForth(b, a);
  }

  lemma LeBackAndForth(a: AntiChain, b: AntiChain)
    requires IsAntiChain(a)
    requires Le(a, b) && Le(b, a)
    ensures a <= b
  {
    forall x | x in a ensures x in b {
      assert Ge(b, x);
      var y :| y in b && x <= y;
      assert Ge(a, y);
      var z :| z in a && y <= z;
      assert x <= z;
      assert x == z;
      assert y == x;
    }
  }

  /** The join is the least upper bound for `Le`. */
  lemma JoinIsLub(a: AntiChain, b: AntiChain, c: AntiChain)
    ensures Le(a, Join(a, b)) && Le(b, Join(a, b))
    ensures Le(a, c) && Le(b, c) <==> Le(Join(a, b), c)
  {
    var j := Join(a, b);
    forall s ensures Ge(j, s) <==> Ge(a, s) || Ge(b, s) {
      JoinGe(a, b, s);
    }
    LeIffDownBelow(a, j);
    LeIffDownBelow(b, j);
    LeIffDownBelow(a, c);
    LeIffDownBelow(b, c);
    LeIffDownBelow(j, c);
  }

  /** The meet is the greatest lower bound for `Le`. */
  lemma MeetIsGlb(a: AntiChain, b: AntiChain, c: AntiChain)
    ensures Le(Meet(a, b), a) && Le(Meet(a, b), b)
    ensures Le(c, a) && Le(c, b) <==> Le(c, Meet(a, b))
  {
    var m := Meet(a, b);
    forall s ensures Ge(m, s) <==> Ge(a, s) && Ge(b, s) {
      MeetGe(a, b, s);
    }
    LeIffDownBelow(m, a);
    LeIffDownBelow(m, b);
    LeIffDownBelow(c, a);
    LeIffDownBelow(c, b);
    LeIffDownBelow(c, m);
  }

  /** A total order on antichains, as `compareTo` promises: zero exactly on equal arguments. */
  ghost predicate IsTotalOrder(cmp: (AntiChain, AntiChain) -> int)
  {
    && (forall x, y :: ZeroIffEqual(cmp, x, y))
    && (forall x, y :: SignFlips(cmp, x, y))
    && (forall x, y, z :: Transitive(cmp, x, y, z))
  }

  ghost predicate ZeroIffEqual(cmp: (AntiChain, AntiChain) -> int, x: AntiChain, y: AntiChain)
  {
    cmp(x, y) == 0 <==> x == y
  }

  ghost predicate SignFlips(cmp: (AntiChain, AntiChain) -> int, x: AntiChain, y: AntiChain)
  {
    cmp(x, y) < 0 <==> cmp(y, x) > 0
  }

  ghost predicate Transitive(cmp: (AntiChain, AntiChain) -> int, x: AntiChain, y: AntiChain, z: AntiChain)
  {
    cmp(x, y) < 0 && cmp(y, z) < 0 ==> cmp(x, z) < 0
  }

  /** An antichain codec whose decoder inverts its encoder. */
  ghost predicate RoundTrips(encode: AntiChain -> int, decode: int -> AntiChain)
  {
    forall a :: decode(encode(a)) == a
  }
}
