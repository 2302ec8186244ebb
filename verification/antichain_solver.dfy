/**
 * The conflict graph of a family of sets relative to an antichain, its
 * connected components found by depth-first search, and the coefficient
 * built from the number of components.
 */
module AntiChainSolver {
  import opened AntiChains
  import opened Combinatorics
  import opened Wrappers

  type Vertex = set<int>

  /** A directed graph as an adjacency map; the search below is generic in the vertex type. */
  type Graph<V> = map<V, set<V>>

  /** Every neighbour is itself a vertex. */
  ghost predicate WellFormed<V(!new)>(g: Graph<V>)
  {
    forall v {:trigger g[v]} :: v in g ==> g[v] <= g.Keys
  }

  /**
   * `r2`'s members, each linked to the members `s` whose intersection with
   * it is not below any set of `r1`.
   */
  function BuildGraph(r1: AntiChain, r2: AntiChain): (g: Graph<Vertex>)
    ensures g.Keys == r2
    ensures WellFormed(g)
    ensures forall r, s :: r in r2 && s in r2 ==> (s in g[r] <==> !Ge(r1, r * s))
  {
    map r | r in r2 :: set s | s in r2 && !Ge(r1, r * s)
  }

  /** The conflict relation only looks at `r * s`, so it is symmetric. */
  lemma BuildGraphSymmetric(r1: AntiChain, r2: AntiChain, r: Vertex, s: Vertex)
    requires r in r2 && s in r2
    ensures s in BuildGraph(r1, r2)[r] <==> r in BuildGraph(r1, r2)[s]
  {
    assert r * s == s * r;
  }

  lemma GeBelow(a: AntiChain, x: set<int>, y: set<int>)
    requires y <= x
    ensures Ge(a, x) ==> Ge(a, y)
  {
    if Ge(a, x) {
      var t :| t in a && x <= t;
      assert y <= t;
    }
  }

  /** Both ends of an edge lie outside `r1`'s down-set. */
  lemma BuildGraphEdges(r1: AntiChain, r2: AntiChain, r: Vertex, s: Vertex)
    requires r in r2 && s in BuildGraph(r1, r2)[r]
    ensures !Ge(r1, r) && !Ge(r1, s)
  {
    GeBelow(r1, r, r * s);
    GeBelow(r1, s, r * s);
  }

  predicate Edge<V(!new)>(g: Graph<V>, a: V, b: V)
  {
    a in g && b in g[a]
  }

  ghost predicate IsPath<V(!new)>(g: Graph<V>, p: seq<V>)
  {
    |p| >= 1 && forall i :: 0 <= i < |p| - 1 ==> Edge(g, p[i], p[i + 1])
  }

  /** `b` can be reached from `a` along zero or more edges. */
  ghost predicate Reach<V(!new)>(g: Graph<V>, a: V, b: V)
  {
    exists p :: IsPath(g, p) && p[0] == a && p[|p| - 1] == b
  }

  lemma ReachRefl<V(!new)>(g: Graph<V>, a: V)
    ensures Reach(g, a, a)
  {
    assert IsPath(g, [a]);
  }

  lemma ReachTrans<V(!new)>(g: Graph<V>, a: V, b: V, c: V)
    requires Reach(g, a, b) && Reach(g, b, c)
    ensures Reach(g, a, c)
  {
    var p :| IsPath(g, p) && p[0] == a && p[|p| - 1] == b;
    var q :| IsPath(g, q) && q[0] == b && q[|q| - 1] == c;
    var pq := p + q[1..];
    forall i | 0 <= i < |pq| - 1 ensures Edge(g, pq[i], pq[i + 1]) {
      if i >= |p| - 1 {
        assert pq[i] == q[i - |p| + 1] && pq[i + 1] == q[i - |p| + 2];
        assert Edge(g, q[i - |p| + 1], q[i - |p| + 2]);
      } else {
        assert Edge(g, p[i], p[i + 1]);
      }
    }
    assert IsPath(g, pq) && pq[0] == a && pq[|pq| - 1] == c;
  }

  lemma ReachEdge<V(!new)>(g: Graph<V>, a: V, b: V)
    requires a in g && b in g[a]
    ensures Reach(g, a, b)
  {
    assert Edge(g, [a, b][0], [a, b][1]);
    assert IsPath(g, [a, b]);
  }

  /** One edge followed by a path is a path. */
  lemma ReachEdgeThen<V(!new)>(g: Graph<V>, a: V, m: V, v: V)
    requires a in g && m in g[a] && Reach(g, m, v)
    ensures Reach(g, a, v)
  {
    ReachEdge(g, a, m);
    ReachTrans(g, a, m, v);
  }

  /** `had` is closed under the edges of `g`. */
  ghost predicate IsClosed<V(!new)>(g: Graph<V>, had: set<V>)
  {
    forall v {:trigger g[v]} :: v in had ==> v in g && g[v] <= had
  }

  /** Nothing outside a closed set can be reached from inside it. */
  lemma ClosedKeepsReach<V(!new)>(g: Graph<V>, had: set<V>, a: V, b: V)
    requires IsClosed(g, had) && a in had
    ensures Reach(g, a, b) ==> b in had
  {
    if Reach(g, a, b) {
      var p :| IsPath(g, p) && p[0] == a && p[|p| - 1] == b;
      var i := 0;
      while i < |p| - 1
        invariant 0 <= i <= |p| - 1
        invariant p[i] in had
      {
        assert Edge(g, p[i], p[i + 1]);
        i := i + 1;
      }
    }
  }

  lemma Shrinks<V(!new)>(keys: set<V>, had: set<V>, had2: set<V>, m: V)
    requires had <= had2 && m in had2 && m !in had && m in keys
    ensures |keys - had2| < |keys - had|
  {
    SubsetCard(keys - had2, keys - had - {m});
  }

  /**
   * Marks everything reachable from `n` that is not yet marked. The newly
   * marked vertices are reachable from `n`, and they (with `n`) have all
   * their neighbours marked on return.
   */
  method DoNode<V(!new)>(g: Graph<V>, n: V, had: set<V>) returns (had2: set<V>)
    requires WellFormed(g) && n in had && had <= g.Keys
    ensures had <= had2 <= g.Keys
    ensures forall v :: v in had2 - had ==> Reach(g, n, v)
    ensures forall v :: v in (had2 - had) + {n} ==> g[v] <= had2
    decreases |g.Keys - had|
  {
    had2 := had;
    var todo := g[n];
    while todo != {}
      invariant todo <= g[n]
      invariant had <= had2 <= g.Keys
      invariant g[n] - todo <= had2
      invariant forall v :: v in had2 - had ==> Reach(g, n, v)
      invariant forall v :: v in had2 - had ==> g[v] <= had2
      decreases |todo|
    {
      var m :| m in todo;
      todo := todo - {m};
      if m !in had2 {
        var marked := had2 + {m};
        Shrinks(g.Keys, had, marked, m);
        var had3 := DoNode(g, m, marked);
        forall v | v in had3 - had ensures Reach(g, n, v) {
          if v !in had2 {
            if v == m {
              ReachEdge(g, n, m);
            } else {
              ReachEdgeThen(g, n, m, v);
            }
          }
        }
        had2 := had3;
      }
    }
  }

  /** Every vertex of `had` is reachable from one of `starts`. */
  ghost predicate Covers<V(!new)>(g: Graph<V>, starts: seq<V>, had: set<V>)
  {
    forall v :: v in had ==> exists i :: 0 <= i < |starts| && Reach(g, starts[i], v)
  }

  /** No start is reachable from an earlier one. */
  ghost predicate Independent<V(!new)>(g: Graph<V>, starts: seq<V>)
  {
    forall i, j :: 0 <= i < j < |starts| ==> !Reach(g, starts[i], starts[j])
  }

  /** A fresh start outside a closed marked set keeps the starts independent. */
  lemma IndependentExtend<V(!new)>(g: Graph<V>, starts: seq<V>, had: set<V>, n: V)
    requires IsClosed(g, had) && n !in had && Independent(g, starts)
    requires forall i {:trigger starts[i] in had} :: 0 <= i < |starts| ==> starts[i] in had
    ensures Independent(g, starts + [n])
  {
    forall i | 0 <= i < |starts| ensures !Reach(g, starts[i], n) {
      ClosedKeepsReach(g, had, starts[i], n);
    }
    var s := starts + [n];
    forall i, j | 0 <= i < j < |s| ensures !Reach(g, s[i], s[j]) {
      if j == |starts| {
        assert s[j] == n && s[i] == starts[i];
      } else {
        assert s[i] == starts[i] && s[j] == starts[j];
      }
    }
  }

  /** What one more search from a fresh start adds keeps the marked set covered and closed. */
  lemma SearchExtends<V(!new)>(g: Graph<V>, starts: seq<V>, had: set<V>, n: V, had2: set<V>)
    requires Covers(g, starts, had) && IsClosed(g, had)
    requires had + {n} <= had2 && had2 <= g.Keys
    requires forall v :: v in had2 - (had + {n}) ==> Reach(g, n, v)
    requires forall v :: v in (had2 - (had + {n})) + {n} ==> g[v] <= had2
    ensures Covers(g, starts + [n], had2) && IsClosed(g, had2)
  {
    var s := starts + [n];
    forall v | v in had2 ensures exists i :: 0 <= i < |s| && Reach(g, s[i], v) {
      if v in had {
        var i :| 0 <= i < |starts| && Reach(g, starts[i], v);
        assert s[i] == starts[i];
      } else {
        if v == n {
          ReachRefl(g, n);
        }
        assert s[|starts|] == n;
      }
    }
  }

  /**
   * Counts the start vertices of a depth-first marking of the whole graph.
   * The starts (a ghost record) are vertices, none reachable from an earlier
   * one, and every vertex is reachable from one of them: on a symmetric graph
   * they are one vertex per connected component.
   */
  method CountConnected<V(!new)>(g: Graph<V>) returns (ret: nat, ghost starts: seq<V>)
    requires WellFormed(g)
    ensures ret == |starts| && ret <= |g.Keys|
    ensures ret == 0 <==> g.Keys == {}
    ensures Representatives(g, starts)
    ensures Symmetric(g) ==> ComponentsNumber(g, ret)
  {
    var had: set<V> := {};
    var todo := g.Keys;
    ret, starts := 0, [];
    while todo != {}
      invariant Counted(g, todo, had, ret, starts)
      decreases |todo|
    {
      todo, had, ret, starts := CountStep(g, todo, had, ret, starts);
    }
    SubsetCard(had, g.Keys);
    NoStartsNoVertices(g, starts, had);
    if Symmetric(g) {
      RepresentativesCount(g, starts);
    }
  }

  /** The state of the component count with `todo` left: `had` is closed and covered by independent starts. */
  ghost predicate Counted<V(!new)>(g: Graph<V>, todo: set<V>, had: set<V>, ret: nat, starts: seq<V>)
  {
    && todo <= g.Keys && had <= g.Keys
    && g.Keys - todo <= had
    && IsClosed(g, had)
    && ret == |starts| <= |had|
    && (forall i {:trigger starts[i] in had} :: 0 <= i < |starts| ==> starts[i] in had)
    && Independent(g, starts)
    && Covers(g, starts, had)
  }

  /** One vertex of the outer loop: an unmarked vertex starts a new search and is counted. */
  method CountStep<V(!new)>(g: Graph<V>, todo0: set<V>, had0: set<V>, ret0: nat, ghost starts0: seq<V>)
    returns (todo: set<V>, had: set<V>, ret: nat, ghost starts: seq<V>)
    requires WellFormed(g) && todo0 != {} && Counted(g, todo0, had0, ret0, starts0)
    ensures Counted(g, todo, had, ret, starts) && |todo| < |todo0|
  {
    var n :| n in todo0;
    todo, had, ret, starts := todo0 - {n}, had0, ret0, starts0;
    if n !in had {
      IndependentExtend(g, starts, had, n);
      var had2 := DoNode(g, n, had + {n});
      GrowsByOne(had, n, had2);
      SearchExtends(g, starts, had, n, had2);
      starts := starts + [n];
      ret := ret + 1;
      had := had2;
    }
  }

  lemma NoStartsNoVertices<V(!new)>(g: Graph<V>, starts: seq<V>, had: set<V>)
    requires Covers(g, starts, had)
    requires forall i {:trigger starts[i] in had} :: 0 <= i < |starts| ==> starts[i] in had
    ensures |starts| == 0 <==> had == {}
  {
    if had != {} {
      var v :| v in had;
      var i :| 0 <= i < |starts| && Reach(g, starts[i], v);
    }
    if |starts| > 0 {
      assert starts[0] in had;
    }
  }

  lemma GrowsByOne<V>(had: set<V>, n: V, had2: set<V>)
    requires n !in had && had + {n} <= had2
    ensures |had| + 1 <= |had2|
  {
    SubsetCard(had + {n}, had2);
  }

  /**
   * Depth-first closure from `b`: marks as `DoNode` does, and also collects
   * into `bSet` every neighbour of every vertex it expands.
   */
  method CloseNode<V(!new)>(g: Graph<V>, b: V, bSet: set<V>, had: set<V>)
    returns (bSet2: set<V>, had2: set<V>)
    requires WellFormed(g) && b in had && had <= g.Keys && bSet <= g.Keys
    ensures had <= had2 <= g.Keys && bSet <= bSet2 <= g.Keys
    ensures had2 - had <= bSet2
    ensures forall v :: v in (had2 - had) + (bSet2 - bSet) ==> Reach(g, b, v)
    ensures forall v :: v in bSet2 - bSet ==> HasInEdge(g, v)
    ensures forall v :: v in (had2 - had) + {b} ==> g[v] <= had2 && g[v] <= bSet2
    decreases |g.Keys - had|
  {
    bSet2, had2 := bSet, had;
    var todo := g[b];
    while todo != {}
      invariant todo <= g[b]
      invariant had <= had2 <= g.Keys && bSet <= bSet2 <= g.Keys
      invariant g[b] - todo <= had2 && g[b] - todo <= bSet2
      invariant had2 - had <= bSet2
      invariant forall v :: v in (had2 - had) + (bSet2 - bSet) ==> Reach(g, b, v)
      invariant forall v :: v in bSet2 - bSet ==> HasInEdge(g, v)
      invariant forall v :: v in had2 - had ==> g[v] <= had2 && g[v] <= bSet2
      decreases |todo|
    {
      var m :| m in todo;
      todo := todo - {m};
      ReachEdge(g, b, m);
      bSet2 := bSet2 + {m};
      if m !in had2 {
        var marked := had2 + {m};
        Shrinks(g.Keys, had, marked, m);
        var bSet3, had3 := CloseNode(g, m, bSet2, marked);
        forall v | v in (had3 - had) + (bSet3 - bSet) ensures Reach(g, b, v) {
          if v !in (had2 - had) + (bSet2 - bSet) && v != m {
            ReachEdgeThen(g, b, m, v);
          }
        }
        bSet2, had2 := bSet3, had3;
      }
    }
  }

  ghost predicate HasInEdge<V(!new)>(g: Graph<V>, v: V)
  {
    exists u :: u in g && v in g[u]
  }

  /** Each root's set: reachable from it, entered by an edge, holding its neighbours. */
  ghost predicate RootSets<V(!new)>(g: Graph<V>, ret: map<V, set<V>>)
  {
    && (forall r :: r in ret ==> r in g && g[r] <= ret[r] <= g.Keys)
    && (forall r, v :: r in ret && v in ret[r] ==> Reach(g, r, v) && HasInEdge(g, v))
  }

  /** The roots, in the order they were taken, are exactly the keys of the result. */
  ghost predicate Enumerates<V(!new)>(roots: seq<V>, ret: map<V, set<V>>)
  {
    && (forall i :: 0 <= i < |roots| ==> roots[i] in ret)
    && (forall r :: r in ret ==> exists i :: 0 <= i < |roots| && roots[i] == r)
  }

  /** Every vertex of `had` is a root or lies in some root's set. */
  ghost predicate Assigned<V(!new)>(ret: map<V, set<V>>, had: set<V>)
  {
    forall v :: v in had ==> v in ret || exists r :: r in ret && v in ret[r]
  }

  lemma ClosureExtends<V(!new)>(g: Graph<V>, roots: seq<V>, ret: map<V, set<V>>, had: set<V>,
                          b: V, bSet: set<V>, had2: set<V>)
    requires WellFormed(g) && b in g && b !in had && ret.Keys <= had
    requires Enumerates(roots, ret) && RootSets(g, ret) && Assigned(ret, had) && IsClosed(g, had)
    requires had + {b} <= had2 <= g.Keys && bSet <= g.Keys
    requires had2 - (had + {b}) <= bSet
    requires forall v :: v in bSet ==> Reach(g, b, v) && HasInEdge(g, v)
    requires forall v :: v in (had2 - (had + {b})) + {b} ==> g[v] <= had2 && g[v] <= bSet
    ensures Enumerates(roots + [b], ret[b := bSet]) && RootSets(g, ret[b := bSet])
    ensures Assigned(ret[b := bSet], had2) && IsClosed(g, had2)
    ensures ret[b := bSet].Keys <= had2
  {
    var ret2, roots2 := ret[b := bSet], roots + [b];
    forall r | r in ret2 ensures exists i :: 0 <= i < |roots2| && roots2[i] == r {
      if r != b {
        var i :| 0 <= i < |roots| && roots[i] == r;
        assert roots2[i] == r;
      } else {
        assert roots2[|roots|] == b;
      }
    }
    forall i | 0 <= i < |roots2| ensures roots2[i] in ret2 {
      if i < |roots| {
        assert roots2[i] == roots[i];
      }
    }
    forall v | v in had2 ensures v in ret2 || exists r :: r in ret2 && v in ret2[r] {
      if v in had && v !in ret {
        var r :| r in ret && v in ret[r];
        assert r in ret2 && v in ret2[r];
      } else if v !in had && v != b {
        assert v in ret2[b];
      }
    }
  }

  /**
   * One depth-first closure per unmarked vertex: the result maps each root
   * to the vertices its closure collected. Roots are vertices, no root is
   * reachable from an earlier one, a root's set holds only vertices reachable
   * from it and includes its neighbours, and every vertex is a root or lies in
   * some root's set.
   */
  method TransitiveClosure<V(!new)>(g: Graph<V>) returns (ret: map<V, set<V>>, ghost roots: seq<V>)
    requires WellFormed(g)
    ensures ret.Keys <= g.Keys
    ensures Enumerates(roots, ret) && Independent(g, roots)
    ensures RootSets(g, ret)
    ensures Assigned(ret, g.Keys)
  {
    var had: set<V> := {};
    var todo := g.Keys;
    ret, roots := map[], [];
    while todo != {}
      invariant todo <= g.Keys && had <= g.Keys
      invariant g.Keys - todo <= had
      invariant IsClosed(g, had) && ret.Keys <= had
      invariant forall i {:trigger roots[i] in had} :: 0 <= i < |roots| ==> roots[i] in had
      invariant Enumerates(roots, ret) && Independent(g, roots)
      invariant RootSets(g, ret) && Assigned(ret, had)
      decreases |todo|
    {
      var b :| b in todo;
      todo := todo - {b};
      if b !in had {
        IndependentExtend(g, roots, had, b);
        var bSet, had2 := CloseNode(g, b, {}, had + {b});
        ClosureExtends(g, roots, ret, had, b, bSet, had2);
        ret := ret[b := bSet];
        roots := roots + [b];
        had := had2;
      }
    }
  }

  /** The families the closure collected, one per root. */
  function Components<V>(ret: map<V, set<V>>): set<set<V>>
  {
    set r | r in ret :: ret[r]
  }

  /** `s` and `t` lie in one member of `comps`. */
  ghost predicate Together<V>(comps: set<set<V>>, s: V, t: V)
  {
    exists c :: c in comps && s in c && t in c
  }

  /**
   * The components of `f`'s conflict graph relative to `modulo`: each is a
   * subfamily of `f` outside `modulo`'s down-set, every member of `f`
   * outside that down-set lies in some component, distinct components are
   * disjoint, and such a member shares a component with exactly the sets it
   * is connected to.
   */
  method GetConnectedComponents(modulo: AntiChain, f: AntiChain) returns (comps: set<AntiChain>)
    ensures forall c, s :: c in comps && s in c ==> s in f && !Ge(modulo, s)
    ensures forall s :: s in f && !Ge(modulo, s) ==> exists c :: c in comps && s in c
    ensures forall c1, c2 :: c1 in comps && c2 in comps && c1 != c2 ==> c1 !! c2
    ensures forall s, t :: s in f && !Ge(modulo, s) ==>
              (Together(comps, s, t) <==> Reach(BuildGraph(modulo, f), s, t))
  {
    var g := BuildGraph(modulo, f);
    var ret, roots := TransitiveClosure(g);
    comps := Components(ret);
    ComponentsInside(modulo, f, ret);
    ComponentsCover(modulo, f, ret);
    BuildGraphIsSymmetric(modulo, f);
    ComponentsDisjoint(g, roots, ret);
    forall s, t | s in f && !Ge(modulo, s) ensures Together(comps, s, t) <==> Reach(g, s, t) {
      ComponentsConnect(modulo, f, roots, ret, s, t);
    }
  }

  /** Every edge of the graph has its reverse. */
  ghost predicate Symmetric<V(!new)>(g: Graph<V>)
  {
    forall a, b {:trigger b in g[a]} :: a in g && b in g[a] ==> b in g && a in g[b]
  }

  lemma BuildGraphIsSymmetric(r1: AntiChain, r2: AntiChain)
    ensures Symmetric(BuildGraph(r1, r2))
  {
    var g := BuildGraph(r1, r2);
    forall a, b | a in g && b in g[a] ensures b in g && a in g[b] {
      BuildGraphSymmetric(r1, r2, a, b);
    }
  }

  /** A path read backwards is a path when every edge has its reverse. */
  lemma {:induction false} PathBack<V(!new)>(g: Graph<V>, p: seq<V>)
    requires Symmetric(g) && IsPath(g, p)
    ensures Reach(g, p[|p| - 1], p[0])
    decreases |p|
  {
    if |p| == 1 {
      ReachRefl(g, p[0]);
    } else {
      var q := p[1..];
      forall i | 0 <= i < |q| - 1 ensures Edge(g, q[i], q[i + 1]) {
        assert Edge(g, p[i + 1], p[i + 2]);
      }
      PathBack(g, q);
      assert Edge(g, p[0], p[1]);
      ReachEdge(g, p[1], p[0]);
      ReachTrans(g, p[|p| - 1], p[1], p[0]);
    }
  }

  lemma ReachSymmetric<V(!new)>(g: Graph<V>, a: V, b: V)
    requires Symmetric(g) && Reach(g, a, b)
    ensures Reach(g, b, a)
  {
    var p :| IsPath(g, p) && p[0] == a && p[|p| - 1] == b;
    PathBack(g, p);
  }

  /** A vertex reached from a different one is entered by an edge. */
  lemma ReachEntered<V(!new)>(g: Graph<V>, a: V, b: V)
    requires Reach(g, a, b) && a != b
    ensures HasInEdge(g, b)
  {
    var p :| IsPath(g, p) && p[0] == a && p[|p| - 1] == b;
    assert Edge(g, p[|p| - 2], p[|p| - 1]);
  }

  /** On a symmetric graph no root of the closure reaches another. */
  lemma RootsApart<V(!new)>(g: Graph<V>, roots: seq<V>, ret: map<V, set<V>>, r: V, r': V)
    requires Symmetric(g) && Enumerates(roots, ret) && Independent(g, roots)
    requires r in ret && r' in ret && r != r'
    ensures !Reach(g, r, r')
  {
    var i :| 0 <= i < |roots| && roots[i] == r;
    var j :| 0 <= j < |roots| && roots[j] == r';
    if j < i && Reach(g, r, r') {
      ReachSymmetric(g, r, r');
    }
  }

  /** The sets of two different roots share no vertex. */
  lemma ComponentsDisjoint<V(!new)>(g: Graph<V>, roots: seq<V>, ret: map<V, set<V>>)
    requires Symmetric(g) && Enumerates(roots, ret) && Independent(g, roots) && RootSets(g, ret)
    ensures forall c1, c2 :: c1 in Components(ret) && c2 in Components(ret) && c1 != c2 ==>
              c1 !! c2
  {
    forall r, r' | r in ret && r' in ret && ret[r] != ret[r'] ensures ret[r] !! ret[r'] {
      forall v | v in ret[r] ensures v !in ret[r'] {
        if v in ret[r'] {
          ReachSymmetric(g, r', v);
          ReachTrans(g, r, v, r');
          RootsApart(g, roots, ret, r, r');
        }
      }
    }
  }

  /** Two vertices in one root's set are connected. */
  lemma TogetherReaches<V(!new)>(g: Graph<V>, ret: map<V, set<V>>, s: V, t: V)
    requires Symmetric(g) && RootSets(g, ret) && Together(Components(ret), s, t)
    ensures Reach(g, s, t)
  {
    var c :| c in Components(ret) && s in c && t in c;
    var r :| r in ret && c == ret[r];
    ReachSymmetric(g, r, s);
    ReachTrans(g, s, r, t);
  }

  /** A vertex reached from a vertex of one root's set lies in no other root's set. */
  lemma ReachStaysWithRoot<V(!new)>(g: Graph<V>, roots: seq<V>, ret: map<V, set<V>>, r: V, r': V, s: V, t: V)
    requires Symmetric(g) && Enumerates(roots, ret) && Independent(g, roots) && RootSets(g, ret)
    requires r in ret && r' in ret && s in ret[r] && t in ret[r'] && Reach(g, s, t)
    ensures r == r'
  {
    if r != r' {
      ReachTrans(g, r, s, t);
      ReachSymmetric(g, r', t);
      ReachTrans(g, r, t, r');
      RootsApart(g, roots, ret, r, r');
    }
  }

  /** A member of `f` outside the down-set shares a component with exactly what it reaches. */
  lemma ComponentsConnect(modulo: AntiChain, f: AntiChain, roots: seq<Vertex>, ret: map<Vertex, set<Vertex>>,
                          s: Vertex, t: Vertex)
    requires Enumerates(roots, ret) && Independent(BuildGraph(modulo, f), roots)
    requires RootSets(BuildGraph(modulo, f), ret) && Assigned(ret, f)
    requires s in f && !Ge(modulo, s)
    ensures Together(Components(ret), s, t) <==> Reach(BuildGraph(modulo, f), s, t)
  {
    var g := BuildGraph(modulo, f);
    BuildGraphIsSymmetric(modulo, f);
    if Together(Components(ret), s, t) {
      TogetherReaches(g, ret, s, t);
    }
    if Reach(g, s, t) {
      ReachIsTogether(modulo, f, roots, ret, s, t);
    }
  }

  lemma ReachIsTogether(modulo: AntiChain, f: AntiChain, roots: seq<Vertex>, ret: map<Vertex, set<Vertex>>,
                        s: Vertex, t: Vertex)
    requires Symmetric(BuildGraph(modulo, f))
    requires Enumerates(roots, ret) && Independent(BuildGraph(modulo, f), roots)
    requires RootSets(BuildGraph(modulo, f), ret) && Assigned(ret, f)
    requires s in f && !Ge(modulo, s) && Reach(BuildGraph(modulo, f), s, t)
    ensures Together(Components(ret), s, t)
  {
    var g := BuildGraph(modulo, f);
    var r := CoveringRoot(modulo, f, ret, s);
    if t != s {
      ReachEntered(g, s, t);
      var u :| u in g && t in g[u];
      BuildGraphEdges(modulo, f, u, t);
    }
    var r' := CoveringRoot(modulo, f, ret, t);
    ReachStaysWithRoot(g, roots, ret, r, r', s, t);
    assert ret[r] in Components(ret);
  }

  /** The root whose set holds a member of `f` outside the down-set. */
  lemma CoveringRoot(modulo: AntiChain, f: AntiChain, ret: map<Vertex, set<Vertex>>, s: Vertex) returns (r: Vertex)
    requires RootSets(BuildGraph(modulo, f), ret) && Assigned(ret, f)
    requires s in f && !Ge(modulo, s)
    ensures r in ret && s in ret[r]
  {
    ComponentsCover(modulo, f, ret);
    var c :| c in Components(ret) && s in c;
    r :| r in ret && c == ret[r];
  }

  lemma ComponentsInside(modulo: AntiChain, f: AntiChain, ret: map<Vertex, set<Vertex>>)
    requires RootSets(BuildGraph(modulo, f), ret)
    ensures forall c, s :: c in Components(ret) && s in c ==> s in f && !Ge(modulo, s)
  {
    var g := BuildGraph(modulo, f);
    forall c, s | c in Components(ret) && s in c ensures s in f && !Ge(modulo, s) {
      var r :| r in ret && c == ret[r];
      assert HasInEdge(g, s);
      var u :| u in g && s in g[u];
      BuildGraphEdges(modulo, f, u, s);
    }
  }

  lemma ComponentsCover(modulo: AntiChain, f: AntiChain, ret: map<Vertex, set<Vertex>>)
    requires RootSets(BuildGraph(modulo, f), ret) && Assigned(ret, f)
    ensures forall s :: s in f && !Ge(modulo, s) ==> exists c :: c in Components(ret) && s in c
  {
    var g := BuildGraph(modulo, f);
    var comps := Components(ret);
    forall s | s in f && !Ge(modulo, s) ensures exists c :: c in comps && s in c {
      assert s * s == s;
      assert s in g[s];
      if s in ret {
        assert ret[s] in comps;
      } else {
        var r :| r in ret && s in ret[r];
        assert ret[r] in comps;
      }
    }
  }

  /** `Integer.MIN_VALUE`, the value of `1 << 31`. */
  const IntMin: int := -0x8000_0000

  /** Java's `int` shift `1 << n`: the distance is taken modulo 32 and bit 31 is the sign. */
  function JavaIntShift(n: nat): (r: int)
    ensures n % 32 < 31 ==> r == Pow2(n % 32)
    ensures n % 32 == 31 ==> r < 0
  {
    var k := n % 32;
    if k == 31 then IntMin else Pow2(k)
  }

  /**
   * The number of solutions `x, y` of `x join y == r2` with `x meet y == r1`,
   * as the source computes it: 0 unless `r1 <= r2`, 1 when equal, 2 when only
   * `r1` is empty, and otherwise one doubling per connected component of the
   * conflict graph of `r2 \ r1` relative to `r1` — through an `int` shift.
   */
  method PatricksCoefficientAsWritten(r1: AntiChain, r2: AntiChain) returns (c: int, ghost components: nat)
    ensures !Le(r1, r2) ==> c == 0
    ensures Le(r1, r2) && r1 == r2 ==> c == 1
    ensures Le(r1, r2) && r1 != r2 && r1 == {} ==> c == 2
    ensures Le(r1, r2) && r1 != r2 && r1 != {} ==>
              c == JavaIntShift(components) && ComponentsNumber(BuildGraph(r1, r2 - r1), components)
  {
    components := 0;
    if !Le(r1, r2) {
      return 0, components;
    }
    if r1 == r2 {
      return 1, components;
    }
    if r1 == {} {
      return 2, components;
    }
    var n := ComponentCount(r1, r2 - r1);
    components := n;
    c := JavaIntShift(n);
  }

  /** As above, with the doubling computed in unbounded arithmetic. */
  method PatricksCoefficient(r1: AntiChain, r2: AntiChain) returns (c: nat, ghost components: nat)
    ensures !Le(r1, r2) ==> c == 0
    ensures Le(r1, r2) && r1 == r2 ==> c == 1
    ensures Le(r1, r2) && r1 != r2 && r1 == {} ==> c == 2
    ensures Le(r1, r2) && r1 != r2 && r1 != {} ==>
              c == Pow2(components) && ComponentsNumber(BuildGraph(r1, r2 - r1), components)
    ensures Le(r1, r2) && r1 != r2 && r1 != {} ==> components <= |r2 - r1| && (components == 0 <==> r2 <= r1)
  {
    DiffEmpty(r2, r1);
    components := 0;
    if !Le(r1, r2) {
      return 0, components;
    }
    if r1 == r2 {
      return 1, components;
    }
    if r1 == {} {
      return 2, components;
    }
    var n := ComponentCount(r1, r2 - r1);
    components := n;
    c := Pow2(n);
  }

  lemma DiffEmpty<T>(a: set<T>, b: set<T>)
    ensures a - b == {} <==> a <= b
  {
    if a <= b {
      assert forall x :: x !in a - b;
    }
    if a - b == {} {
      forall x | x in a ensures x in b {
        assert x !in a - b;
      }
    }
  }

  /**
   * `CountConnected(graph(r1, f))`: the number of connected components of the
   * conflict graph of `f` relative to `r1`.
   */
  method ComponentCount(r1: AntiChain, f: AntiChain) returns (n: nat)
    ensures ComponentsNumber(BuildGraph(r1, f), n)
    ensures n <= |f|
    ensures n == 0 <==> f == {}
  {
    var g := BuildGraph(r1, f);
    ghost var starts: seq<Vertex>;
    n, starts := CountConnected(g);
    ConflictComponents(r1, f, starts);
  }

  /** On the symmetric conflict graph, the starts of the search count its components. */
  lemma ConflictComponents(r1: AntiChain, f: AntiChain, starts: seq<Vertex>)
    requires Representatives(BuildGraph(r1, f), starts)
    ensures ComponentsNumber(BuildGraph(r1, f), |starts|)
  {
    BuildGraphIsSymmetric(r1, f);
    RepresentativesCount(BuildGraph(r1, f), starts);
  }

  /** A family of representatives fixes the number of components. */
  lemma RepresentativesCount<V(!new)>(g: Graph<V>, starts: seq<V>)
    requires Symmetric(g) && Representatives(g, starts)
    ensures ComponentsNumber(g, |starts|)
  {
    forall t | Representatives(g, t) ensures |t| == |starts| {
      RepresentativesAgree(g, starts, t);
    }
  }

  /** One start per connected component: vertices, none reaching another, together reaching every vertex. */
  ghost predicate Representatives<V(!new)>(g: Graph<V>, starts: seq<V>)
  {
    && (forall i :: 0 <= i < |starts| ==> starts[i] in g)
    && Independent(g, starts)
    && Covers(g, starts, g.Keys)
  }

  /** `g` has `n` connected components: some family of representatives has n members, and every family does. */
  ghost predicate ComponentsNumber<V(!new)>(g: Graph<V>, n: nat)
  {
    && (exists t :: Representatives(g, t) && |t| == n)
    && (forall t :: Representatives(g, t) ==> |t| == n)
  }

  /** On a symmetric graph any two families of representatives have the same size. */
  lemma RepresentativesAgree<V(!new)>(g: Graph<V>, s: seq<V>, t: seq<V>)
    requires Symmetric(g) && Representatives(g, s) && Representatives(g, t)
    ensures |s| == |t|
  {
    RepresentativesAtMost(g, s, t);
    RepresentativesAtMost(g, t, s);
  }

  /** Each start of `s` is reached from a start of `t`, and no two of them from the same one. */
  lemma RepresentativesAtMost<V(!new)>(g: Graph<V>, s: seq<V>, t: seq<V>)
    requires Symmetric(g) && Independent(g, s) && Covers(g, t, g.Keys)
    requires forall i :: 0 <= i < |s| ==> s[i] in g
    ensures |s| <= |t|
  {
    var h: seq<nat> := [];
    while |h| < |s|
      invariant |h| <= |s|
      invariant forall i :: 0 <= i < |h| ==> Assigned1(g, s, t, h, i)
    {
      var j := CoveringStart(g, t, s[|h|]);
      ghost var h0 := h;
      h := h + [j];
      forall i | 0 <= i < |h| ensures Assigned1(g, s, t, h, i) {
        if i < |h0| {
          assert h[i] == h0[i] && Assigned1(g, s, t, h0, i);
        }
      }
    }
    forall i | 0 <= i < |h| ensures h[i] < |t| {
      assert Assigned1(g, s, t, h, i);
    }
    forall i, k | 0 <= i < k < |h| ensures h[i] != h[k] {
      assert Assigned1(g, s, t, h, i) && Assigned1(g, s, t, h, k);
      SharedStartClash(g, s, t[h[i]], i, k);
    }
    InjectiveBound(h, |t|);
  }

  /** Start h[i] of `t` reaches start i of `s`. */
  ghost predicate Assigned1<V(!new)>(g: Graph<V>, s: seq<V>, t: seq<V>, h: seq<nat>, i: nat)
    requires i < |h| && i < |s|
  {
    h[i] < |t| && Reach(g, t[h[i]], s[i])
  }

  /** The start of `t` that reaches a vertex. */
  lemma CoveringStart<V(!new)>(g: Graph<V>, t: seq<V>, v: V) returns (j: nat)
    requires Covers(g, t, g.Keys) && v in g
    ensures j < |t| && Reach(g, t[j], v)
  {
    j :| 0 <= j < |t| && Reach(g, t[j], v);
  }

  /** Two independent starts are never reached from one vertex. */
  lemma SharedStartClash<V(!new)>(g: Graph<V>, s: seq<V>, u: V, i: nat, k: nat)
    requires Symmetric(g) && Independent(g, s) && i < k < |s|
    ensures !(Reach(g, u, s[i]) && Reach(g, u, s[k]))
  {
    if Reach(g, u, s[i]) && Reach(g, u, s[k]) {
      ReachSymmetric(g, u, s[i]);
      ReachTrans(g, s[i], u, s[k]);
    }
  }

  /** Pigeonholes: pairwise different numbers below k are at most k many. */
  lemma {:induction false} InjectiveBound(h: seq<nat>, k: nat)
    requires forall i :: 0 <= i < |h| ==> h[i] < k
    requires forall i, j :: 0 <= i < j < |h| ==> h[i] != h[j]
    ensures |h| <= k
    decreases k
  {
    if h != [] {
      assert h[0] < k;
      var top := k - 1;
      if p :| 0 <= p < |h| && h[p] == top {
        var rest := h[..p] + h[p + 1..];
        assert forall i :: 0 <= i < |rest| ==> rest[i] == (if i < p then h[i] else h[i + 1]);
        InjectiveBound(rest, top);
      } else {
        InjectiveBound(h, top);
      }
    }
  }

  /** The two versions agree exactly when fewer than 31 components are doubled. */
  lemma ShiftAgreesBelow31(n: nat)
    ensures n < 31 ==> JavaIntShift(n) == Pow2(n)
    ensures n >= 31 ==> JavaIntShift(n) != Pow2(n)
  {
    var k := n % 32;
    if n < 31 {
      assert k == n;
    } else if k < 31 {
      Pow2Strict(k, n);
    }
  }

  /** Thirty-one components give a negative coefficient, thirty-five give 2^3. */
  lemma ShiftWraps()
    ensures JavaIntShift(31) < 0
    ensures JavaIntShift(35) == 8 && Pow2(35) > 8
  {
    assert 35 % 32 == 3;
    assert Pow2(3) == 8;
    Pow2Strict(3, 35);
  }

  /**
   * The per-order maps of equivalence classes: map 0 holds the two canonical
   * codes stored into an empty map, and map n + 1 is derived from map n by
   * the next-order step. A negative order fails, as the array allocation or
   * the store into slot 0 does in the source.
   */
  method EquivalenceClasses(till: int, store: (map<int, int>, int) -> map<int, int>,
                            emptyFunction: int, emptySetFunction: int,
                            next: (nat, map<int, int>) -> map<int, int>)
    returns (r: Result<seq<map<int, int>>, string>)
    ensures till < 0 <==> r.Failure?
    ensures r.Success? ==> |r.value| == till + 1
    ensures r.Success? ==> r.value[0] == store(store(map[], emptyFunction), emptySetFunction)
    ensures r.Success? ==> forall n :: 0 <= n < till ==> r.value[n + 1] == next(n, r.value[n])
  {
    if till < 0 {
      return Failure(if till + 1 < 0 then "NegativeArraySizeException" else "ArrayIndexOutOfBoundsException");
    }
    var reS := [store(store(map[], emptyFunction), emptySetFunction)];
    var n := 0;
    while n < till
      invariant 0 <= n <= till && |reS| == n + 1
      invariant reS[0] == store(store(map[], emptyFunction), emptySetFunction)
      invariant forall k :: 0 <= k < n ==> reS[k + 1] == next(k, reS[k])
    {
      reS := reS + [next(n, reS[n])];
      n := n + 1;
    }
    return Success(reS);
  }
}
