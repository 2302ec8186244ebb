/**
 * The memoised transitive closure behind `IntervalPoset.getAfter` and
 * `getBefore`: the elements after v are its successors together with
 * everything after each successor, computed on first request and kept in
 * a memo map. `edges` is the successor map (or the predecessor map for
 * `getBefore`); `height` is a measure every edge strictly lowers, which
 * the poset's levels provide and which makes the recursion terminate.
 */
module Closures {
  import opened Wrappers

  /** Every element an edge points to has an entry of its own. */
  predicate Closed<V>(edges: map<V, set<V>>)
  {
    forall v, p :: v in edges && p in edges[v] ==> p in edges
  }

  /** Every edge goes down in height. */
  predicate Ranked<V>(edges: map<V, set<V>>, height: V -> nat)
  {
    forall v, p :: v in edges && p in edges[v] ==> height(p) < height(v)
  }

  /** The elements after v, defined the way `buildAfter` assembles them. */
  ghost function Reach<V>(edges: map<V, set<V>>, height: V -> nat, v: V): set<V>
    requires Closed(edges) && Ranked(edges, height) && v in edges
    decreases height(v), 1
  {
    Gather(edges, height, edges[v], height(v))
  }

  /** The elements of `ps` together with everything after each of them. */
  ghost function Gather<V>(edges: map<V, set<V>>, height: V -> nat, ps: set<V>, bound: nat): set<V>
    requires Closed(edges) && Ranked(edges, height)
    requires forall p :: p in ps ==> p in edges && height(p) < bound
    decreases bound, 0
  {
    ps + (set p, q | p in ps && q in Reach(edges, height, p) :: q)
  }

  /** A walk along at least one edge. */
  ghost predicate IsPath<V>(edges: map<V, set<V>>, path: seq<V>)
  {
    && |path| >= 2
    && forall i :: 0 <= i < |path| - 1 ==> path[i] in edges && path[i + 1] in edges[path[i]]
  }

  /** The closure holds exactly the elements reachable from v along one or more edges. */
  lemma {:induction false} ReachIffPath<V>(edges: map<V, set<V>>, height: V -> nat, v: V, w: V)
    requires Closed(edges) && Ranked(edges, height) && v in edges
    ensures w in Reach(edges, height, v) <==>
      exists path :: IsPath(edges, path) && path[0] == v && path[|path| - 1] == w
    decreases height(v)
  {
    InReach(edges, height, v, w);
    if w in Reach(edges, height, v) {
      if w in edges[v] {
        assert IsPath(edges, [v, w]);
      } else {
        var p :| p in edges[v] && w in Reach(edges, height, p);
        ReachIffPath(edges, height, p, w);
        var path :| IsPath(edges, path) && path[0] == p && path[|path| - 1] == w;
        assert IsPath(edges, [v] + path) by {
          forall i | 0 <= i < |[v] + path| - 1
            ensures ([v] + path)[i] in edges && ([v] + path)[i + 1] in edges[([v] + path)[i]]
          {
            if i > 0 {
              assert ([v] + path)[i] == path[i - 1] && ([v] + path)[i + 1] == path[i];
            }
          }
        }
        assert ([v] + path)[0] == v && ([v] + path)[|[v] + path| - 1] == w;
      }
    }
    if exists path :: IsPath(edges, path) && path[0] == v && path[|path| - 1] == w {
      var path :| IsPath(edges, path) && path[0] == v && path[|path| - 1] == w;
      PathReaches(edges, height, path);
    }
  }

  /** The far end of a path is in the closure of its start. */
  lemma {:induction false} PathReaches<V>(edges: map<V, set<V>>, height: V -> nat, path: seq<V>)
    requires Closed(edges) && Ranked(edges, height) && IsPath(edges, path)
    ensures path[0] in edges && path[|path| - 1] in Reach(edges, height, path[0])
    decreases |path|
  {
    assert path[0] in edges && path[1] in edges[path[0]];
    if |path| > 2 {
      var rest := path[1..];
      assert IsPath(edges, rest) by {
        forall i | 0 <= i < |rest| - 1
          ensures rest[i] in edges && rest[i + 1] in edges[rest[i]]
        {
          assert rest[i] == path[i + 1] && rest[i + 1] == path[i + 2];
        }
      }
      PathReaches(edges, height, rest);
      assert path[|path| - 1] == rest[|rest| - 1];
    }
  }

  /** Every entry of the memo holds the closure of its key. */
  ghost predicate MemoSound<V>(edges: map<V, set<V>>, height: V -> nat, memo: map<V, set<V>>)
    requires Closed(edges) && Ranked(edges, height)
  {
    forall u :: u in memo ==> u in edges && memo[u] == Reach(edges, height, u)
  }

  /**
   * `getAfter(v)`: an element with an entry in `edges` gets its closure,
   * built on the first request and kept in the memo; any other element
   * has nothing to look up (null). The memo only grows and stays sound.
   */
  method Get<V>(edges: map<V, set<V>>, height: V -> nat, memo: map<V, set<V>>, v: V)
    returns (r: Option<set<V>>, memo': map<V, set<V>>)
    requires Closed(edges) && Ranked(edges, height) && MemoSound(edges, height, memo)
    ensures v in edges ==> r == Some(Reach(edges, height, v)) && v in memo'
    ensures v !in edges ==> r == None
    ensures MemoSound(edges, height, memo') && memo.Keys <= memo'.Keys
    decreases height(v), 2
  {
    memo' := memo;
    if v !in memo && v in edges {
      memo' := Build(edges, height, memo, v);
    }
    r := if v in memo' then Some(memo'[v]) else None;
  }

  /**
   * `buildAfter(v)`: for every successor p, adds p and everything after p
   * (through `Get`, which may fill the memo further), then records the
   * result for v.
   */
  method Build<V>(edges: map<V, set<V>>, height: V -> nat, memo: map<V, set<V>>, v: V)
    returns (memo': map<V, set<V>>)
    requires Closed(edges) && Ranked(edges, height) && MemoSound(edges, height, memo)
    requires v in edges
    ensures MemoSound(edges, height, memo') && memo.Keys <= memo'.Keys
    ensures v in memo' && memo'[v] == Reach(edges, height, v)
    decreases height(v), 1
  {
    var a: set<V> := {};
    var todo := edges[v];
    ghost var done: set<V> := {};
    memo' := memo;
    while todo != {}
      invariant BuildAt(edges, height, memo, v, a, todo, done, memo')
      decreases |todo|
    {
      a, todo, done, memo' := BuildStep(edges, height, memo, v, a, todo, done, memo');
    }
    memo' := memo'[v := a];
  }

  /** The state of `buildAfter(v)` with `todo` successors left and `done` handled. */
  ghost predicate BuildAt<V>(edges: map<V, set<V>>, height: V -> nat, memo: map<V, set<V>>, v: V,
                             a: set<V>, todo: set<V>, done: set<V>, memo': map<V, set<V>>)
    requires Closed(edges) && Ranked(edges, height) && v in edges
  {
    && todo + done == edges[v] && todo !! done
    && a == Gather(edges, height, done, height(v))
    && MemoSound(edges, height, memo') && memo.Keys <= memo'.Keys
  }

  /** One successor p of v: add p and everything after it. */
  method BuildStep<V>(edges: map<V, set<V>>, height: V -> nat, memo: map<V, set<V>>, v: V,
                      a0: set<V>, todo0: set<V>, ghost done0: set<V>, memo0: map<V, set<V>>)
    returns (a: set<V>, todo: set<V>, ghost done: set<V>, memo': map<V, set<V>>)
    requires Closed(edges) && Ranked(edges, height) && v in edges && todo0 != {}
    requires BuildAt(edges, height, memo, v, a0, todo0, done0, memo0)
    ensures BuildAt(edges, height, memo, v, a, todo, done, memo') && |todo| < |todo0|
    decreases height(v), 0
  {
    var p := Choose(todo0);
    var after;
    after, memo' := Get(edges, height, memo0, p);
    AddOne(edges, height, done0, p, height(v));
    a := a0 + {p} + after.value;
    todo := todo0 - {p};
    done := done0 + {p};
  }

  /** Membership in the closure, one edge at a time. */
  lemma InReach<V>(edges: map<V, set<V>>, height: V -> nat, v: V, x: V)
    requires Closed(edges) && Ranked(edges, height) && v in edges
    ensures x in Reach(edges, height, v) <==>
      x in edges[v] || exists p :: p in edges[v] && x in Reach(edges, height, p)
  {
    InGather(edges, height, edges[v], height(v), x);
  }

  lemma InGather<V>(edges: map<V, set<V>>, height: V -> nat, ps: set<V>, bound: nat, x: V)
    requires Closed(edges) && Ranked(edges, height)
    requires forall p :: p in ps ==> p in edges && height(p) < bound
    ensures x in Gather(edges, height, ps, bound) <==>
      x in ps || exists p :: p in ps && x in Reach(edges, height, p)
  {
    var further := set p, q | p in ps && q in Reach(edges, height, p) :: q;
    assert Gather(edges, height, ps, bound) == ps + further;
    if x in further {
      var p, q :| p in ps && q in Reach(edges, height, p) && q == x;
    }
    if exists p :: p in ps && x in Reach(edges, height, p) {
      var p :| p in ps && x in Reach(edges, height, p);
      assert x in further;
    }
  }

  /** Taking one more element into the union. */
  lemma AddOne<V>(edges: map<V, set<V>>, height: V -> nat, done: set<V>, p: V, bound: nat)
    requires Closed(edges) && Ranked(edges, height)
    requires forall x :: x in done + {p} ==> x in edges && height(x) < bound
    ensures Gather(edges, height, done + {p}, bound)
      == Gather(edges, height, done, bound) + {p} + Reach(edges, height, p)
  {
  }
}
