/**
 * The static distribution of work between the nodes. Every node walks the
 * same items in the same order and calls `MyTurn` once per item; it works on
 * the item only when the turn is its own, and removes the item whatever the
 * answer. The node results are then merged key-wise (the (mu,nu,eta)
 * classes) or added up (the sum). The lemmas show that the ranks together
 * claim every item exactly once, and that a node resumed from a checkpoint
 * loses no item and counts none twice.
 */
module RoundRobin {
  import opened Wrappers
  import opened CountMaps
  import opened AntiChains
  import opened States
  import opened Stages

  /** What rank `r` claims from `vals` when the counter starts at `c`: the sum of its items. */
  function Claimed(vals: seq<int>, c: int, n: int, r: int): int
    requires n >= 1
    decreases |vals|
  {
    if vals == [] then 0
    else (if Owner(c, n, 0) == r then vals[0] else 0) + Claimed(vals[1..], c + 1, n, r)
  }

  /** The claims of the ranks 0 .. n-1, in rank order. */
  function Claims(vals: seq<int>, c: int, n: int): (r: seq<int>)
    requires n >= 1
    ensures |r| == n && forall i :: 0 <= i < n ==> r[i] == Claimed(vals, c, n, i)
  {
    seq(n, i requires 0 <= i < n => Claimed(vals, c, n, i))
  }

  lemma {:induction false} SumOfPointwise(xs: seq<int>, ys: seq<int>, zs: seq<int>)
    requires |xs| == |ys| == |zs|
    requires forall i :: 0 <= i < |zs| ==> zs[i] == xs[i] + ys[i]
    ensures SumOf(zs) == SumOf(xs) + SumOf(ys)
    decreases |zs|
  {
    if zs != [] {
      SumOfPointwise(xs[1..], ys[1..], zs[1..]);
    }
  }

  lemma {:induction false} SumOfSingle(xs: seq<int>, o: nat, v: int)
    requires o < |xs| && xs[o] == v
    requires forall i :: 0 <= i < |xs| && i != o ==> xs[i] == 0
    ensures SumOf(xs) == v
    decreases |xs|
  {
    if o == 0 {
      SumOfZero(xs[1..]);
    } else {
      SumOfSingle(xs[1..], o - 1, v);
    }
  }

  lemma {:induction false} SumOfZero(xs: seq<int>)
    requires forall i :: 0 <= i < |xs| ==> xs[i] == 0
    ensures SumOf(xs) == 0
    decreases |xs|
  {
    if xs != [] {
      SumOfZero(xs[1..]);
    }
  }

  lemma {:induction false} SumOfSnoc(xs: seq<int>, x: int)
    ensures SumOf(xs + [x]) == SumOf(xs) + x
    decreases |xs|
  {
    if xs == [] {
      assert xs + [x] == [x];
    } else {
      assert (xs + [x])[1..] == xs[1..] + [x];
      SumOfSnoc(xs[1..], x);
    }
  }

  /** Every item goes to exactly one rank: the claims of all ranks add up to the sum of all items. */
  lemma {:induction false} ClaimsPartition(vals: seq<int>, c: int, n: int)
    requires n >= 1
    ensures SumOf(Claims(vals, c, n)) == SumOf(vals)
    decreases |vals|
  {
    if vals == [] {
      SumOfZero(Claims(vals, c, n));
    } else {
      var o := Owner(c, n, 0);
      var first := seq(n, i requires 0 <= i < n => if o == i then vals[0] else 0);
      ClaimsPartition(vals[1..], c + 1, n);
      SumOfPointwise(first, Claims(vals[1..], c + 1, n), Claims(vals, c, n));
      SumOfSingle(first, o, vals[0]);
    }
  }

  lemma {:induction false} ClaimedSnoc(vals: seq<int>, v: int, c: int, n: int, r: int)
    requires n >= 1
    ensures Claimed(vals + [v], c, n, r) == Claimed(vals, c, n, r) + (if Owner(c, n, |vals|) == r then v else 0)
    decreases |vals|
  {
    if vals == [] {
      assert vals + [v] == [v];
    } else {
      assert (vals + [v])[1..] == vals[1..] + [v];
      ClaimedSnoc(vals[1..], v, c + 1, n, r);
    }
  }

  lemma {:induction false} ClaimedAppend(xs: seq<int>, ys: seq<int>, c: int, n: int, r: int)
    requires n >= 1
    ensures Claimed(xs + ys, c, n, r) == Claimed(xs, c, n, r) + Claimed(ys, c + |xs|, n, r)
    decreases |xs|
  {
    if xs == [] {
      assert xs + ys == ys;
    } else {
      assert (xs + ys)[1..] == xs[1..] + ys;
      ClaimedAppend(xs[1..], ys, c + 1, n, r);
    }
  }

  /** Only the counter's remainder matters. */
  lemma {:induction false} ClaimedModulo(vals: seq<int>, c: int, d: int, n: int, r: int)
    requires n >= 1 && c % n == d % n
    ensures Claimed(vals, c, n, r) == Claimed(vals, d, n, r)
    decreases |vals|
  {
    if vals != [] {
      ModShift(c, 1, n);
      ModShift(d, 1, n);
      ModShift(c + 1, 0, n);
      assert Owner(c, n, 0) == Owner(d, n, 0);
      ClaimedModulo(vals[1..], c + 1, d + 1, n, r);
    }
  }

  /** The items in distinct positions are distinct. */
  predicate Distinct<T(==)>(xs: seq<T>)
  {
    forall i, j :: 0 <= i < j < |xs| ==> xs[i] != xs[j]
  }

  function Elements<T>(xs: seq<T>): set<T>
  {
    set x | x in xs
  }

  /** The values under one key of the tallies of `items`, each weighted by the item's count in `w`. */
  function TallyAt<C>(items: seq<AntiChain>, w: map<AntiChain, int>, tally: (AntiChain, int) -> map<C, int>, key: C)
    : (r: seq<int>)
    requires forall j :: 0 <= j < |items| ==> items[j] in w
    ensures |r| == |items|
    ensures forall j :: 0 <= j < |items| ==> r[j] == Get0(tally(items[j], w[items[j]]), key)
  {
    seq(|items|, j requires 0 <= j < |items| => Get0(tally(items[j], w[items[j]]), key))
  }

  /** The counter after `j` calls of `MyTurn`, starting from `c`. */
  function CounterAfter(c: int, n: int, j: nat): int
    requires n >= 1
  {
    if j == 0 then c else (c + j) % n
  }

  /** `m` holds `base` plus, under every key, what rank `r` claims from the tallies of `items`. */
  ghost predicate Tallied<C(!new)>(m: map<C, int>, base: map<C, int>, items: seq<AntiChain>, w: map<AntiChain, int>,
                       tally: (AntiChain, int) -> map<C, int>, c: int, n: int, r: int)
    requires n >= 1 && forall j :: 0 <= j < |items| ==> items[j] in w
  {
    forall k :: Get0(m, k) == Get0(base, k) + Claimed(TallyAt(items, w, tally, k), c, n, r)
  }

  /** Handling one more item keeps `Tallied`: its tally is added exactly when the item is rank `r`'s. */
  lemma TallyStep<C(!new)>(before: map<C, int>, after: map<C, int>, base: map<C, int>, items: seq<AntiChain>, j: nat,
                     w: map<AntiChain, int>, tally: (AntiChain, int) -> map<C, int>, c: int, n: int, r: int, turn: bool)
    requires n >= 1 && j < |items| && forall i :: 0 <= i < |items| ==> items[i] in w
    requires turn <==> r == Owner(c, n, j)
    requires Tallied(before, base, items[..j], w, tally, c, n, r)
    requires forall k :: Get0(after, k) == Get0(before, k) + (if turn then Get0(tally(items[j], w[items[j]]), k) else 0)
    ensures Tallied(after, base, items[..j + 1], w, tally, c, n, r)
  {
    forall k ensures Get0(after, k) == Get0(base, k) + Claimed(TallyAt(items[..j + 1], w, tally, k), c, n, r) {
      var t := Get0(tally(items[j], w[items[j]]), k);
      assert TallyAt(items[..j + 1], w, tally, k) == TallyAt(items[..j], w, tally, k) + [t];
      ClaimedSnoc(TallyAt(items[..j], w, tally, k), t, c, n, r);
    }
  }

  /**
   * One node's pass over the equivalence classes in the (mu,nu,eta) stage.
   * `items` is the iteration order of the classes; the node sees its
   * interrupted flag at item `x` (never, when `x` is past the end). Every item
   * before `x` is claimed or not, tallied when claimed, and removed. When the
   * flag is seen at the head of the loop (`atHead`) the pass ends there;
   * when it is seen at the check before the tally, item `x` is claimed, its
   * tally dropped, and removed, and then the pass ends. `snapshot` is the
   * state at the moment the flag is seen. The shutdown hook that writes
   * the checkpoint runs concurrently with this loop; the model assumes it
   * stores exactly this snapshot, after the claim for item `x` and before
   * its removal.
   */
  method TripleRound<C(!new)>(s: State<C>, items: seq<AntiChain>, tally: (AntiChain, int) -> map<C, int>,
                              x: nat, atHead: bool)
    returns (r: State<C>, snapshot: State<C>)
    requires CounterInRange(s) && s.data.classes.Some?
    requires Distinct(items) && Elements(items) == s.data.classes.value.Keys
    ensures var w := s.data.classes.value;
      var done := if x < |items| then x else |items|;
      && r.stage == s.stage && r.rank == s.rank && r.nodes == s.nodes && r.order == s.order
      && r.data.sum == s.data.sum && r.data.left == s.data.left && r.data.timings == s.data.timings
      && r.data.counter == CounterAfter(s.data.counter, s.nodes, Taken(|items|, x, atHead))
      && Tallied(r.data.triples.GetOr(map[]), s.data.triples.GetOr(map[]), items[..done], w, tally,
                 s.data.counter, s.nodes, s.rank)
      && r.data.classes == Some(w - Elements(items[..Taken(|items|, x, atHead)]))
    ensures x >= |items| ==> r.data.classes == Some(map[])
    ensures x < |items| ==> snapshot == r.(data := r.data.(classes := Some(s.data.classes.value - Elements(items[..x]))))
  {
    var w := s.data.classes.value;
    assert forall j :: 0 <= j < |items| ==> items[j] in Elements(items);
    r := s;
    snapshot := s;
    var j := 0;
    assert items[..0] == [];
    assert w - Elements(items[..0]) == w;
    forall k ensures Claimed(TallyAt(items[..0], w, tally, k), s.data.counter, s.nodes, s.rank) == 0 {
      assert TallyAt(items[..0], w, tally, k) == [];
    }
    while j < Taken(|items|, x, atHead)
      invariant j <= Taken(|items|, x, atHead)
      invariant RoundAt(s, items, tally, x, j, r, snapshot)
      decreases |items| - j
    {
      r, snapshot := TripleStep(s, items, tally, x, j, r, snapshot);
      j := j + 1;
    }
    if atHead && x < |items| {
      snapshot := r;
    }
    if x >= |items| {
      assert items[..j] == items;
      assert w - Elements(items) == map[];
    }
  }

  /**
   * How many items a pass takes a turn for when the flag is seen at item
   * `x`: the items before it at the loop head, and item `x` as well at the
   * check before the tally.
   */
  function Taken(n: nat, x: nat, atHead: bool): nat
  {
    if atHead then (if x < n then x else n) else (if x < n then x + 1 else n)
  }

  /** The state of rank `s.rank`'s pass over `items` after `j` of them. */
  ghost predicate RoundAt<C(!new)>(s: State<C>, items: seq<AntiChain>, tally: (AntiChain, int) -> map<C, int>,
                                   x: nat, j: nat, r: State<C>, snapshot: State<C>)
    requires CounterInRange(s) && s.data.classes.Some?
    requires forall i :: 0 <= i < |items| ==> items[i] in s.data.classes.value
  {
    var w := s.data.classes.value;
    && j <= |items| && j <= x + 1
    && r.stage == s.stage && r.rank == s.rank && r.nodes == s.nodes && r.order == s.order
    && r.data.sum == s.data.sum && r.data.left == s.data.left && r.data.timings == s.data.timings
    && r.data.counter == CounterAfter(s.data.counter, s.nodes, j)
    && Tallied(r.data.triples.GetOr(map[]), s.data.triples.GetOr(map[]), items[..if j <= x then j else x], w, tally,
               s.data.counter, s.nodes, s.rank)
    && r.data.classes == Some(w - Elements(items[..j]))
    && (j == x + 1 ==> snapshot == r.(data := r.data.(classes := Some(w - Elements(items[..x])))))
  }

  /** Item `j` of the pass: take the turn, tally the item when it is ours and not the interrupted one, remove it. */
  method TripleStep<C(!new)>(s: State<C>, items: seq<AntiChain>, tally: (AntiChain, int) -> map<C, int>,
                             x: nat, j: nat, r0: State<C>, snapshot0: State<C>)
    returns (r: State<C>, snapshot: State<C>)
    requires CounterInRange(s) && s.data.classes.Some?
    requires forall i :: 0 <= i < |items| ==> items[i] in s.data.classes.value
    requires j < |items| && j <= x
    requires RoundAt(s, items, tally, x, j, r0, snapshot0)
    ensures RoundAt(s, items, tally, x, j + 1, r, snapshot)
  {
    var w := s.data.classes.value;
    var base := s.data.triples.GetOr(map[]);
    snapshot := snapshot0;
    var turn;
    r, turn := MyTurn(r0).0, MyTurn(r0).1;
    TurnAt(s, r0, j);
    if j == x {
      snapshot := r;
    } else {
      var t := tally(items[j], w[items[j]]);
      var prev := r.data.triples.GetOr(map[]);
      if turn {
        r := AddAllToTriples(r, t);
      }
      TallyStep(prev, r.data.triples.GetOr(map[]), base, items, j, w, tally, s.data.counter, s.nodes, s.rank, turn);
    }
    assert Elements(items[..j + 1]) == Elements(items[..j]) + {items[j]};
    RemoveTwice(w, Elements(items[..j]), {items[j]});
    r := r.(data := r.data.(classes := Some(r.data.classes.value - {items[j]})));
  }

  lemma RemoveTwice<K, V>(m: map<K, V>, a: set<K>, b: set<K>)
    ensures (m - a) - b == m - (a + b)
  {
    assert forall k :: k in (m - a) - b <==> k in m - (a + b);
  }

  /** The answer of the `j`-th call of `MyTurn` in a pass that started from `s`. */
  lemma TurnAt<C>(s: State<C>, before: State<C>, j: nat)
    requires CounterInRange(s) && before.nodes == s.nodes && before.rank == s.rank
    requires before.data.counter == CounterAfter(s.data.counter, s.nodes, j)
    ensures MyTurn(before).0.data.counter == CounterAfter(s.data.counter, s.nodes, j + 1)
    ensures MyTurn(before).1 <==> s.rank == Owner(s.data.counter, s.nodes, j)
  {
    if j > 0 {
      ModShift(s.data.counter + j, 1, s.nodes);
    }
  }

  /**
   * Resuming the (mu,nu,eta) pass: a checkpoint assumed to be taken when the
   * flag rose during item `x`, after its claim and before its removal, restores a state whose pass over the items from `x` on
   * claims, together with what was kept before the interruption, exactly what
   * an uninterrupted pass claims.
   */
  lemma {:induction false} ResumeLosesNothing<C>(s: State<C>, vals: seq<int>, x: nat)
    requires CounterInRange(s) && NonNegative(s.data.sum) && CountsIterations(s.stage) && x < |vals|
    ensures var t := Restore(Store(s.(data := s.data.(counter := CounterAfter(s.data.counter, s.nodes, x + 1)))));
      && t.Success? && CounterInRange(t.value)
      && Claimed(vals[..x], s.data.counter, s.nodes, s.rank) + Claimed(vals[x..], t.value.data.counter, s.nodes, s.rank)
         == Claimed(vals, s.data.counter, s.nodes, s.rank)
  {
    var n, c := s.nodes, s.data.counter;
    var st := s.(data := s.data.(counter := CounterAfter(c, n, x + 1)));
    RestoreStore(st);
    var d := Restore(Store(st)).value.data.counter;
    assert d == (c + x + 1) % n - 1;
    ModShift(c + x + 1, -1, n);
    ClaimedModulo(vals[x..], d, c + x, n, s.rank);
    ClaimedAppend(vals[..x], vals[x..], c, n, s.rank);
    assert vals[..x] + vals[x..] == vals;
  }

  /** The values under one key of a run of maps. */
  function Column<C>(maps: seq<map<C, int>>, key: C): (r: seq<int>)
    ensures |r| == |maps| && forall i :: 0 <= i < |maps| ==> r[i] == Get0(maps[i], key)
  {
    seq(|maps|, i requires 0 <= i < |maps| => Get0(maps[i], key))
  }

  /** Merges the maps of all nodes, adding the values under equal keys. */
  method MergeAll<C(!new)>(maps: seq<map<C, int>>) returns (r: map<C, int>)
    ensures forall k :: Get0(r, k) == SumOf(Column(maps, k))
    ensures forall k :: k in r <==> exists i :: 0 <= i < |maps| && k in maps[i]
  {
    r := map[];
    var i := 0;
    while i < |maps|
      invariant 0 <= i <= |maps|
      invariant forall k :: Get0(r, k) == SumOf(Column(maps[..i], k))
      invariant forall k :: k in r <==> exists j :: 0 <= j < i && k in maps[j]
    {
      forall k ensures Get0(KeywiseSum(r, maps[i]), k) == SumOf(Column(maps[..i + 1], k)) {
        assert Column(maps[..i + 1], k) == Column(maps[..i], k) + [Get0(maps[i], k)];
        SumOfSnoc(Column(maps[..i], k), Get0(maps[i], k));
      }
      r := KeywiseSum(r, maps[i]);
      i := i + 1;
    }
    assert maps[..i] == maps;
  }

  /**
   * The merged (mu,nu,eta) classes are the tallies of all items: when node
   * `i` holds what rank `i` claims, the merge holds, under every key, the sum
   * over all items.
   */
  lemma MergedClaims<C>(maps: seq<map<C, int>>, vals: C -> seq<int>, c: int)
    requires |maps| >= 1
    requires forall i, k :: 0 <= i < |maps| ==> Get0(maps[i], k) == Claimed(vals(k), c, |maps|, i)
    ensures forall k :: SumOf(Column(maps, k)) == SumOf(vals(k))
  {
    forall k ensures SumOf(Column(maps, k)) == SumOf(vals(k)) {
      assert Column(maps, k) == Claims(vals(k), c, |maps|);
      ClaimsPartition(vals(k), c, |maps|);
    }
  }

  /**
   * One node's pass in the summing stage: like `TripleRound`, over the
   * (mu,nu,eta) codes, adding each claimed contribution to the sum, with
   * the flag seen at code `x`, at the loop head or at the check before the
   * addition. A negative contribution is refused by `AddToSum`.
   */
  method SumRound<C>(s: State<C>, codes: seq<C>, contribution: (C, int) -> int, x: nat, atHead: bool)
    returns (r: Result<State<C>, Error>)
    requires CounterInRange(s) && NonNegative(s.data.sum) && s.data.triples.Some?
    requires Distinct(codes) && Elements(codes) == s.data.triples.value.Keys
    ensures var m := s.data.triples.value;
      var done := if x < |codes| then x else |codes|;
      var vals := seq(done, j requires 0 <= j < done => contribution(codes[j], m[codes[j]]));
      && (r.Success? <==> OwnsNoNegative(vals, s.data.counter, s.nodes, s.rank))
      && (r.Success? ==>
            && r.value.stage == s.stage && r.value.rank == s.rank && r.value.nodes == s.nodes
            && r.value.order == s.order && r.value.data.left == s.data.left
            && r.value.data.classes == s.data.classes && r.value.data.timings == s.data.timings
            && r.value.data.counter == CounterAfter(s.data.counter, s.nodes, Taken(|codes|, x, atHead))
            && r.value.data.triples == Some(m - Elements(codes[..Taken(|codes|, x, atHead)]))
            && NonNegative(r.value.data.sum)
            && r.value.data.sum.GetOr(0) == s.data.sum.GetOr(0) + Claimed(vals, s.data.counter, s.nodes, s.rank))
      && (r.Failure? ==> r.error == IllegalArgument)
  {
    var m := s.data.triples.value;
    assert forall j :: 0 <= j < |codes| ==> codes[j] in Elements(codes);
    var done := if x < |codes| then x else |codes|;
    ghost var vals := seq(done, j requires 0 <= j < done => contribution(codes[j], m[codes[j]]));
    var cur := s;
    var j := 0;
    assert codes[..0] == [] && vals[..0] == [];
    assert m - Elements(codes[..0]) == m;
    while j < Taken(|codes|, x, atHead)
      invariant j <= Taken(|codes|, x, atHead)
      invariant SumAt(s, m, codes, x, vals, j, cur)
      decreases |codes| - j
    {
      var next := SumStep(s, m, codes, contribution, x, vals, j, cur);
      if next.Failure? {
        assert !OwnsNoNegative(vals, s.data.counter, s.nodes, s.rank);
        return Failure(IllegalArgument);
      }
      cur := next.value;
      j := j + 1;
    }
    assert vals[..done] == vals;
    return Success(cur);
  }

  /** Every contribution this rank owns in `vals`, whose first code follows counter `c`, is non-negative. */
  ghost predicate OwnsNoNegative(vals: seq<int>, c: int, n: int, rank: int)
    requires n >= 1
  {
    forall j :: 0 <= j < |vals| && rank == Owner(c, n, j) ==> vals[j] >= 0
  }

  /** The state of the summing pass after its first j codes; `vals` are the contributions up to the interruption. */
  ghost predicate SumAt<C>(s: State<C>, m: map<C, int>, codes: seq<C>, x: nat, vals: seq<int>, j: int, cur: State<C>)
    requires CounterInRange(s)
  {
    && |vals| <= |codes| && 0 <= j <= |codes| && j <= x + 1
    && cur.stage == s.stage && cur.rank == s.rank && cur.nodes == s.nodes
    && cur.order == s.order && cur.data.left == s.data.left
    && cur.data.classes == s.data.classes && cur.data.timings == s.data.timings
    && cur.data.triples == Some(m - Elements(codes[..j]))
    && cur.data.counter == CounterAfter(s.data.counter, s.nodes, j)
    && OwnsNoNegative(vals[..if j <= |vals| then j else |vals|], s.data.counter, s.nodes, s.rank)
    && NonNegative(cur.data.sum)
    && cur.data.sum.GetOr(0) == s.data.sum.GetOr(0)
         + Claimed(vals[..if j <= |vals| then j else |vals|], s.data.counter, s.nodes, s.rank)
  }

  /**
   * Code `j` of the summing pass: take the turn, add the contribution when
   * it is ours and not the interrupted one, remove the code. Fails exactly
   * on a negative contribution of ours.
   */
  method SumStep<C>(s: State<C>, m: map<C, int>, codes: seq<C>, contribution: (C, int) -> int, x: nat,
                    ghost vals: seq<int>, j: nat, cur: State<C>)
    returns (r: Result<State<C>, Error>)
    requires CounterInRange(s) && j < |codes| && j <= x && codes[j] in m
    requires |vals| == (if x < |codes| then x else |codes|)
    requires j < |vals| ==> vals[j] == contribution(codes[j], m[codes[j]])
    requires SumAt(s, m, codes, x, vals, j, cur)
    ensures r.Success? ==> SumAt(s, m, codes, x, vals, j + 1, r.value)
    ensures r.Failure? ==> j < |vals| && vals[j] < 0 && s.rank == Owner(s.data.counter, s.nodes, j)
  {
    var before := cur;
    var c, turn := MyTurn(cur).0, MyTurn(cur).1;
    TurnAt(s, before, j);
    if j < x {
      var v := contribution(codes[j], m[codes[j]]);
      assert vals[..j + 1] == vals[..j] + [v];
      ClaimedSnoc(vals[..j], v, s.data.counter, s.nodes, s.rank);
      if turn {
        var next := AddToSum(c, v);
        if next.Failure? {
          return Failure(IllegalArgument);
        }
        c := next.value;
      }
    }
    assert Elements(codes[..j + 1]) == Elements(codes[..j]) + {codes[j]};
    RemoveTwice(m, Elements(codes[..j]), {codes[j]});
    r := Success(c.(data := c.data.(triples := Some(c.data.triples.value - {codes[j]}))));
  }
}
