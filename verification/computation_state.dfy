/**
 * The checkpointable state of one node of the computation. A state has one
 * of four stages (initial, preparation, summing, finished); it carries the
 * node's rank, the number of nodes and the order of the Dedekind number,
 * which never change, and the data computed thus far, which the algorithm
 * fills in. Java's `null` fields are `None`.
 */
module States {
  import opened Wrappers
  import opened CountMaps
  import opened AntiChains
  import opened Combinatorics

  datatype Stage = Init | Preparation | Summing | Finished

  /** The exceptions the state operations throw; `Unreadable` is a checkpoint that cannot be read back. */
  datatype Error = IllegalArgument | IllegalState | UnsupportedOperation | Unreadable

  /**
   * The data of a state. The (mu,nu,eta) classes are keyed by `C`: the
   * integer code of a triple in one version of the program and its
   * three-part code in the other.
   */
  datatype Data<C> = Data(
    timings: map<string, int>,
    counter: int,
    classes: Option<map<AntiChain, int>>,
    left: Option<map<AntiChain, int>>,
    triples: Option<map<C, int>>,
    sum: Option<int>)

  datatype State<C> = State(stage: Stage, rank: int, nodes: int, order: int, data: Data<C>)

  predicate NonNegative(sum: Option<int>)
  {
    sum.Some? ==> sum.value >= 0
  }

  /** Present and not empty. */
  predicate Filled<K, V>(m: Option<map<K, V>>)
  {
    m.Some? && m.value != map[]
  }

  /** What the constructors establish and every operation keeps. */
  predicate Valid<C>(s: State<C>)
  {
    s.order >= 3 && NonNegative(s.data.sum) && (s.stage == Finished ==> s.data.sum.Some?)
  }

  /** The initial state; there is nothing to compute below order 3. */
  function NewInit<C>(rank: int, nodes: int, order: int): (r: Result<State<C>, Error>)
    ensures r.Failure? <==> order < 3
    ensures r.Failure? ==> r.error == IllegalArgument
    ensures r.Success? ==> Valid(r.value) && r.value.stage == Init
    ensures r.Success? ==> r.value.rank == rank && r.value.nodes == nodes && r.value.order == order
    ensures r.Success? ==> r.value.data == Data(map[], 0, None, None, None, None)
  {
    if order < 3 then Failure(IllegalArgument)
    else Success(State(Init, rank, nodes, order, Data(map[], 0, None, None, None, None)))
  }

  /**
   * The copy constructor every later stage starts with: it re-checks the
   * order, sets the sum through `SetSum` and starts the counter afresh.
   */
  function CopyAs<C>(prev: State<C>, stage: Stage): (r: Result<State<C>, Error>)
    ensures r.Success? <==> prev.order >= 3 && NonNegative(prev.data.sum)
    ensures r.Failure? ==> r.error == IllegalArgument
    ensures r.Success? ==> r.value == prev.(stage := stage, data := prev.data.(counter := 0))
  {
    if prev.order < 3 then Failure(IllegalArgument)
    else
      var s :- SetSum(prev.(stage := stage, data := prev.data.(counter := 0, sum := None)), prev.data.sum);
      Success(s)
  }

  /** The preparation stage needs the equivalence classes. */
  function NewPreparation<C>(prev: State<C>): (r: Result<State<C>, Error>)
    ensures r.Success? <==> prev.order >= 3 && NonNegative(prev.data.sum) && Filled(prev.data.classes)
    ensures r.Failure? ==> r.error == IllegalArgument
    ensures r.Success? ==> Valid(r.value) && r.value.stage == Preparation
    ensures r.Success? ==> r.value.data == prev.data.(counter := 0)
  {
    var s :- CopyAs(prev, Preparation);
    if !Filled(s.data.classes) then Failure(IllegalArgument) else Success(s)
  }

  /** The summing stage needs the (mu,nu,eta) classes and the left interval sizes. */
  function NewSumming<C>(prev: State<C>): (r: Result<State<C>, Error>)
    ensures r.Success? <==> prev.order >= 3 && NonNegative(prev.data.sum)
                            && Filled(prev.data.triples) && Filled(prev.data.left)
    ensures r.Failure? ==> r.error == IllegalArgument
    ensures r.Success? ==> Valid(r.value) && r.value.stage == Summing
    ensures r.Success? ==> r.value.data == prev.data.(counter := 0)
  {
    var s :- CopyAs(prev, Summing);
    if !Filled(s.data.triples) then Failure(IllegalArgument)
    else if !Filled(s.data.left) then Failure(IllegalArgument)
    else Success(s)
  }

  /** The finished stage needs a sum; zero is accepted. */
  function NewFinished<C>(prev: State<C>): (r: Result<State<C>, Error>)
    ensures r.Success? <==> prev.order >= 3 && prev.data.sum.Some? && prev.data.sum.value >= 0
    ensures r.Failure? ==> r.error == IllegalArgument
    ensures r.Success? ==> Valid(r.value) && r.value.stage == Finished
    ensures r.Success? ==> r.value.data == prev.data.(counter := 0)
  {
    var s :- CopyAs(prev, Finished);
    if s.data.sum.None? || s.data.sum.value < 0 then Failure(IllegalArgument) else Success(s)
  }

  /** A present sum is never negative. */
  function SetSum<C>(s: State<C>, v: Option<int>): (r: Result<State<C>, Error>)
    ensures r.Success? <==> NonNegative(v)
    ensures r.Failure? ==> r.error == IllegalArgument
    ensures r.Success? ==> r.value.data.sum == v && NonNegative(r.value.data.sum)
    ensures r.Success? ==> r.value == s.(data := s.data.(sum := v))
  {
    if v.Some? && v.value < 0 then Failure(IllegalArgument)
    else Success(s.(data := s.data.(sum := v)))
  }

  /** Adds a non-negative amount to the sum, which starts at zero when absent. */
  function AddToSum<C>(s: State<C>, nr: int): (r: Result<State<C>, Error>)
    ensures nr < 0 ==> r == Failure(IllegalArgument)
    ensures NonNegative(s.data.sum) && nr >= 0 ==> r.Success?
    ensures r.Success? ==> r.value.data.sum == Some(s.data.sum.GetOr(0) + nr)
    ensures r.Success? ==> NonNegative(r.value.data.sum)
    ensures r.Success? && NonNegative(s.data.sum) ==> r.value.data.sum.value >= s.data.sum.GetOr(0)
    ensures r.Success? ==> r.value == s.(data := s.data.(sum := r.value.data.sum))
  {
    if nr < 0 then Failure(IllegalArgument)
    else SetSum(s, Some(s.data.sum.GetOr(0) + nr))
  }

  /** Adding the amounts one at a time. */
  function AddAllToSum<C>(s: State<C>, nrs: seq<int>): (r: Result<State<C>, Error>)
    decreases |nrs|
  {
    if nrs == [] then Success(s)
    else
      var t :- AddToSum(s, nrs[0]);
      AddAllToSum(t, nrs[1..])
  }

  function SumOf(xs: seq<int>): int
  {
    if xs == [] then 0 else xs[0] + SumOf(xs[1..])
  }

  /**
   * Adding a run of amounts to a valid sum fails exactly when one of them
   * is negative, and otherwise adds their total.
   */
  lemma {:induction false} AddAllToSumTotal<C>(s: State<C>, nrs: seq<int>)
    requires NonNegative(s.data.sum)
    ensures AddAllToSum(s, nrs).Success? <==> forall i :: 0 <= i < |nrs| ==> nrs[i] >= 0
    ensures AddAllToSum(s, nrs).Success? ==>
              var t := AddAllToSum(s, nrs).value;
              t == s.(data := s.data.(sum := t.data.sum)) && NonNegative(t.data.sum)
              && t.data.sum.GetOr(0) == s.data.sum.GetOr(0) + SumOf(nrs)
    decreases |nrs|
  {
    if nrs != [] {
      if nrs[0] >= 0 {
        var t := AddToSum(s, nrs[0]).value;
        AddAllToSumTotal(t, nrs[1..]);
        assert SumOf(nrs) == nrs[0] + SumOf(nrs[1..]);
        assert t == s.(data := s.data.(sum := Some(s.data.sum.GetOr(0) + nrs[0])));
        assert AddAllToSum(s, nrs) == AddAllToSum(t, nrs[1..]);
        assert forall i :: 1 <= i < |nrs| ==> nrs[i] == nrs[1..][i - 1];
        if AddAllToSum(t, nrs[1..]).Failure? {
          var i :| 0 <= i < |nrs[1..]| && nrs[1..][i] < 0;
          assert nrs[i + 1] < 0;
        }
      }
    }
  }

  /** The next value of the round-robin counter: one up, back to 0 on reaching the number of nodes. */
  function IncrementCounter<C>(s: State<C>): (r: State<C>)
    ensures s.nodes >= 1 && -1 <= s.data.counter < s.nodes ==>
              0 <= r.data.counter < s.nodes && r.data.counter == (s.data.counter + 1) % s.nodes
    ensures r == s.(data := s.data.(counter := r.data.counter))
  {
    var c := s.data.counter + 1;
    s.(data := s.data.(counter := if c == s.nodes then 0 else c))
  }

  /** Advances the counter; the item is this node's when the counter then equals its rank. */
  function MyTurn<C>(s: State<C>): (r: (State<C>, bool))
    ensures r.0 == IncrementCounter(s)
    ensures r.1 <==> r.0.data.counter == s.rank
  {
    var t := IncrementCounter(s);
    (t, t.data.counter == t.rank)
  }

  /** The state after `k` calls of `MyTurn`. */
  function Advance<C>(s: State<C>, k: nat): State<C>
    decreases k
  {
    if k == 0 then s else Advance(MyTurn(s).0, k - 1)
  }

  /** The answers of `k` successive calls of `MyTurn`. */
  function Turns<C>(s: State<C>, k: nat): (r: seq<bool>)
    ensures |r| == k
    decreases k
  {
    if k == 0 then [] else [MyTurn(s).1] + Turns(MyTurn(s).0, k - 1)
  }

  /** The rank that claims the `j`-th item (from 0) when the counter starts at `c`. */
  function Owner(c: int, nodes: int, j: nat): int
    requires nodes >= 1
  {
    (c + 1 + j) % nodes
  }

  predicate CounterInRange<C>(s: State<C>)
  {
    s.nodes >= 1 && -1 <= s.data.counter < s.nodes
  }

  lemma ModUnique(x: int, n: int, q: int, r: int)
    requires n >= 1 && 0 <= r < n && x == q * n + r
    ensures x % n == r
  {
    var q', r' := x / n, x % n;
    assert n * q' + r' == x;
    assert n * (q - q') == r' - r;
    if q - q' >= 1 {
      MulAtLeast(n, q - q');
    } else if q - q' <= -1 {
      MulAtLeast(n, q' - q);
    }
  }

  lemma ModShift(a: int, j: int, n: int)
    requires n >= 1
    ensures (a % n + j) % n == (a + j) % n
  {
    var r := (a + j) % n;
    assert a % n + j == (a + j) - (a / n) * n;
    assert a + j == ((a + j) / n) * n + r;
    ModUnique(a % n + j, n, (a + j) / n - a / n, r);
  }

  /** The counter after `k` calls, and the state otherwise unchanged. */
  lemma {:induction false} AdvanceCounter<C>(s: State<C>, k: nat)
    requires CounterInRange(s) && k >= 1
    ensures Advance(s, k) == s.(data := s.data.(counter := (s.data.counter + k) % s.nodes))
    decreases k
  {
    var t := MyTurn(s).0;
    if k > 1 {
      AdvanceCounter(t, k - 1);
      ModShift(s.data.counter + 1, k - 1, s.nodes);
    }
  }

  /** The `j`-th call says yes exactly to the rank `Owner` names. */
  lemma {:induction false} TurnsOwner<C>(s: State<C>, k: nat, j: nat)
    requires CounterInRange(s) && j < k
    ensures Turns(s, k)[j] <==> s.rank == Owner(s.data.counter, s.nodes, j)
    decreases k
  {
    var t := MyTurn(s).0;
    if j > 0 {
      TurnsOwner(t, k - 1, j - 1);
      ModShift(s.data.counter + 1, j, s.nodes);
    }
  }

  /** Every item is claimed by exactly one of the ranks 0 .. nodes-1. */
  lemma OneOwner<C>(s: State<C>, k: nat, j: nat)
    requires CounterInRange(s) && j < k
    ensures 0 <= Owner(s.data.counter, s.nodes, j) < s.nodes
    ensures forall r :: 0 <= r < s.nodes ==>
              (Turns(s.(rank := r), k)[j] <==> r == Owner(s.data.counter, s.nodes, j))
  {
    forall r | 0 <= r < s.nodes
      ensures Turns(s.(rank := r), k)[j] <==> r == Owner(s.data.counter, s.nodes, j)
    {
      TurnsOwner(s.(rank := r), k, j);
    }
  }

  function CountTrue(bs: seq<bool>): nat
  {
    if bs == [] then 0 else (if bs[0] then 1 else 0) + CountTrue(bs[1..])
  }

  lemma {:induction false} CountOnlyOne(bs: seq<bool>, p: nat)
    requires p < |bs| && bs[p]
    requires forall j :: 0 <= j < |bs| && j != p ==> !bs[j]
    ensures CountTrue(bs) == 1
  {
    if p == 0 {
      NoneTrue(bs[1..]);
    } else {
      CountOnlyOne(bs[1..], p - 1);
    }
  }

  lemma {:induction false} NoneTrue(bs: seq<bool>)
    requires forall j :: 0 <= j < |bs| ==> !bs[j]
    ensures CountTrue(bs) == 0
  {
    if bs != [] {
      NoneTrue(bs[1..]);
    }
  }

  /** Two items less than `nodes` apart have different owners. */
  lemma OwnersDiffer(c: int, n: int, i: nat, j: nat)
    requires n >= 1 && i < j < i + n
    ensures Owner(c, n, i) != Owner(c, n, j)
  {
    ModClose(c + 1 + i, c + 1 + j, n);
  }

  /** Two integers less than `n` apart leave different remainders. */
  lemma ModClose(x: int, y: int, n: int)
    requires n >= 1 && x < y < x + n
    ensures x % n != y % n
  {
    var qx, rx, qy, ry := x / n, x % n, y / n, y % n;
    assert x == n * qx + rx && y == n * qy + ry;
    if rx == ry {
      var d := qy - qx;
      assert n * d == n * qy - n * qx;
      if d >= 1 {
        MulAtLeast(n, d);
      }
    }
  }

  /**
   * Round robin: in every window of `nodes` consecutive calls, a node whose
   * rank is one of 0 .. nodes-1 gets exactly one turn.
   */
  lemma OneTurnPerWindow<C>(s: State<C>, k: nat, i: nat)
    requires CounterInRange(s) && 0 <= s.rank < s.nodes && i + s.nodes <= k
    ensures CountTrue(Turns(s, k)[i..i + s.nodes]) == 1
  {
    var n, c := s.nodes, s.data.counter;
    var w := Turns(s, k)[i..i + n];
    var p := (s.rank - (c + 1 + i)) % n;
    ModShift(s.rank - (c + 1 + i), c + 1 + i, n);
    assert Owner(c, n, i + p) == s.rank by {
      assert (c + 1 + i + p) % n == (p + (c + 1 + i)) % n;
      ModUnique(s.rank, n, 0, s.rank);
    }
    TurnsOwner(s, k, i + p);
    forall j | 0 <= j < n && j != p ensures !w[j] {
      TurnsOwner(s, k, i + j);
      if j < p { OwnersDiffer(c, n, i + j, i + p); } else { OwnersDiffer(c, n, i + p, i + j); }
    }
    CountOnlyOne(w, p);
  }

  /** `putIfAbsent` on a map that starts out empty when absent. */
  function Insert<K, V>(m: Option<map<K, V>>, k: K, v: V): (r: map<K, V>)
    ensures r.Keys == m.GetOr(map[]).Keys + {k}
    ensures m.Some? && k in m.value ==> r == m.value
    ensures !(m.Some? && k in m.value) ==> r[k] == v
    ensures forall j :: j != k && j in r ==> m.Some? && j in m.value && r[j] == m.value[j]
  {
    PutIfAbsent(m.GetOr(map[]), k, v)
  }

  /** An equivalence class is never added twice: a present key keeps its count. */
  function AddEquivalenceClass<C>(s: State<C>, ac: AntiChain, nr: int): (r: State<C>)
    ensures r.data.classes.Some? && ac in r.data.classes.value
    ensures r.data.classes.value == Insert(s.data.classes, ac, nr)
    ensures r == s.(data := s.data.(classes := r.data.classes))
  {
    s.(data := s.data.(classes := Some(Insert(s.data.classes, ac, nr))))
  }

  /** A left interval size is never added twice: a present key keeps its size. */
  function AddLeftIntervalSize<C>(s: State<C>, ac: AntiChain, size: int): (r: State<C>)
    ensures r.data.left.Some? && ac in r.data.left.value
    ensures r.data.left.value == Insert(s.data.left, ac, size)
    ensures r == s.(data := s.data.(left := r.data.left))
  {
    s.(data := s.data.(left := Some(Insert(s.data.left, ac, size))))
  }

  /** The first value added under a key is the one that stays. */
  lemma FirstAddWins<C>(s: State<C>, ac: AntiChain, x: int, y: int)
    ensures AddEquivalenceClass(AddEquivalenceClass(s, ac, x), ac, y) == AddEquivalenceClass(s, ac, x)
    ensures AddLeftIntervalSize(AddLeftIntervalSize(s, ac, x), ac, y) == AddLeftIntervalSize(s, ac, x)
  {
  }

  /** Adds `nr` to the count of a (mu,nu,eta) class. */
  function AddToTriple<C(!new)>(s: State<C>, code: C, nr: int): (r: State<C>)
    ensures r.data.triples.Some? && code in r.data.triples.value
    ensures r.data.triples.value[code] == Get0(s.data.triples.GetOr(map[]), code) + nr
    ensures forall k :: k != code ==> Get0(r.data.triples.value, k) == Get0(s.data.triples.GetOr(map[]), k)
    ensures Total(r.data.triples.value) == Total(s.data.triples.GetOr(map[])) + nr
    ensures r == s.(data := s.data.(triples := r.data.triples))
  {
    TotalMerge(s.data.triples.GetOr(map[]), code, nr);
    s.(data := s.data.(triples := Some(Merge(s.data.triples.GetOr(map[]), code, nr))))
  }

  /** Adds a whole map of (mu,nu,eta) counts key-wise. */
  function AddAllToTriples<C(!new)>(s: State<C>, m: map<C, int>): (r: State<C>)
    ensures r.data.triples.Some?
    ensures forall k :: Get0(r.data.triples.value, k) == Get0(s.data.triples.GetOr(map[]), k) + Get0(m, k)
    ensures Total(r.data.triples.value) == Total(s.data.triples.GetOr(map[])) + Total(m)
    ensures r == s.(data := s.data.(triples := r.data.triples))
  {
    TotalKeywiseSum(s.data.triples.GetOr(map[]), m);
    s.(data := s.data.(triples := Some(KeywiseSum(s.data.triples.GetOr(map[]), m))))
  }

  /** Adding the entries of `m` one at a time gives the same state as adding the map at once. */
  method AddEach<C(!new)>(s: State<C>, m: map<C, int>) returns (r: State<C>)
    ensures r == AddAllToTriples(s, m)
  {
    r := s.(data := s.data.(triples := Some(s.data.triples.GetOr(map[]))));
    var rest := m;
    while rest != map[]
      invariant r.data.triples.Some?
      invariant r == s.(data := s.data.(triples := r.data.triples))
      invariant KeywiseSum(r.data.triples.value, rest) == KeywiseSum(s.data.triples.GetOr(map[]), m)
      decreases |rest|
    {
      var k :| k in rest;
      KeywiseShift(r.data.triples.value, rest, k);
      r := AddToTriple(r, k, rest[k]);
      rest := rest - {k};
    }
    KeywiseEmpty(r.data.triples.value);
  }

  /** Adds an elapsed time to the total recorded under a message. */
  function AddTiming<C>(s: State<C>, message: string, time: int): (r: State<C>)
    ensures message in r.data.timings && r.data.timings[message] == Get0(s.data.timings, message) + time
    ensures forall k :: k != message ==> Get0(r.data.timings, k) == Get0(s.data.timings, k)
    ensures r == s.(data := s.data.(timings := r.data.timings))
  {
    s.(data := s.data.(timings := Merge(s.data.timings, message, time)))
  }
}
