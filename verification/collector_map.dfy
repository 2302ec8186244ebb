/**
 * The sequential map semantics of the collector shared by worker threads:
 * a map from keys to counts plus running totals of iterations and time.
 * Admission control (`enter`/`leave`/`isReady`) is synchronisation only and
 * not part of this model.
 */
module Collector {
  import opened CountMaps

  datatype CollectorMap<T> = CollectorMap(
    allowedProcesses: int,
    result: map<T, int>,
    iterations: int,
    time: int)

  function NewCollector<T(!new)>(p: int): (c: CollectorMap<T>)
    ensures c.allowedProcesses == p
    ensures c.result == map[] && c.iterations == 0 && c.time == 0
  {
    CollectorMap(p, map[], 0, 0)
  }

  /** Adds `factor` to the count of `v` and the two amounts to the running totals. */
  function Register<T(!new)>(c: CollectorMap<T>, v: T, factor: int, its: int, sec: int): (r: CollectorMap<T>)
    ensures v in r.result && r.result[v] == Get0(c.result, v) + factor
    ensures forall t :: t != v ==> Get0(r.result, t) == Get0(c.result, t)
    ensures r.iterations == c.iterations + its && r.time == c.time + sec
    ensures r.allowedProcesses == c.allowedProcesses
  {
    c.(result := Merge(c.result, v, factor), iterations := c.iterations + its, time := c.time + sec)
  }

  /** Registering adds exactly `factor` to the grand total of the counts. */
  lemma RegisterTotal<T(!new)>(c: CollectorMap<T>, v: T, factor: int, its: int, sec: int)
    ensures Total(Register(c, v, factor, its, sec).result) == Total(c.result) + factor
  {
    TotalMerge(c.result, v, factor);
  }

  /** Sets `t` to `v` only when `t` has no value yet. */
  function CSet<T(!new)>(c: CollectorMap<T>, t: T, v: int): (r: CollectorMap<T>)
    ensures Valued(r, t)
    ensures Valued(c, t) ==> r == c
    ensures !Valued(c, t) ==> r.result[t] == v
    ensures forall u :: u != t ==> Get0(r.result, u) == Get0(c.result, u) && (Valued(r, u) <==> Valued(c, u))
    ensures r.allowedProcesses == c.allowedProcesses && r.iterations == c.iterations && r.time == c.time
  {
    c.(result := PutIfAbsent(c.result, t, v))
  }

  /** A second conditional set of the same key has no effect. */
  lemma CSetIdempotent<T(!new)>(c: CollectorMap<T>, t: T, v: int, w: int)
    ensures CSet(CSet(c, t, v), t, w) == CSet(c, t, v)
  {
  }

  /** Sets `t` to `v`, overwriting any earlier value. */
  function Set<T(!new)>(c: CollectorMap<T>, t: T, v: int): (r: CollectorMap<T>)
    ensures Valued(r, t) && r.result[t] == v
    ensures forall u :: u != t ==> Get0(r.result, u) == Get0(c.result, u) && (Valued(r, u) <==> Valued(c, u))
    ensures r.allowedProcesses == c.allowedProcesses && r.iterations == c.iterations && r.time == c.time
  {
    c.(result := c.result[t := v])
  }

  /** The last unconditional set wins. */
  lemma SetOverwrites<T(!new)>(c: CollectorMap<T>, t: T, v: int, w: int)
    ensures Set(Set(c, t, v), t, w) == Set(c, t, w)
  {
  }

  /** `valued(t)`: t has a count; a key without one counts as 0. */
  predicate Valued<T(!new)>(c: CollectorMap<T>, t: T): (b: bool)
    ensures b <==> t in c.result
    ensures !b ==> Get0(c.result, t) == 0
  {
    t in c.result
  }

  /** A key, once valued, stays valued under every update; `register` values its key. */
  lemma ValuedStaysValued<T(!new)>(c: CollectorMap<T>, t: T, v: T, factor: int, its: int, sec: int, w: int)
    ensures Valued(Register(c, v, factor, its, sec), v)
    ensures Valued(c, t) ==> Valued(Register(c, v, factor, its, sec), t)
    ensures Valued(c, t) ==> Valued(CSet(c, v, w), t) && Valued(Set(c, v, w), t)
  {
  }
}
