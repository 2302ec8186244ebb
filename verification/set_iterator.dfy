/**
 * The iterator over all subsets of one level that `IntervalPoset` uses
 * while counting lattices. It is a binary counter over the level's elements
 * (element i is binary digit i): it keeps the set it will return next and
 * the one before that, and every call swaps the two and increments the
 * older one twice. It stops once the counter wraps around to the empty set.
 */
module SetIterators {
  import opened Wrappers
  import opened Combinatorics
  import RoundRobin

  /** The subset of `els` chosen by the binary digits of `t`: digit i selects els[i]. */
  function SubsetOf<T>(els: seq<T>, t: nat): set<T>
    decreases |els|
  {
    if els == [] then {}
    else (if t % 2 == 1 then {els[0]} else {}) + SubsetOf(els[1..], t / 2)
  }

  /**
   * One pass of the increment loop of `next()`: walking the elements in
   * order, clear those that are present until one is absent, which is added.
   */
  function Bump<T>(cur: set<T>, els: seq<T>): set<T>
    decreases |els|
  {
    if els == [] then cur
    else if els[0] in cur then Bump(cur - {els[0]}, els[1..])
    else cur + {els[0]}
  }

  lemma {:induction false} SubsetOfWithin<T>(els: seq<T>, t: nat)
    ensures SubsetOf(els, t) <= RoundRobin.Elements(els)
    decreases |els|
  {
    if els != [] {
      SubsetOfWithin(els[1..], t / 2);
    }
  }

  lemma DistinctTail<T>(els: seq<T>)
    requires els != [] && RoundRobin.Distinct(els)
    ensures RoundRobin.Distinct(els[1..]) && els[0] !in RoundRobin.Elements(els[1..])
  {
    forall i, j | 0 <= i < j < |els[1..]|
      ensures els[1..][i] != els[1..][j]
    {
      assert els[1..][i] == els[i + 1] && els[1..][j] == els[j + 1];
    }
    forall k | 0 <= k < |els[1..]|
      ensures els[1..][k] != els[0]
    {
      assert els[1..][k] == els[k + 1];
    }
  }

  /** Incrementing the set of counter value t gives the set of t + 1, wrapping at 2^k. */
  lemma {:induction false} BumpCounts<T>(els: seq<T>, t: nat)
    requires RoundRobin.Distinct(els) && t < Pow2(|els|)
    ensures Bump(SubsetOf(els, t), els) == SubsetOf(els, (t + 1) % Pow2(|els|))
    decreases |els|
  {
    if els != [] {
      var tail := els[1..];
      var q := Pow2(|tail|);
      DistinctTail(els);
      SubsetOfWithin(tail, t / 2);
      HalfStep(t, q);
      var u := (t + 1) % Pow2(|els|);
      if t % 2 == 0 {
        assert SubsetOf(els, u) == {els[0]} + SubsetOf(tail, t / 2);
      } else {
        assert SubsetOf(els, t) - {els[0]} == SubsetOf(tail, t / 2);
        BumpCounts(tail, t / 2);
        assert SubsetOf(els, u) == SubsetOf(tail, (t / 2 + 1) % q);
      }
    }
  }

  /** The counter arithmetic one binary digit down: k + 1 digits are digit 0 and k digits above it. */
  lemma HalfStep(t: nat, q: nat)
    requires q >= 1 && t < 2 * q
    ensures t / 2 < q
    ensures t % 2 == 0 ==> (t + 1) % (2 * q) == t + 1 && (t + 1) % 2 == 1 && (t + 1) / 2 == t / 2
    ensures t % 2 == 1 ==> ((t + 1) % (2 * q)) % 2 == 0 && ((t + 1) % (2 * q)) / 2 == (t / 2 + 1) % q
  {
    var m, h := 2 * q, t / 2;
    assert t == 2 * h + t % 2;
    ModOf(t + 1, m);
    if t % 2 == 1 {
      ModOf(h + 1, q);
    }
  }

  /** The remainder of a value below or at the modulus. */
  lemma ModOf(a: nat, m: nat)
    requires 0 < m && a <= m
    ensures a % m == if a == m then 0 else a
  {
  }

  /** Only the counter value 0 selects the empty set. */
  lemma {:induction false} SubsetOfEmpty<T>(els: seq<T>, t: nat)
    requires t < Pow2(|els|)
    ensures SubsetOf(els, t) == {} <==> t == 0
    decreases |els|
  {
    if els != [] {
      SubsetOfEmpty(els[1..], t / 2);
      if t % 2 == 1 {
        assert els[0] in SubsetOf(els, t);
      }
    }
  }

  /** The largest counter value selects every element. */
  lemma {:induction false} SubsetOfAll<T>(els: seq<T>)
    ensures SubsetOf(els, Pow2(|els|) - 1) == RoundRobin.Elements(els)
    decreases |els|
  {
    if els != [] {
      var tail := els[1..];
      SubsetOfAll(tail);
      var t := Pow2(|els|) - 1;
      assert t % 2 == 1 && t / 2 == Pow2(|tail|) - 1;
      assert els == [els[0]] + tail;
      assert RoundRobin.Elements(els) == {els[0]} + RoundRobin.Elements(tail);
    }
  }

  /** Over distinct elements, different counter values select different subsets. */
  lemma {:induction false} SubsetOfInjective<T>(els: seq<T>, t1: nat, t2: nat)
    requires RoundRobin.Distinct(els) && t1 < Pow2(|els|) && t2 < Pow2(|els|)
    requires SubsetOf(els, t1) == SubsetOf(els, t2)
    ensures t1 == t2
    decreases |els|
  {
    if els != [] {
      var tail := els[1..];
      DistinctTail(els);
      SubsetOfWithin(tail, t1 / 2);
      SubsetOfWithin(tail, t2 / 2);
      assert (els[0] in SubsetOf(els, t1)) <==> t1 % 2 == 1;
      assert (els[0] in SubsetOf(els, t2)) <==> t2 % 2 == 1;
      assert SubsetOf(tail, t1 / 2) == SubsetOf(els, t1) - {els[0]};
      assert SubsetOf(tail, t2 / 2) == SubsetOf(els, t2) - {els[0]};
      SubsetOfInjective(tail, t1 / 2, t2 / 2);
    }
  }

  /** Every subset of the elements has a counter value. */
  lemma {:induction false} SubsetOfComplete<T>(els: seq<T>, s: set<T>)
    requires s <= RoundRobin.Elements(els)
    ensures exists t: nat :: t < Pow2(|els|) && SubsetOf(els, t) == s
    decreases |els|
  {
    if els == [] {
      assert SubsetOf(els, 0) == s;
    } else {
      var tail := els[1..];
      var rest := s - {els[0]};
      assert rest <= RoundRobin.Elements(tail) by {
        forall x | x in rest
          ensures x in tail
        {
          var k :| 0 <= k < |els| && els[k] == x;
          assert k != 0;
          assert tail[k - 1] == x;
        }
      }
      SubsetOfComplete(tail, rest);
      var u: nat :| u < Pow2(|tail|) && SubsetOf(tail, u) == rest;
      var t := 2 * u + (if els[0] in s then 1 else 0);
      assert t % 2 == (if els[0] in s then 1 else 0) && t / 2 == u;
      assert SubsetOf(els, t) == s;
    }
  }

  /** The anonymous iterator of `getSetIterator`. */
  datatype SetIterator<T> = SetIterator(current: set<T>, next: set<T>, elements: seq<T>, finished: bool)

  /** The iterator is at counter value t: it returns that subset next and holds the one before it. */
  ghost predicate At<T>(it: SetIterator<T>, els: seq<T>, t: nat)
  {
    && it.elements == els
    && t < Pow2(|els|)
    && !it.finished
    && it.current == SubsetOf(els, t)
    && it.next == SubsetOf(els, (t + Pow2(|els|) - 1) % Pow2(|els|))
  }

  /**
   * A fresh iterator over the level enumerated as `elements` (the order of
   * `toArray`): it returns the empty set first and holds the full level,
   * the counter value just before wrapping around.
   */
  function Start<T>(elements: seq<T>): (it: SetIterator<T>)
    ensures At(it, elements, 0)
    ensures it.next == RoundRobin.Elements(elements)
  {
    SubsetOfAll(elements);
    SubsetOfEmpty(elements, 0);
    Pow2Monotone(0, |elements|);
    CounterStep(0, Pow2(|elements|));
    SetIterator({}, RoundRobin.Elements(elements), elements, false)
  }

  function HasNext<T>(it: SetIterator<T>): bool
  {
    !it.finished
  }

  /**
   * `next()`: returns a copy of the current set; the held set becomes the
   * current one, is incremented twice and the old current set is held.
   * An empty result of the increments finishes the iteration.
   */
  function Next<T>(it: SetIterator<T>): (r: (set<T>, SetIterator<T>))
    ensures r.1.elements == it.elements
  {
    var cur := Bump(Bump(it.next, it.elements), it.elements);
    (it.current, SetIterator(cur, it.current, it.elements, it.finished || cur == {}))
  }

  /**
   * At counter value t, `next()` returns subset t and moves to t + 1; it
   * finishes exactly when t is the last value.
   */
  lemma NextCounts<T>(it: SetIterator<T>, els: seq<T>, t: nat)
    requires RoundRobin.Distinct(els) && At(it, els, t)
    ensures Next(it).0 == SubsetOf(els, t)
    ensures Next(it).1.finished <==> t + 1 == Pow2(|els|)
    ensures t + 1 < Pow2(|els|) ==> At(Next(it).1, els, t + 1)
  {
    var p := Pow2(|els|);
    CounterStep(t, p);
    var before, after := (t + p - 1) % p, (t + 1) % p;
    BumpCounts(els, before);
    assert Bump(it.next, els) == SubsetOf(els, t);
    BumpCounts(els, t);
    assert Bump(Bump(it.next, els), els) == SubsetOf(els, after);
    SubsetOfEmpty(els, after);
  }

  /** Counting modulo p: the value before t, and the value after it. */
  lemma CounterStep(t: nat, p: nat)
    requires t < p
    ensures (t + p - 1) % p < p && ((t + p - 1) % p + 1) % p == t
    ensures t == 0 ==> (t + p - 1) % p == p - 1
    ensures (t + 1) % p < p && ((t + 1) % p == 0 <==> t + 1 == p)
    ensures t + 1 < p ==> (t + 1) % p == t + 1 && (t + 1 + p - 1) % p == t
  {
    ModOf(t + 1, p);
    if t == 0 {
      ModOf(p - 1, p);
      ModOf(p, p);
    } else {
      ModOnce(t + p - 1, p);
      ModOf(t, p);
    }
    if t + 1 < p {
      ModOnce(t + p, p);
    }
  }

  /** The remainder of a value between the modulus and twice it. */
  lemma ModOnce(a: nat, m: nat)
    requires 0 < m <= a < 2 * m
    ensures a % m == a - m
  {
  }

  /** `remove()` is not supported. */
  function Remove<T>(it: SetIterator<T>): (r: Result<SetIterator<T>, string>)
    ensures r == Failure("UnsupportedOperationException")
  {
    Failure("UnsupportedOperationException")
  }

  /**
   * Draining a fresh iterator over k distinct elements: exactly 2^k
   * results, the counter's subsets in order starting from the empty set,
   * all different and together every subset of the level.
   */
  method Enumerate<T>(elements: seq<T>) returns (out: seq<set<T>>)
    requires RoundRobin.Distinct(elements)
    ensures |out| == Pow2(|elements|)
    ensures forall t :: 0 <= t < |out| ==> out[t] == SubsetOf(elements, t)
    ensures out[0] == {}
    ensures forall i, j :: 0 <= i < j < |out| ==> out[i] != out[j]
    ensures forall s :: s <= RoundRobin.Elements(elements) ==> s in out
  {
    var p := Pow2(|elements|);
    Pow2Monotone(0, |elements|);
    var it := Start(elements);
    out := [];
    while HasNext(it)
      invariant |out| <= p && it.elements == elements
      invariant forall t :: 0 <= t < |out| ==> out[t] == SubsetOf(elements, t)
      invariant it.finished <==> |out| == p
      invariant |out| < p ==> At(it, elements, |out|)
      decreases p - |out|
    {
      NextCounts(it, elements, |out|);
      var r := Next(it);
      out := out + [r.0];
      it := r.1;
    }
    forall i, j | 0 <= i < j < |out|
      ensures out[i] != out[j]
    {
      if out[i] == out[j] {
        SubsetOfInjective(elements, i, j);
      }
    }
    forall s | s <= RoundRobin.Elements(elements)
      ensures s in out
    {
      SubsetOfComplete(elements, s);
      var t: nat :| t < p && SubsetOf(elements, t) == s;
      assert out[t] == s;
    }
    SubsetOfEmpty(elements, 0);
  }
}
