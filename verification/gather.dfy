/**
 * The arithmetic of collecting results at the end of the summing stage.
 * Every node sends its partial sum as a byte string; the root receives
 * the strings back to back in one buffer, placed by displacements that are
 * the running totals of the lengths, and cuts them apart again. What each
 * node contributes per (mu,nu,eta) class is also here.
 */
module Gather {
  import opened Wrappers
  import opened AntiChains
  import opened States
  import opened RoundRobin

  /** The rank that collects the partial sums. */
  const RootRank := 0

  /** The displacement of part `i`: the total length of the parts before it. */
  function Offset(counts: seq<int>, i: nat): int
    requires i <= |counts|
  {
    SumOf(counts[..i])
  }

  /**
   * `gatherSum`'s displacements: the first is 0, and each next one adds the
   * length of the part before. Together with the last length they give the
   * buffer size, the total of all lengths.
   */
  method Displacements(counts: seq<int>) returns (displs: seq<int>, size: int)
    requires |counts| >= 1
    ensures |displs| == |counts| && displs[0] == 0
    ensures forall i :: 1 <= i < |counts| ==> displs[i] == displs[i - 1] + counts[i - 1]
    ensures forall i :: 0 <= i < |counts| ==> displs[i] == Offset(counts, i)
    ensures size == SumOf(counts)
  {
    displs := [0];
    assert counts[..0] == [];
    var i := 1;
    while i < |counts|
      invariant 1 <= i <= |counts| && |displs| == i && displs[0] == 0
      invariant forall j :: 1 <= j < i ==> displs[j] == displs[j - 1] + counts[j - 1]
      invariant forall j :: 0 <= j < i ==> displs[j] == Offset(counts, j)
    {
      assert counts[..i] == counts[..i - 1] + [counts[i - 1]];
      SumOfSnoc(counts[..i - 1], counts[i - 1]);
      displs := displs + [displs[i - 1] + counts[i - 1]];
      i := i + 1;
    }
    size := displs[|displs| - 1] + counts[|counts| - 1];
    assert counts == counts[..|counts| - 1] + [counts[|counts| - 1]];
    SumOfSnoc(counts[..|counts| - 1], counts[|counts| - 1]);
  }

  /** Displacements that cut a buffer of length `len` into consecutive pieces. */
  predicate Ascending(displs: seq<int>, len: int)
  {
    && (forall i :: 0 <= i < |displs| ==> 0 <= displs[i] <= len)
    && (forall i :: 0 < i < |displs| ==> displs[i - 1] <= displs[i])
  }

  /** The root's cutting of the buffer: from each displacement to the next one, and the last to the end. */
  function Slices<T>(buf: seq<T>, displs: seq<int>): (parts: seq<seq<T>>)
    requires Ascending(displs, |buf|)
    ensures |parts| == |displs|
  {
    seq(|displs|, i requires 0 <= i < |displs| => buf[displs[i] .. if i + 1 < |displs| then displs[i + 1] else |buf|])
  }

  function Concat<T>(parts: seq<seq<T>>): seq<T>
  {
    if parts == [] then [] else parts[0] + Concat(parts[1..])
  }

  function Lengths<T>(parts: seq<seq<T>>): (r: seq<int>)
    ensures |r| == |parts| && forall i :: 0 <= i < |parts| ==> r[i] == |parts[i]|
  {
    seq(|parts|, i requires 0 <= i < |parts| => |parts[i]|)
  }

  lemma {:induction false} ConcatLength<T>(parts: seq<seq<T>>)
    ensures |Concat(parts)| == SumOf(Lengths(parts))
    decreases |parts|
  {
    if parts != [] {
      ConcatLength(parts[1..]);
      assert Lengths(parts)[1..] == Lengths(parts[1..]);
    }
  }

  /** Part `i` sits in the concatenation at its offset. */
  lemma {:induction false} ConcatSlice<T>(parts: seq<seq<T>>, i: nat)
    requires i < |parts|
    ensures 0 <= Offset(Lengths(parts), i)
    ensures Offset(Lengths(parts), i + 1) == Offset(Lengths(parts), i) + |parts[i]|
    ensures Offset(Lengths(parts), i + 1) <= |Concat(parts)|
    ensures Concat(parts)[Offset(Lengths(parts), i) .. Offset(Lengths(parts), i + 1)] == parts[i]
    decreases i
  {
    var ls := Lengths(parts);
    assert ls[..i + 1] == ls[..i] + [ls[i]];
    SumOfSnoc(ls[..i], ls[i]);
    SumOfNonNegative(ls[..i]);
    ConcatLength(parts);
    ConcatLength(parts[1..]);
    if i == 0 {
      assert ls[..0] == [];
    } else {
      var rest := parts[1..];
      ConcatSlice(rest, i - 1);
      var o, o2 := Offset(Lengths(rest), i - 1), Offset(Lengths(rest), i);
      assert ls[..i] == [|parts[0]|] + Lengths(rest)[..i - 1];
      assert ls[..i + 1] == [|parts[0]|] + Lengths(rest)[..i];
      assert SumOf(ls[..i]) == |parts[0]| + o;
      assert SumOf(ls[..i + 1]) == |parts[0]| + o2;
      assert Concat(parts) == parts[0] + Concat(rest);
      assert Concat(parts)[|parts[0]| + o .. |parts[0]| + o2] == Concat(rest)[o .. o2];
    }
    assert SumOf(ls) == SumOf(ls[..i + 1]) + SumOf(ls[i + 1..]) by {
      SumOfSplit(ls, i + 1);
    }
    SumOfNonNegative(ls[i + 1..]);
  }

  lemma {:induction false} SumOfSplit(xs: seq<int>, k: nat)
    requires k <= |xs|
    ensures SumOf(xs) == SumOf(xs[..k]) + SumOf(xs[k..])
    decreases k
  {
    if k == 0 {
      assert xs[..0] == [] && xs[0..] == xs;
    } else {
      SumOfSplit(xs[1..], k - 1);
      assert xs[..k] == [xs[0]] + xs[1..][..k - 1];
      assert xs[k..] == xs[1..][k - 1..];
    }
  }

  lemma {:induction false} SumOfNonNegative(xs: seq<int>)
    requires forall i :: 0 <= i < |xs| ==> xs[i] >= 0
    ensures SumOf(xs) >= 0
    decreases |xs|
  {
    if xs != [] {
      SumOfNonNegative(xs[1..]);
    }
  }

  /**
   * The round trip of `gatherSum`: concatenating the parts, placing them by
   * the displacements computed from their lengths and cutting the buffer
   * there gives back every part, in rank order.
   */
  lemma GatherRecovers<T>(parts: seq<seq<T>>)
    requires |parts| >= 1
    ensures var displs := seq(|parts|, i requires 0 <= i < |parts| => Offset(Lengths(parts), i));
      Ascending(displs, |Concat(parts)|) && Slices(Concat(parts), displs) == parts
  {
    var buf := Concat(parts);
    var displs := seq(|parts|, i requires 0 <= i < |parts| => Offset(Lengths(parts), i));
    forall i | 0 <= i < |parts|
      ensures 0 <= displs[i] <= |buf|
      ensures i > 0 ==> displs[i - 1] <= displs[i]
      ensures var e := if i + 1 < |parts| then displs[i + 1] else |buf|;
        displs[i] <= e <= |buf| && buf[displs[i] .. e] == parts[i]
    {
      SliceAt(parts, displs, i);
    }
    assert Ascending(displs, |buf|);
    var sl := Slices(buf, displs);
    forall i | 0 <= i < |parts|
      ensures sl[i] == parts[i]
    {
      SliceAt(parts, displs, i);
      assert sl[i] == buf[displs[i] .. if i + 1 < |parts| then displs[i + 1] else |buf|];
    }
  }

  /** Part `i` is the piece of the buffer from its displacement to the next one, or to the end. */
  lemma SliceAt<T>(parts: seq<seq<T>>, displs: seq<int>, i: nat)
    requires |displs| == |parts| && i < |parts|
    requires forall j :: 0 <= j < |parts| ==> displs[j] == Offset(Lengths(parts), j)
    ensures 0 <= displs[i] <= |Concat(parts)|
    ensures i > 0 ==> displs[i - 1] <= displs[i]
    ensures var e := if i + 1 < |parts| then displs[i + 1] else |Concat(parts)|;
      displs[i] <= e <= |Concat(parts)| && Concat(parts)[displs[i] .. e] == parts[i]
  {
    ConcatSlice(parts, i);
    if i > 0 {
      ConcatSlice(parts, i - 1);
    }
    if i + 1 == |parts| {
      ConcatLength(parts);
      assert Lengths(parts)[..|parts|] == Lengths(parts);
    }
  }

  /**
   * What `gatherSum` answers on each node: the root adds up the partial
   * sums of all nodes, every other node gets an empty collection, which
   * adds up to zero.
   */
  function GatheredSum(rank: int, partials: seq<int>): int
  {
    if rank == RootRank then SumOf(partials) else 0
  }

  /**
   * When node `i` holds the contributions rank `i` claimed, the root's
   * gathered sum is the sum over all items, and the others end with zero.
   */
  lemma GatheredSumIsTotal(partials: seq<int>, vals: seq<int>, c: int, rank: int)
    requires |partials| >= 1
    requires forall i :: 0 <= i < |partials| ==> partials[i] == Claimed(vals, c, |partials|, i)
    ensures GatheredSum(rank, partials) == if rank == RootRank then SumOf(vals) else 0
  {
    assert partials == Claims(vals, c, |partials|);
    ClaimsPartition(vals, c, |partials|);
  }

  /** Sum over `abcs` of p3(abc) times the left interval size of the standard form of abc. */
  function Weighted(abcs: seq<AntiChain>, p3: AntiChain -> int, left: map<AntiChain, int>, standard: AntiChain -> AntiChain)
    : int
    requires forall j :: 0 <= j < |abcs| ==> standard(abcs[j]) in left
    decreases |abcs|
  {
    if abcs == [] then 0
    else
      var last := abcs[|abcs| - 1];
      Weighted(abcs[..|abcs| - 1], p3, left, standard) + p3(last) * left[standard(last)]
  }

  lemma Distribute(f: int, w: int, x: int)
    ensures f * w + x * f == f * (w + x)
  {
  }

  /**
   * One (mu,nu,eta) class's contribution in `computeSum`: over the interval
   * from its bottom to its maximal bottom (`abcs`), p3(abc) times the left
   * size of abc's standard form times the factor rhoIntegral * multiplicity.
   * A standard form without a left size leaves `get` with null to unbox,
   * which throws.
   */
  method Contribution(abcs: seq<AntiChain>, p3: AntiChain -> int, left: map<AntiChain, int>,
                      standard: AntiChain -> AntiChain, rho: int, m: int) returns (r: Result<int, string>)
    ensures r.Failure? <==> exists j :: 0 <= j < |abcs| && standard(abcs[j]) !in left
    ensures r.Failure? ==> r.error == "NullPointerException"
    ensures r.Success? ==> r.value == rho * m * Weighted(abcs, p3, left, standard)
  {
    var factor := rho * m;
    var temp := 0;
    var j := 0;
    while j < |abcs|
      invariant 0 <= j <= |abcs|
      invariant forall i :: 0 <= i < j ==> standard(abcs[i]) in left
      invariant temp == factor * Weighted(abcs[..j], p3, left, standard)
    {
      var key := standard(abcs[j]);
      if key !in left {
        return Failure("NullPointerException");
      }
      assert abcs[..j + 1][..j] == abcs[..j];
      Distribute(factor, Weighted(abcs[..j], p3, left, standard), p3(abcs[j]) * left[key]);
      temp := temp + p3(abcs[j]) * left[key] * factor;
      j := j + 1;
    }
    assert abcs[..j] == abcs;
    return Success(temp);
  }
}
