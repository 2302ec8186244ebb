/**
 * Triples (mu, nu, eta) of antichains: their lexicographic order, the
 * three-element sort, the canonical form under a permutation group, the
 * consistency check with its lower bounds, the order-3 p-coefficient, the
 * enumeration of canonical triples with multiplicities, and the integer
 * code (`MNECode`).
 */
module MuNuEtas {
  import opened AntiChains
  import opened Wrappers
  import opened CountMaps
  import P3B

  /** `sorted` records that the triple is known to satisfy mu >= nu >= eta. */
  datatype MuNuEta = MuNuEta(mu: AntiChain, nu: AntiChain, eta: AntiChain, sorted: bool)

  /** A permutation of the ground set, as an `int[]`. */
  type Perm = seq<int>

  /** Lexicographic comparison over (mu, nu, eta); the `sorted` flag plays no part. */
  function Compare(cmp: (AntiChain, AntiChain) -> int, x: MuNuEta, y: MuNuEta): int
  {
    if cmp(x.mu, y.mu) != 0 then cmp(x.mu, y.mu)
    else if cmp(x.nu, y.nu) != 0 then cmp(x.nu, y.nu)
    else cmp(x.eta, y.eta)
  }

  predicate SameChains(x: MuNuEta, y: MuNuEta)
  {
    x.mu == y.mu && x.nu == y.nu && x.eta == y.eta
  }

  /** `equals` is `compareTo(o) == 0`. */
  function Equals(cmp: (AntiChain, AntiChain) -> int, x: MuNuEta, y: MuNuEta): (r: bool)
    requires IsTotalOrder(cmp)
    ensures r <==> SameChains(x, y)
  {
    CompareIsTotalOrder(cmp, x, y, y);
    Compare(cmp, x, y) == 0
  }

  /** The triple order is a total order on the chains when the antichain order is. */
  lemma CompareIsTotalOrder(cmp: (AntiChain, AntiChain) -> int, x: MuNuEta, y: MuNuEta, z: MuNuEta)
    requires IsTotalOrder(cmp)
    ensures Compare(cmp, x, y) == 0 <==> SameChains(x, y)
    ensures Compare(cmp, x, y) < 0 <==> Compare(cmp, y, x) > 0
    ensures Compare(cmp, x, y) < 0 && Compare(cmp, y, z) < 0 ==> Compare(cmp, x, z) < 0
  {
    OrderFacts(cmp, x.mu, y.mu, z.mu);
    OrderFacts(cmp, x.nu, y.nu, z.nu);
    OrderFacts(cmp, x.eta, y.eta, z.eta);
  }

  lemma OrderFacts(cmp: (AntiChain, AntiChain) -> int, p: AntiChain, q: AntiChain, r: AntiChain)
    requires IsTotalOrder(cmp)
    ensures cmp(p, q) == 0 <==> p == q
    ensures cmp(q, r) == 0 <==> q == r
    ensures cmp(p, r) == 0 <==> p == r
    ensures cmp(q, p) == 0 <==> q == p
    ensures cmp(r, q) == 0 <==> r == q
    ensures cmp(r, p) == 0 <==> r == p
    ensures cmp(p, q) < 0 <==> cmp(q, p) > 0
    ensures cmp(q, r) < 0 <==> cmp(r, q) > 0
    ensures cmp(p, r) < 0 <==> cmp(r, p) > 0
    ensures cmp(q, p) < 0 <==> cmp(p, q) > 0
    ensures cmp(r, q) < 0 <==> cmp(q, r) > 0
    ensures cmp(r, p) < 0 <==> cmp(p, r) > 0
    ensures cmp(p, q) < 0 && cmp(q, r) < 0 ==> cmp(p, r) < 0
  {
    assert ZeroIffEqual(cmp, p, q) && ZeroIffEqual(cmp, q, r) && ZeroIffEqual(cmp, p, r);
    assert ZeroIffEqual(cmp, q, p) && ZeroIffEqual(cmp, r, q) && ZeroIffEqual(cmp, r, p);
    assert SignFlips(cmp, p, q) && SignFlips(cmp, q, r) && SignFlips(cmp, p, r);
    assert SignFlips(cmp, q, p) && SignFlips(cmp, r, q) && SignFlips(cmp, r, p);
    assert Transitive(cmp, p, q, r);
  }

  /** "Not after" is transitive. */
  lemma CompareNotAfter(cmp: (AntiChain, AntiChain) -> int, x: MuNuEta, y: MuNuEta, z: MuNuEta)
    requires IsTotalOrder(cmp)
    requires Compare(cmp, x, y) <= 0 && Compare(cmp, y, z) <= 0
    ensures Compare(cmp, x, z) <= 0
  {
    CompareIsTotalOrder(cmp, x, y, z);
    CompareIsTotalOrder(cmp, x, z, y);
    CompareIsTotalOrder(cmp, y, z, x);
    if Compare(cmp, x, y) == 0 {
      CompareSame(cmp, x, y, z);
    } else if Compare(cmp, y, z) == 0 {
      CompareSameRight(cmp, x, y, z);
    }
  }

  lemma CompareSame(cmp: (AntiChain, AntiChain) -> int, x: MuNuEta, y: MuNuEta, z: MuNuEta)
    requires SameChains(x, y)
    ensures Compare(cmp, x, z) == Compare(cmp, y, z)
  {
  }

  lemma CompareSameRight(cmp: (AntiChain, AntiChain) -> int, x: MuNuEta, y: MuNuEta, z: MuNuEta)
    requires SameChains(y, z)
    ensures Compare(cmp, x, y) == Compare(cmp, x, z)
  {
  }

  /** The chains as a multiset, to state that sorting permutes them. */
  function Chains(t: MuNuEta): multiset<AntiChain>
  {
    multiset{t.mu, t.nu, t.eta}
  }

  /** Reorders the chains so that mu >= nu >= eta; a triple flagged sorted is returned as it is. */
  function Sort(cmp: (AntiChain, AntiChain) -> int, t: MuNuEta): (r: MuNuEta)
    requires IsTotalOrder(cmp)
    ensures r.sorted
    ensures t.sorted ==> r == t
    ensures !t.sorted ==> Chains(r) == Chains(t)
    ensures !t.sorted ==> cmp(r.mu, r.nu) >= 0 && cmp(r.nu, r.eta) >= 0
  {
    if t.sorted then t
    else
      var m1 := if cmp(t.mu, t.nu) >= 0 then t.mu else t.nu;
      var n1 := if cmp(t.mu, t.nu) >= 0 then t.nu else t.mu;
      var m2 := if cmp(t.eta, m1) > 0 then t.eta else m1;
      var e2 := if cmp(t.eta, m1) > 0 then m1 else t.eta;
      var n3 := if cmp(e2, n1) > 0 then e2 else n1;
      var e3 := if cmp(e2, n1) > 0 then n1 else e2;
      SortSteps(cmp, t.mu, t.nu, t.eta, m1, n1, m2, e2, n3, e3);
      MuNuEta(m2, n3, e3, true)
  }

  /** The three compare-and-swap steps of `Sort` leave a descending permutation. */
  lemma SortSteps(cmp: (AntiChain, AntiChain) -> int, mu: AntiChain, nu: AntiChain, eta: AntiChain,
                  m1: AntiChain, n1: AntiChain, m2: AntiChain, e2: AntiChain, n3: AntiChain, e3: AntiChain)
    requires IsTotalOrder(cmp)
    requires cmp(mu, nu) >= 0 ==> m1 == mu && n1 == nu
    requires cmp(mu, nu) < 0 ==> m1 == nu && n1 == mu
    requires cmp(eta, m1) > 0 ==> m2 == eta && e2 == m1
    requires cmp(eta, m1) <= 0 ==> m2 == m1 && e2 == eta
    requires cmp(e2, n1) > 0 ==> n3 == e2 && e3 == n1
    requires cmp(e2, n1) <= 0 ==> n3 == n1 && e3 == e2
    ensures multiset{m2, n3, e3} == multiset{mu, nu, eta}
    ensures cmp(m2, n3) >= 0 && cmp(n3, e3) >= 0
  {
    OrderFacts(cmp, mu, nu, eta);
    assert cmp(m1, n1) >= 0;
    OrderFacts(cmp, n1, m1, eta);
    assert cmp(m2, e2) >= 0 && cmp(m2, n1) >= 0;
    OrderFacts(cmp, e2, n1, m2);
    OrderFacts(cmp, n1, e2, m2);
  }

  /** The triple with every chain mapped through the permutation; the result is not flagged sorted. */
  function MapTriple(t: MuNuEta, p: Perm, mapping: (AntiChain, Perm) -> AntiChain): (r: MuNuEta)
    ensures !r.sorted
    ensures r.mu == mapping(t.mu, p) && r.nu == mapping(t.nu, p) && r.eta == mapping(t.eta, p)
  {
    MuNuEta(mapping(t.mu, p), mapping(t.nu, p), mapping(t.eta, p), false)
  }

  /** The candidates for the canonical form: the sorted triple and every sorted image. */
  ghost predicate IsCandidate(cmp: (AntiChain, AntiChain) -> int, t: MuNuEta, g: set<Perm>,
                              mapping: (AntiChain, Perm) -> AntiChain, c: MuNuEta)
    requires IsTotalOrder(cmp)
  {
    c == Sort(cmp, t) || exists p | p in g :: c == Sort(cmp, MapTriple(t, p, mapping))
  }

  /** `c` is not after the sorted image of `t` under `p`. */
  ghost predicate NotAfterImage(cmp: (AntiChain, AntiChain) -> int, c: MuNuEta, t: MuNuEta, p: Perm,
                                mapping: (AntiChain, Perm) -> AntiChain)
    requires IsTotalOrder(cmp)
  {
    Compare(cmp, c, Sort(cmp, MapTriple(t, p, mapping))) <= 0
  }

  /**
   * The least candidate under the triple order: the representative of the
   * equivalence class of `t` under the group `g`.
   */
  method Standard(cmp: (AntiChain, AntiChain) -> int, t: MuNuEta, g: set<Perm>,
                  mapping: (AntiChain, Perm) -> AntiChain) returns (best: MuNuEta)
    requires IsTotalOrder(cmp)
    ensures IsCandidate(cmp, t, g, mapping, best)
    ensures Compare(cmp, best, Sort(cmp, t)) <= 0
    ensures forall p | p in g :: NotAfterImage(cmp, best, t, p, mapping)
  {
    best := Sort(cmp, t);
    StandardStart(cmp, t, g, mapping);
    var todo := g;
    while todo != {}
      invariant todo <= g
      invariant IsCandidate(cmp, t, g, mapping, best)
      invariant Compare(cmp, best, Sort(cmp, t)) <= 0
      invariant forall p | p in g && p !in todo :: NotAfterImage(cmp, best, t, p, mapping)
      decreases |todo|
    {
      var p :| p in todo;
      best := Consider(cmp, t, g, todo, p, mapping, best);
      todo := todo - {p};
    }
  }

  lemma StandardStart(cmp: (AntiChain, AntiChain) -> int, t: MuNuEta, g: set<Perm>,
                      mapping: (AntiChain, Perm) -> AntiChain)
    requires IsTotalOrder(cmp)
    ensures IsCandidate(cmp, t, g, mapping, Sort(cmp, t))
    ensures Compare(cmp, Sort(cmp, t), Sort(cmp, t)) <= 0
  {
    CompareIsTotalOrder(cmp, Sort(cmp, t), Sort(cmp, t), Sort(cmp, t));
  }

  /** One step of the loop in `Standard`: keep the better of `best` and the image under `p`. */
  method Consider(cmp: (AntiChain, AntiChain) -> int, t: MuNuEta, g: set<Perm>, todo: set<Perm>, p: Perm,
                  mapping: (AntiChain, Perm) -> AntiChain, best: MuNuEta) returns (next: MuNuEta)
    requires IsTotalOrder(cmp)
    requires p in g
    requires IsCandidate(cmp, t, g, mapping, best)
    requires Compare(cmp, best, Sort(cmp, t)) <= 0
    requires forall q | q in g && q !in todo :: NotAfterImage(cmp, best, t, q, mapping)
    ensures IsCandidate(cmp, t, g, mapping, next)
    ensures Compare(cmp, next, Sort(cmp, t)) <= 0
    ensures forall q | q in g && q !in todo - {p} :: NotAfterImage(cmp, next, t, q, mapping)
  {
    var mapped := Sort(cmp, MapTriple(t, p, mapping));
    if Compare(cmp, mapped, best) < 0 {
      StandardImproves(cmp, t, g, todo, mapping, best, mapped);
      next := mapped;
      CompareIsTotalOrder(cmp, next, next, next);
    } else {
      next := best;
      CompareIsTotalOrder(cmp, mapped, best, best);
    }
    assert NotAfterImage(cmp, next, t, p, mapping);
  }

  lemma StandardImproves(cmp: (AntiChain, AntiChain) -> int, t: MuNuEta, g: set<Perm>, todo: set<Perm>,
                         mapping: (AntiChain, Perm) -> AntiChain, best: MuNuEta, mapped: MuNuEta)
    requires IsTotalOrder(cmp)
    requires Compare(cmp, mapped, best) < 0
    requires Compare(cmp, best, Sort(cmp, t)) <= 0
    requires forall p | p in g && p !in todo :: NotAfterImage(cmp, best, t, p, mapping)
    ensures Compare(cmp, mapped, Sort(cmp, t)) <= 0
    ensures forall p | p in g && p !in todo :: NotAfterImage(cmp, mapped, t, p, mapping)
  {
    CompareNotAfter(cmp, mapped, best, Sort(cmp, t));
    forall p | p in g && p !in todo ensures NotAfterImage(cmp, mapped, t, p, mapping) {
      CompareNotAfter(cmp, mapped, best, Sort(cmp, MapTriple(t, p, mapping)));
    }
  }

  /** The integer code of a triple: the codes of its three chains. */
  datatype MNECode = MNECode(m: int, n: int, e: int)

  function Encode(t: MuNuEta, encode: AntiChain -> int): (c: MNECode)
    ensures c.m == encode(t.mu) && c.n == encode(t.nu) && c.e == encode(t.eta)
  {
    MNECode(encode(t.mu), encode(t.nu), encode(t.eta))
  }

  function Decode(c: MNECode, decode: int -> AntiChain): (t: MuNuEta)
    ensures !t.sorted
    ensures t.mu == decode(c.m) && t.nu == decode(c.n) && t.eta == decode(c.e)
  {
    MuNuEta(decode(c.m), decode(c.n), decode(c.e), false)
  }

  /** Decoding an encoded triple gives back its chains when the antichain codec round-trips. */
  lemma DecodeEncode(t: MuNuEta, encode: AntiChain -> int, decode: int -> AntiChain)
    requires RoundTrips(encode, decode)
    ensures SameChains(Decode(Encode(t, encode), decode), t)
    ensures !t.sorted ==> Decode(Encode(t, encode), decode) == t
  {
  }

  /** `BigInteger.compareTo`: the sign of the difference. */
  function Sign(x: int, y: int): (r: int)
    ensures r == 0 <==> x == y
    ensures r < 0 <==> x < y
    ensures -1 <= r <= 1
  {
    if x < y then -1 else if x == y then 0 else 1
  }

  function CodeCompare(x: MNECode, y: MNECode): int
  {
    var res := Sign(x.m, y.m);
    var res' := if res == 0 then Sign(x.n, y.n) else res;
    if res' == 0 then Sign(x.e, y.e) else res'
  }

  function CodeEquals(x: MNECode, y: MNECode): (r: bool)
    ensures r <==> x == y
  {
    CodeCompare(x, y) == 0
  }

  /** Lexicographic order on codes, stated independently of `CodeCompare`. */
  predicate LexLess(x: MNECode, y: MNECode)
  {
    x.m < y.m || (x.m == y.m && (x.n < y.n || (x.n == y.n && x.e < y.e)))
  }

  /** `MNECode.compareTo` is the lexicographic order, and so a total order. */
  lemma CodeCompareLex(x: MNECode, y: MNECode, z: MNECode)
    ensures CodeCompare(x, y) < 0 <==> LexLess(x, y)
    ensures CodeCompare(x, y) > 0 <==> LexLess(y, x)
    ensures CodeCompare(x, y) == 0 <==> x == y
    ensures CodeCompare(x, y) < 0 && CodeCompare(y, z) < 0 ==> CodeCompare(x, z) < 0
  {
  }

  /** mu join nu join eta: the top of the triple. */
  function Top(t: MuNuEta): (r: AntiChain)
    ensures IsAntiChain(r)
  {
    Join(Join(t.mu, t.nu), t.eta)
  }

  /** mu meet nu meet eta: an upper bound on a meet b meet c for every solution. */
  function MaxBottom(t: MuNuEta): (r: AntiChain)
    ensures IsAntiChain(r)
  {
    Meet(Meet(t.mu, t.nu), t.eta)
  }

  /** In how many of the three chains `s` occurs. */
  function Occurrences(t: MuNuEta, s: set<int>): nat
  {
    (if s in t.mu then 1 else 0) + (if s in t.nu then 1 else 0) + (if s in t.eta then 1 else 0)
  }

  /** Every set of the top occurs in at least two of the chains. */
  ghost predicate Consistent(t: MuNuEta)
  {
    forall s | s in Top(t) :: Occurrences(t, s) >= 2
  }

  /** The lower bounds on a, b and c. */
  datatype Bounds = Bounds(mina: AntiChain, minb: AntiChain, minc: AntiChain)

  /** The sets of `done` that occur in exactly the two chains `x` and `y`. */
  function OnlyIn(x: AntiChain, y: AntiChain, z: AntiChain, done: set<set<int>>): AntiChain
  {
    set s | s in done && s in x && s in y && s !in z
  }

  /** The bounds the consistency check derives, by set comprehension. */
  function ExpectedBounds(t: MuNuEta): Bounds
  {
    var all := Top(t);
    Bounds(OnlyIn(t.mu, t.nu, t.eta, all), OnlyIn(t.mu, t.eta, t.nu, all), OnlyIn(t.nu, t.eta, t.mu, all))
  }

  /** `BitSet.flip`. */
  function Flip(u: set<nat>, i: nat): set<nat>
  {
    if i in u then u - {i} else u + {i}
  }

  /** The chains among a (0), b (1), c (2) that `s` does not yet account for. */
  function UnSeen(t: MuNuEta, s: set<int>): set<nat>
  {
    var u0: set<nat> := {0, 1, 2};
    var u1 := if s in t.mu then Flip(u0, 2) else u0;
    var u2 := if s in t.nu then Flip(u1, 1) else u1;
    if s in t.eta then Flip(u2, 0) else u2
  }

  /** Each chain holding `s` removes one of a, b, c from the unseen set. */
  lemma UnSeenCount(t: MuNuEta, s: set<int>)
    ensures |UnSeen(t, s)| + Occurrences(t, s) == 3
    ensures 0 in UnSeen(t, s) <==> s !in t.eta
    ensures 1 in UnSeen(t, s) <==> s !in t.nu
    ensures 2 in UnSeen(t, s) <==> s !in t.mu
  {
    var u := UnSeen(t, s);
    assert u <= {0, 1, 2};
    if s in t.mu && s in t.nu && s in t.eta {
      assert u == {};
    } else if s in t.mu && s in t.nu {
      assert u == {0};
    } else if s in t.mu && s in t.eta {
      assert u == {1};
    } else if s in t.nu && s in t.eta {
      assert u == {2};
    } else if s in t.mu {
      assert u == {0, 1};
    } else if s in t.nu {
      assert u == {0, 2};
    } else if s in t.eta {
      assert u == {1, 2};
    } else {
      assert u == {0, 1, 2};
    }
  }

  /**
   * `isNonZero`: walks the top, fails as soon as a set is unaccounted for
   * by two chains, and otherwise collects the sets in exactly two chains
   * as the lower bounds. Memoisation in the program does not change the
   * result and is not modelled.
   */
  method IsNonZero(t: MuNuEta) returns (r: Option<Bounds>)
    ensures r.None? <==> !Consistent(t)
    ensures r.Some? ==> r.value == ExpectedBounds(t)
  {
    var top := Top(t);
    var mina, minb, minc := {}, {}, {};
    var todo := top;
    while todo != {}
      invariant ScanAt(t, top, todo, mina, minb, minc)
      decreases |todo|
    {
      var s :| s in todo;
      var unSeen := UnSeen(t, s);
      UnSeenCount(t, s);
      var ok;
      ok, mina, minb, minc := ScanStep(t, top, todo, s, unSeen, mina, minb, minc);
      if !ok {
        return None;
      }
      todo := todo - {s};
    }
    OnlyInAll(t, top);
    return Some(Bounds(mina, minb, minc));
  }

  /** The state of the scan with `todo` left: every set seen occurs twice, and the bounds hold the seen pairs. */
  ghost predicate ScanAt(t: MuNuEta, top: AntiChain, todo: AntiChain, mina: AntiChain, minb: AntiChain, minc: AntiChain)
  {
    && todo <= top
    && (forall s | s in top && s !in todo :: Occurrences(t, s) >= 2)
    && mina == OnlyIn(t.mu, t.nu, t.eta, top - todo)
    && minb == OnlyIn(t.mu, t.eta, t.nu, top - todo)
    && minc == OnlyIn(t.nu, t.eta, t.mu, top - todo)
  }

  /** One set of the scan: refuse it when two chains miss it, or file it under the bound of the chain that misses it. */
  method ScanStep(t: MuNuEta, top: AntiChain, todo: AntiChain, s: set<int>, unSeen: set<nat>,
                  mina: AntiChain, minb: AntiChain, minc: AntiChain)
    returns (ok: bool, mina': AntiChain, minb': AntiChain, minc': AntiChain)
    requires s in todo && ScanAt(t, top, todo, mina, minb, minc)
    requires |unSeen| + Occurrences(t, s) == 3
    requires 0 in unSeen <==> s !in t.eta
    requires 1 in unSeen <==> s !in t.nu
    requires 2 in unSeen <==> s !in t.mu
    ensures ok ==> ScanAt(t, top, todo - {s}, mina', minb', minc')
    ensures !ok ==> s in top && Occurrences(t, s) < 2
  {
    ok := |unSeen| <= 1;
    var one := |unSeen| == 1;
    mina' := if one && 0 in unSeen then mina + {s} else mina;
    minb' := if one && 0 !in unSeen && 1 in unSeen then minb + {s} else minb;
    minc' := if one && 0 !in unSeen && 1 !in unSeen && 2 in unSeen then minc + {s} else minc;
    if ok {
      ScanFile(t, top, todo, s, mina, minb, minc);
    }
  }

  /** A set that occurs in two chains joins the bound of the chain that misses it, if any. */
  lemma ScanFile(t: MuNuEta, top: AntiChain, todo: AntiChain, s: set<int>,
                 mina: AntiChain, minb: AntiChain, minc: AntiChain)
    requires s in todo && ScanAt(t, top, todo, mina, minb, minc) && Occurrences(t, s) >= 2
    ensures ScanAt(t, top, todo - {s},
                   mina + (if s !in t.eta then {s} else {}),
                   minb + (if s !in t.nu then {s} else {}),
                   minc + (if s !in t.mu then {s} else {}))
  {
    OnlyInStep(top, todo, s, t.mu, t.nu, t.eta);
    OnlyInStep(top, todo, s, t.mu, t.eta, t.nu);
    OnlyInStep(top, todo, s, t.nu, t.eta, t.mu);
  }

  lemma OnlyInStep(top: AntiChain, todo: AntiChain, s: set<int>, x: AntiChain, y: AntiChain, z: AntiChain)
    requires s in todo && todo <= top
    ensures OnlyIn(x, y, z, top - (todo - {s}))
        == OnlyIn(x, y, z, top - todo) + (if s in x && s in y && s !in z then {s} else {})
  {
    assert top - (todo - {s}) == (top - todo) + {s};
  }

  lemma OnlyInAll(t: MuNuEta, top: AntiChain)
    requires top == Top(t)
    ensures top - {} == top
  {
  }

  /** `(a, b, c)` solves the triple: a join b == mu, a join c == nu, b join c == eta. */
  ghost predicate Solves(t: MuNuEta, a: AntiChain, b: AntiChain, c: AntiChain)
  {
    Join(a, b) == t.mu && Join(a, c) == t.nu && Join(b, c) == t.eta
  }

  lemma ChainsBelowTop(t: MuNuEta)
    ensures Le(t.mu, Top(t)) && Le(t.nu, Top(t)) && Le(t.eta, Top(t))
  {
    JoinIsLub(t.mu, t.nu, Top(t));
    JoinIsLub(Join(t.mu, t.nu), t.eta, Top(t));
    LeTransitive(t.mu, Join(t.mu, t.nu), Top(t));
    LeTransitive(t.nu, Join(t.mu, t.nu), Top(t));
  }

  /** A set of the top lies below a chain exactly when it is a member of that chain. */
  lemma TopExact(t: MuNuEta, x: AntiChain, s: set<int>)
    requires s in Top(t) && Le(x, Top(t))
    ensures Ge(x, s) <==> s in x
  {
    if Ge(x, s) {
      var u :| u in x && s <= u;
      assert Ge(Top(t), u);
      var v :| v in Top(t) && u <= v;
      assert IsAntiChain(Top(t)) && s <= v;
      assert s == v;
      assert u == s;
    } else {
      assert s in x ==> s <= s;
    }
  }

  lemma TopCovered(t: MuNuEta, s: set<int>)
    requires s in Top(t)
    ensures s in t.mu || s in t.nu || s in t.eta
  {
    assert Ge(Top(t), s);
    JoinGe(Join(t.mu, t.nu), t.eta, s);
    JoinGe(t.mu, t.nu, s);
    ChainsBelowTop(t);
    TopExact(t, t.mu, s);
    TopExact(t, t.nu, s);
    TopExact(t, t.eta, s);
  }

  /**
   * Under a solution, a set of the top occurs in at least two chains, and a
   * set in exactly two of them lies below the one of a, b, c they share.
   */
  lemma SolutionAccounts(t: MuNuEta, a: AntiChain, b: AntiChain, c: AntiChain, s: set<int>)
    requires Solves(t, a, b, c) && s in Top(t)
    ensures Occurrences(t, s) >= 2
    ensures s in t.mu && s in t.nu && s !in t.eta ==> Ge(a, s)
    ensures s in t.mu && s in t.eta && s !in t.nu ==> Ge(b, s)
    ensures s in t.nu && s in t.eta && s !in t.mu ==> Ge(c, s)
  {
    ChainsBelowTop(t);
    TopExact(t, t.mu, s);
    TopExact(t, t.nu, s);
    TopExact(t, t.eta, s);
    TopCovered(t, s);
    JoinGe(a, b, s);
    JoinGe(a, c, s);
    JoinGe(b, c, s);
  }

  /** `isNonZero` is sound: an inconsistent triple has no solution. */
  lemma InconsistentHasNoSolution(t: MuNuEta, a: AntiChain, b: AntiChain, c: AntiChain)
    requires !Consistent(t)
    ensures !Solves(t, a, b, c)
  {
    if Solves(t, a, b, c) {
      var s :| s in Top(t) && Occurrences(t, s) < 2;
      SolutionAccounts(t, a, b, c, s);
    }
  }

  /** The bounds `isNonZero` derives lie below a, b and c of every solution. */
  lemma BoundsBelowSolutions(t: MuNuEta, a: AntiChain, b: AntiChain, c: AntiChain)
    requires Solves(t, a, b, c)
    ensures Consistent(t)
    ensures Le(ExpectedBounds(t).mina, a) && Le(ExpectedBounds(t).minb, b) && Le(ExpectedBounds(t).minc, c)
  {
    forall s | s in Top(t) ensures Occurrences(t, s) >= 2 {
      SolutionAccounts(t, a, b, c, s);
    }
    var e := ExpectedBounds(t);
    forall s | s in e.mina ensures Ge(a, s) {
      SolutionAccounts(t, a, b, c, s);
    }
    forall s | s in e.minb ensures Ge(b, s) {
      SolutionAccounts(t, a, b, c, s);
    }
    forall s | s in e.minc ensures Ge(c, s) {
      SolutionAccounts(t, a, b, c, s);
    }
  }

  /** mina meet minb meet minc. */
  function Bottom(m: Bounds): (r: AntiChain)
    ensures IsAntiChain(r)
  {
    Meet(Meet(m.mina, m.minb), m.minc)
  }

  /** For every solution, bottom <= a meet b meet c <= mu meet nu meet eta. */
  lemma SolutionBetweenBottoms(t: MuNuEta, a: AntiChain, b: AntiChain, c: AntiChain)
    requires Solves(t, a, b, c)
    ensures Le(Bottom(ExpectedBounds(t)), P3B.Meet3(a, b, c))
    ensures Le(P3B.Meet3(a, b, c), MaxBottom(t))
  {
    var e := ExpectedBounds(t);
    BoundsBelowSolutions(t, a, b, c);
    LeIffDownBelow(e.mina, a);
    LeIffDownBelow(e.minb, b);
    LeIffDownBelow(e.minc, c);
    forall s | Ge(Bottom(e), s) ensures Ge(P3B.Meet3(a, b, c), s) {
      MeetGe(Meet(e.mina, e.minb), e.minc, s);
      MeetGe(e.mina, e.minb, s);
      P3B.Meet3Ge(a, b, c, s);
    }
    LeIffDownBelow(Bottom(e), P3B.Meet3(a, b, c));
    forall s | Ge(P3B.Meet3(a, b, c), s) ensures Ge(MaxBottom(t), s) {
      P3B.Meet3Ge(a, b, c, s);
      JoinGe(a, b, s);
      JoinGe(a, c, s);
      JoinGe(b, c, s);
      P3B.Meet3Ge(t.mu, t.nu, t.eta, s);
    }
    LeIffDownBelow(P3B.Meet3(a, b, c), MaxBottom(t));
  }

  /** A set maximal in x ∪ y and in x ∪ z but not in y ∪ z must come from x. */
  lemma FromFirst(x: AntiChain, y: AntiChain, z: AntiChain, s: set<int>)
    requires s in Join(x, y) && s in Join(x, z) && s !in Join(y, z)
    ensures s in x
  {
  }

  /**
   * The first a, b and c that `p` builds lie below a, b and c of every
   * solution whose triple meet is abc.
   */
  lemma SeedBelowSolutions(t: MuNuEta, abc: AntiChain, a: AntiChain, b: AntiChain, c: AntiChain)
    requires Solves(t, a, b, c) && P3B.Meet3(a, b, c) == abc
    ensures var seed := P3B.Seed(abc, P3B.SplitParts(abc, t.mu, t.nu, t.eta));
            Le(seed.0, a) && Le(seed.1, b) && Le(seed.2, c)
  {
    var p := P3B.SplitParts(abc, t.mu, t.nu, t.eta);
    forall s | s in p.pab * p.pac ensures Ge(a, s) {
      FromFirst(a, b, c, s);
      assert s <= s;
    }
    forall s | s in p.pab * p.pbc ensures Ge(b, s) {
      assert b + a == a + b;
      FromFirst(b, a, c, s);
      assert s <= s;
    }
    forall s | s in p.pac * p.pbc ensures Ge(c, s) {
      assert c + a == a + c && c + b == b + c;
      FromFirst(c, a, b, s);
      assert s <= s;
    }
    forall s | s in abc ensures Ge(a, s) && Ge(b, s) && Ge(c, s) {
      assert s <= s;
      P3B.Meet3Ge(a, b, c, s);
    }
    JoinIsLub(p.pab * p.pac, abc, a);
    JoinIsLub(p.pab * p.pbc, abc, b);
    JoinIsLub(p.pac * p.pbc, abc, c);
  }

  /**
   * The seed test of `p` is sound: when some solution has triple meet abc,
   * the seed's triple meet is abc as well, so returning 0 on a differing
   * meet never drops a solution.
   */
  lemma SeedTestSound(t: MuNuEta, abc: AntiChain, a: AntiChain, b: AntiChain, c: AntiChain)
    requires Solves(t, a, b, c) && P3B.Meet3(a, b, c) == abc
    ensures var seed := P3B.Seed(abc, P3B.SplitParts(abc, t.mu, t.nu, t.eta));
            P3B.Meet3(seed.0, seed.1, seed.2) == abc
  {
    var seed := P3B.Seed(abc, P3B.SplitParts(abc, t.mu, t.nu, t.eta));
    var m := P3B.Meet3(seed.0, seed.1, seed.2);
    SeedBelowSolutions(t, abc, a, b, c);
    LeIffDownBelow(seed.0, a);
    LeIffDownBelow(seed.1, b);
    LeIffDownBelow(seed.2, c);
    P3B.Meet3Grows(seed.0, seed.1, seed.2, a, b, c);
    forall s | s in abc ensures Ge(m, s) {
      assert Ge(seed.0, s) && Ge(seed.1, s) && Ge(seed.2, s);
      P3B.Meet3Ge(seed.0, seed.1, seed.2, s);
    }
    LeAntisymmetric(m, abc);
  }

  /** The bottom never exceeds the max-bottom, solution or not. */
  lemma BottomBelowMaxBottom(t: MuNuEta)
    ensures Le(Bottom(ExpectedBounds(t)), MaxBottom(t))
  {
    var e := ExpectedBounds(t);
    forall s | Ge(Bottom(e), s) ensures Ge(MaxBottom(t), s) {
      MeetGe(Meet(e.mina, e.minb), e.minc, s);
      MeetGe(e.mina, e.minb, s);
      var x :| x in e.mina && s <= x;
      var y :| y in e.minb && s <= y;
      assert Ge(t.mu, s) && Ge(t.nu, s) && Ge(t.eta, s);
      P3B.Meet3Ge(t.mu, t.nu, t.eta, s);
    }
    LeIffDownBelow(Bottom(e), MaxBottom(t));
  }

  /** `getMina`: the lower bound on a, or nothing (`null`) for an inconsistent triple. */
  method GetMina(t: MuNuEta) returns (r: Option<AntiChain>)
    ensures r.None? <==> !Consistent(t)
    ensures r.Some? ==> forall s | s in r.value :: s in Top(t) && s in t.mu && s in t.nu && s !in t.eta
    ensures r.Some? ==> r.value == ExpectedBounds(t).mina
  {
    var m := IsNonZero(t);
    r := if m.Some? then Some(m.value.mina) else None;
  }

  /** `getMinb`: the lower bound on b. */
  method GetMinb(t: MuNuEta) returns (r: Option<AntiChain>)
    ensures r.None? <==> !Consistent(t)
    ensures r.Some? ==> forall s | s in r.value :: s in Top(t) && s in t.mu && s in t.eta && s !in t.nu
    ensures r.Some? ==> r.value == ExpectedBounds(t).minb
  {
    var m := IsNonZero(t);
    r := if m.Some? then Some(m.value.minb) else None;
  }

  /** `getMinc`: the lower bound on c. */
  method GetMinc(t: MuNuEta) returns (r: Option<AntiChain>)
    ensures r.None? <==> !Consistent(t)
    ensures r.Some? ==> forall s | s in r.value :: s in Top(t) && s in t.nu && s in t.eta && s !in t.mu
    ensures r.Some? ==> r.value == ExpectedBounds(t).minc
  {
    var m := IsNonZero(t);
    r := if m.Some? then Some(m.value.minc) else None;
  }

  /** `getBottom`: the meet of the three lower bounds, or nothing for an inconsistent triple. */
  method GetBottom(t: MuNuEta) returns (r: Option<AntiChain>)
    ensures r.None? <==> !Consistent(t)
    ensures r.Some? ==> r.value == Bottom(ExpectedBounds(t)) && Le(r.value, MaxBottom(t))
  {
    var m := IsNonZero(t);
    if m.Some? {
      BottomBelowMaxBottom(t);
      r := Some(Bottom(m.value));
    } else {
      r := None;
    }
  }

  /** `p3`: the order-3 p-coefficient, 0 for an inconsistent triple. */
  method P3(t: MuNuEta, abc: AntiChain) returns (r: nat)
    ensures !Consistent(t) ==> r == 0
    ensures var seed := P3B.Seed(abc, P3B.SplitParts(abc, t.mu, t.nu, t.eta));
            P3B.Meet3(seed.0, seed.1, seed.2) != abc ==> r == 0
  {
    var m := IsNonZero(t);
    if m.Some? {
      var a, b, c, ina, inb, inc, sab, sac, sbc, sshared;
      r, a, b, c, ina, inb, inc, sab, sac, sbc, sshared := P3B.P(abc, t.mu, t.nu, t.eta);
    } else {
      r := 0;
    }
  }

  /**
   * The two cases in which `p3` answers 0 without counting are sound: a
   * solution whose meet is abc makes the triple consistent and passes the
   * seed test.
   */
  lemma P3ZeroesSound(t: MuNuEta, abc: AntiChain, a: AntiChain, b: AntiChain, c: AntiChain)
    requires Solves(t, a, b, c) && P3B.Meet3(a, b, c) == abc
    ensures Consistent(t)
    ensures var seed := P3B.Seed(abc, P3B.SplitParts(abc, t.mu, t.nu, t.eta));
            P3B.Meet3(seed.0, seed.1, seed.2) == abc
  {
    if !Consistent(t) {
      InconsistentHasNoSolution(t, a, b, c);
    }
    SeedTestSound(t, abc, a, b, c);
  }

  /** The lower end of the eta interval: (mu minus nu) join (nu minus mu). */
  function EtaLow(mu: AntiChain, nu: AntiChain): (r: AntiChain)
    ensures IsAntiChain(r)
  {
    Join(mu - nu, nu - mu)
  }

  /** The upper end of the eta interval: mu join nu. */
  function EtaHigh(mu: AntiChain, nu: AntiChain): (r: AntiChain)
    ensures IsAntiChain(r)
  {
    Join(mu, nu)
  }

  /** The eta interval is never empty as a lattice interval: its lower end lies below its upper end. */
  lemma EtaLowBelowHigh(mu: AntiChain, nu: AntiChain)
    ensures Le(EtaLow(mu, nu), EtaHigh(mu, nu))
  {
    forall s | Ge(EtaLow(mu, nu), s) ensures Ge(EtaHigh(mu, nu), s) {
      JoinGe(mu - nu, nu - mu, s);
      JoinGe(mu, nu, s);
      if Ge(mu - nu, s) {
        var x :| x in mu - nu && s <= x;
        assert Ge(mu, s);
      } else {
        var x :| x in nu - mu && s <= x;
        assert Ge(nu, s);
      }
    }
    LeIffDownBelow(EtaLow(mu, nu), EtaHigh(mu, nu));
  }

  type Triple = (AntiChain, AntiChain, AntiChain)

  /** The triples the enumeration visits: mu from `ne`, nu from the space, eta from the interval. */
  ghost predicate Enumerated(ne: map<AntiChain, int>, space: set<AntiChain>,
                             interval: (AntiChain, AntiChain) -> set<AntiChain>, x: Triple)
  {
    x.0 in ne && x.1 in space && x.2 in interval(EtaLow(x.0, x.1), EtaHigh(x.0, x.1))
  }

  ghost function Triples(ne: map<AntiChain, int>, space: set<AntiChain>,
                         interval: (AntiChain, AntiChain) -> set<AntiChain>): set<Triple>
  {
    set mu, nu, eta | mu in ne && nu in space && eta in interval(EtaLow(mu, nu), EtaHigh(mu, nu)) :: (mu, nu, eta)
  }

  /** Each triple of `d` weighted by the factor of its mu. */
  ghost function FactorMap(ne: map<AntiChain, int>, d: set<Triple>): map<Triple, int>
  {
    map x | x in d :: Get0(ne, x.0)
  }

  lemma FactorMapAdd(ne: map<AntiChain, int>, d: set<Triple>, x: Triple)
    requires x !in d
    ensures Total(FactorMap(ne, d + {x})) == Total(FactorMap(ne, d)) + Get0(ne, x.0)
  {
    var l, r := FactorMap(ne, d + {x}), Merge(FactorMap(ne, d), x, Get0(ne, x.0));
    assert l.Keys == r.Keys;
    SameEntries(l, r);
    TotalMerge(FactorMap(ne, d), x, Get0(ne, x.0));
  }

  /**
   * `equivalenceClasses(n, ne)`: every enumerated triple adds the factor of
   * its mu to the count of its canonical form. The antichain space, the
   * interval enumeration, the symmetry group and the action of a
   * permutation on an antichain are parameters. The counts add up to the
   * sum of the factors over all enumerated triples.
   */
  method EquivalenceClasses(cmp: (AntiChain, AntiChain) -> int, ne: map<AntiChain, int>, space: set<AntiChain>,
                            interval: (AntiChain, AntiChain) -> set<AntiChain>, g: set<Perm>,
                            mapping: (AntiChain, Perm) -> AntiChain)
    returns (res: map<MuNuEta, int>)
    requires IsTotalOrder(cmp)
    ensures Total(res) == Total(FactorMap(ne, Triples(ne, space, interval)))
  {
    res := map[];
    ghost var done: set<Triple> := {};
    var todo := ne.Keys;
    while todo != {}
      invariant todo <= ne.Keys
      invariant forall x :: x in done <==> Enumerated(ne, space, interval, x) && x.0 !in todo
      invariant Total(res) == Total(FactorMap(ne, done))
      decreases |todo|
    {
      var mu :| mu in todo;
      res, done := AddNus(cmp, ne, mu, space, interval, g, mapping, res, done);
      todo := todo - {mu};
    }
    assert done == Triples(ne, space, interval) by {
      forall x | x in Triples(ne, space, interval) ensures x in done {
        assert Enumerated(ne, space, interval, x);
      }
    }
  }

  /** The middle loop: every nu of the space, with the etas of its interval. */
  method AddNus(cmp: (AntiChain, AntiChain) -> int, ne: map<AntiChain, int>, mu: AntiChain, space: set<AntiChain>,
                interval: (AntiChain, AntiChain) -> set<AntiChain>, g: set<Perm>,
                mapping: (AntiChain, Perm) -> AntiChain, res: map<MuNuEta, int>, ghost done: set<Triple>)
    returns (res': map<MuNuEta, int>, ghost done': set<Triple>)
    requires IsTotalOrder(cmp)
    requires mu in ne
    requires forall x | x in done :: x.0 != mu
    requires Total(res) == Total(FactorMap(ne, done))
    ensures forall x :: x in done' <==> x in done || (x.0 == mu && Enumerated(ne, space, interval, x))
    ensures Total(res') == Total(FactorMap(ne, done'))
  {
    res', done' := res, done;
    var todo := space;
    while todo != {}
      invariant todo <= space
      invariant forall x :: x in done' <==> x in done || (x.0 == mu && Enumerated(ne, space, interval, x) && x.1 !in todo)
      invariant Total(res') == Total(FactorMap(ne, done'))
      decreases |todo|
    {
      var nu :| nu in todo;
      var etas := interval(EtaLow(mu, nu), EtaHigh(mu, nu));
      res', done' := AddEtas(cmp, ne, mu, nu, etas, g, mapping, res', done');
      todo := todo - {nu};
    }
  }

  /** The inner loop: every eta of one interval adds the factor of mu under its canonical form. */
  method AddEtas(cmp: (AntiChain, AntiChain) -> int, ne: map<AntiChain, int>, mu: AntiChain, nu: AntiChain,
                 etas: set<AntiChain>, g: set<Perm>, mapping: (AntiChain, Perm) -> AntiChain,
                 res: map<MuNuEta, int>, ghost done: set<Triple>)
    returns (res': map<MuNuEta, int>, ghost done': set<Triple>)
    requires IsTotalOrder(cmp)
    requires mu in ne
    requires forall x | x in done :: !(x.0 == mu && x.1 == nu)
    requires Total(res) == Total(FactorMap(ne, done))
    ensures forall x :: x in done' <==> x in done || (x.0 == mu && x.1 == nu && x.2 in etas)
    ensures Total(res') == Total(FactorMap(ne, done'))
  {
    res', done' := res, done;
    var todo := etas;
    while todo != {}
      invariant todo <= etas
      invariant forall x :: x in done' <==> x in done || (x.0 == mu && x.1 == nu && x.2 in etas && x.2 !in todo)
      invariant Total(res') == Total(FactorMap(ne, done'))
      decreases |todo|
    {
      var eta :| eta in todo;
      var mne := Standard(cmp, MuNuEta(mu, nu, eta, false), g, mapping);
      TotalMerge(res', mne, ne[mu]);
      FactorMapAdd(ne, done', (mu, nu, eta));
      res' := Merge(res', mne, ne[mu]);
      done' := done' + {(mu, nu, eta)};
      todo := todo - {eta};
    }
  }
}
