/** From reported status codes to success counts, and from counts to the weight of a chain. */
module Weights {
  import opened Common
  import opened ProviderKinds

  const U64_MAX := 0xFFFF_FFFF_FFFF_FFFF

  datatype Availability = Availability(success: nat, failure: nat) {
    function Plus(b: Availability): Availability {
      Availability(success + b.success, failure + b.failure)
    }
  }

  const NO_CALLS := Availability(0, 0)

  /** The labels of one sample and its value, already cast to `u64`. */
  datatype Metric = Metric(
    chainId: Option<string>,
    statusCode: Option<string>,
    provider: Option<string>,
    amount: nat)

  type Chains = map<string, Availability>

  type ParsedWeights = map<ProviderKind, (Chains, Availability)>

  predicate WellFormed(m: Metric) {
    m.chainId.Some? && m.statusCode.Some? && m.provider.Some?
  }

  predicate IsSuccess(status: string) {
    (status != [] && status[0] == '2') || status == "404" || status == "400"
  }

  function Counted(m: Metric): Availability
    requires WellFormed(m)
  {
    if IsSuccess(m.statusCode.value) then Availability(m.amount, 0) else Availability(0, m.amount)
  }

  function ChainsOf(w: ParsedWeights, k: ProviderKind): Chains {
    if k in w then w[k].0 else map[]
  }

  function OverallOf(w: ParsedWeights, k: ProviderKind): Availability {
    if k in w then w[k].1 else NO_CALLS
  }

  function OfChain(c: Chains, chain: string): Availability {
    if chain in c then c[chain] else NO_CALLS
  }

  /** `ProviderKind::from_str`, which recognizes every name as some kind. */
  type KindOf = string -> ProviderKind

  function AddTo<K(==)>(m: map<K, Availability>, k: K, a: Availability): map<K, Availability> {
    m[k := (if k in m then m[k] else NO_CALLS).Plus(a)]
  }

  function AddCounted(w: ParsedWeights, k: ProviderKind, chain: string, a: Availability): ParsedWeights {
    var chains := ChainsOf(w, k);
    w[k := (AddTo(chains, chain, a), OverallOf(w, k).Plus(a))]
  }

  function AddSample(w: ParsedWeights, m: Metric, kindOf: KindOf): ParsedWeights {
    if WellFormed(m) then AddCounted(w, kindOf(m.provider.value), m.chainId.value, Counted(m)) else w
  }

  function Fold(ms: seq<Metric>, kindOf: KindOf): ParsedWeights {
    if ms == [] then map[] else AddSample(Fold(ms[..|ms| - 1], kindOf), ms[|ms| - 1], kindOf)
  }

  method ParseWeights(ms: seq<Metric>, kindOf: KindOf) returns (weights: ParsedWeights)
    ensures weights == Fold(ms, kindOf)
  {
    weights := map[];
    for i := 0 to |ms|
      invariant weights == Fold(ms[..i], kindOf)
    {
      var m := ms[i];
      assert ms[..i + 1][..i] == ms[..i];
      if m.chainId.None? {
        continue;
      }
      if m.statusCode.None? {
        continue;
      }
      if m.provider.None? {
        continue;
      }
      var k, chain := kindOf(m.provider.value), m.chainId.value;
      var chains, overall := ChainsOf(weights, k), OverallOf(weights, k);
      var ofChain := OfChain(chains, chain);
      if IsSuccess(m.statusCode.value) {
        overall := overall.(success := overall.success + m.amount);
        ofChain := ofChain.(success := ofChain.success + m.amount);
      } else {
        overall := overall.(failure := overall.failure + m.amount);
        ofChain := ofChain.(failure := ofChain.failure + m.amount);
      }
      weights := weights[k := (chains[chain := ofChain], overall)];
    }
    assert ms[..|ms|] == ms;
  }

  // ---------------------------------------------------------------- what the fold counts

  predicate Concerns(m: Metric, k: ProviderKind, chain: string, kindOf: KindOf) {
    WellFormed(m) && kindOf(m.provider.value) == k && m.chainId.value == chain
  }

  /** The samples of one provider on one chain, added up. */
  function Total(ms: seq<Metric>, k: ProviderKind, chain: string, kindOf: KindOf): Availability {
    if ms == [] then NO_CALLS
    else
      var m := ms[|ms| - 1];
      var before := Total(ms[..|ms| - 1], k, chain, kindOf);
      if Concerns(m, k, chain, kindOf) then before.Plus(Counted(m)) else before
  }

  lemma AddCountedAt(w: ParsedWeights, l: ProviderKind, other: string, a: Availability, k: ProviderKind, chain: string)
    ensures var hit := k == l && chain == other;
            var before, after := ChainsOf(w, k), ChainsOf(AddCounted(w, l, other, a), k);
            && OfChain(after, chain) == (if hit then OfChain(before, chain).Plus(a) else OfChain(before, chain))
            && (chain in after <==> hit || chain in before)
  {
  }

  /** The fold has an entry exactly for the reported pairs, and it holds their total. */
  lemma {:induction false} FoldCountsSamples(ms: seq<Metric>, k: ProviderKind, chain: string, kindOf: KindOf)
    ensures OfChain(ChainsOf(Fold(ms, kindOf), k), chain) == Total(ms, k, chain, kindOf)
    ensures chain in ChainsOf(Fold(ms, kindOf), k) <==> exists i :: 0 <= i < |ms| && Concerns(ms[i], k, chain, kindOf)
  {
    if ms != [] {
      var n, m := |ms| - 1, ms[|ms| - 1];
      FoldCountsSamples(ms[..n], k, chain, kindOf);
      if WellFormed(m) {
        AddCountedAt(Fold(ms[..n], kindOf), kindOf(m.provider.value), m.chainId.value, Counted(m), k, chain);
      }
      assert forall i :: 0 <= i < n ==> ms[i] == ms[..n][i];
    }
  }

  /** The sum over all entries of a map. */
  ghost function SumOver<K>(m: map<K, Availability>): Availability {
    if m == map[] then NO_CALLS else var k :| k in m; m[k].Plus(SumOver(m - {k}))
  }

  lemma {:induction false} SumOverAny<K>(m: map<K, Availability>, k: K)
    requires k in m
    ensures SumOver(m) == m[k].Plus(SumOver(m - {k}))
    decreases m.Keys
  {
    var j :| j in m && SumOver(m) == m[j].Plus(SumOver(m - {j}));
    if j != k {
      var mj, mk := m - {j}, m - {k};
      assert mj.Keys < m.Keys && mk.Keys < m.Keys;
      SumOverAny(mj, k);
      SumOverAny(mk, j);
      var rest := mj - {k};
      assert rest == mk - {j};
      calc {
        SumOver(m);
        m[j].Plus(SumOver(mj));
        m[j].Plus(mj[k].Plus(SumOver(rest)));
        mk[j].Plus(m[k].Plus(SumOver(rest)));
        m[k].Plus(mk[j].Plus(SumOver(rest)));
        m[k].Plus(SumOver(mk));
      }
    }
  }

  /** Adding to one entry, present or not, adds to the sum. */
  lemma SumOverAdd<K>(m: map<K, Availability>, k: K, a: Availability)
    ensures SumOver(m[k := (if k in m then m[k] else NO_CALLS).Plus(a)]) == SumOver(m).Plus(a)
  {
    var m' := m[k := (if k in m then m[k] else NO_CALLS).Plus(a)];
    SumOverAny(m', k);
    assert m' - {k} == m - {k};
    if k in m {
      SumOverAny(m, k);
    } else {
      assert m - {k} == m;
    }
  }

  ghost function Overall(w: ParsedWeights): map<ProviderKind, Availability> {
    map k | k in w :: w[k].1
  }

  function AllCounted(ms: seq<Metric>): Availability {
    if ms == [] then NO_CALLS
    else
      var m := ms[|ms| - 1];
      var before := AllCounted(ms[..|ms| - 1]);
      if WellFormed(m) then before.Plus(Counted(m)) else before
  }

  ghost predicate OverallIsSumOfChains(w: ParsedWeights) {
    forall k :: k in w ==> w[k].1 == SumOver(w[k].0)
  }

  lemma AddCountedConserves(w: ParsedWeights, k: ProviderKind, chain: string, a: Availability)
    requires OverallIsSumOfChains(w)
    ensures OverallIsSumOfChains(AddCounted(w, k, chain, a))
    ensures SumOver(Overall(AddCounted(w, k, chain, a))) == SumOver(Overall(w)).Plus(a)
  {
    SumOverAdd(ChainsOf(w, k), chain, a);
    assert k !in w ==> SumOver(ChainsOf(w, k)) == NO_CALLS;
    SumOverAdd(Overall(w), k, a);
    assert Overall(AddCounted(w, k, chain, a)) == Overall(w)[k := OverallOf(w, k).Plus(a)];
  }

  /** Conservation: each provider's overall pair is the sum over its chains, and all of them the sum of the samples. */
  lemma {:induction false} FoldConserves(ms: seq<Metric>, kindOf: KindOf)
    ensures OverallIsSumOfChains(Fold(ms, kindOf))
    ensures SumOver(Overall(Fold(ms, kindOf))) == AllCounted(ms)
  {
    if ms != [] {
      var n, m := |ms| - 1, ms[|ms| - 1];
      FoldConserves(ms[..n], kindOf);
      if WellFormed(m) {
        AddCountedConserves(Fold(ms[..n], kindOf), kindOf(m.provider.value), m.chainId.value, Counted(m));
      }
    }
  }

  lemma AddCountedCommutes(w: ParsedWeights, k: ProviderKind, c: string, a: Availability,
                           l: ProviderKind, d: string, b: Availability)
    ensures AddCounted(AddCounted(w, k, c, a), l, d, b) == AddCounted(AddCounted(w, l, d, b), k, c, a)
  {
    if k == l {
      AddToCommutes(ChainsOf(w, k), c, a, d, b);
      var both := AddTo(AddTo(ChainsOf(w, k), c, a), d, b);
      AddedTwice(w, k, c, a, d, b);
      AddedTwice(w, k, d, b, c, a);
      assert AddCounted(AddCounted(w, k, c, a), l, d, b) == w[k := (both, OverallOf(w, k).Plus(a).Plus(b))];
    }
  }

  lemma AddToCommutes<K>(m: map<K, Availability>, c: K, a: Availability, d: K, b: Availability)
    ensures AddTo(AddTo(m, c, a), d, b) == AddTo(AddTo(m, d, b), c, a)
  {
    var left, right := AddTo(AddTo(m, c, a), d, b), AddTo(AddTo(m, d, b), c, a);
    assert left.Keys == right.Keys == m.Keys + {c, d};
    if c != d {
      assert left[c] == AddTo(m, c, a)[c] == right[c] && left[d] == AddTo(m, d, b)[d] == right[d];
    }
    assert forall k :: k in left ==> left[k] == right[k];
  }

  lemma AddedTwice(w: ParsedWeights, k: ProviderKind, c: string, a: Availability, d: string, b: Availability)
    ensures AddCounted(AddCounted(w, k, c, a), k, d, b)
         == w[k := (AddTo(AddTo(ChainsOf(w, k), c, a), d, b), OverallOf(w, k).Plus(a).Plus(b))]
  {
  }

  lemma {:induction false} FoldMoveToEnd(a: seq<Metric>, m: Metric, b: seq<Metric>, kindOf: KindOf)
    ensures Fold(a + [m] + b, kindOf) == AddSample(Fold(a + b, kindOf), m, kindOf)
  {
    if b == [] {
      assert a + [m] + b == a + [m] && (a + [m])[..|a|] == a && a + b == a;
    } else {
      var n, x := |b| - 1, b[|b| - 1];
      FoldMoveToEnd(a, m, b[..n], kindOf);
      assert (a + [m] + b)[..|a| + 1 + n] == a + [m] + b[..n];
      assert (a + b)[..|a| + n] == a + b[..n];
      if WellFormed(m) && WellFormed(x) {
        AddCountedCommutes(Fold(a + b[..n], kindOf), kindOf(m.provider.value), m.chainId.value, Counted(m),
                           kindOf(x.provider.value), x.chainId.value, Counted(x));
      }
    }
  }

  /** The order in which samples arrive does not matter. */
  lemma {:induction false} FoldOrderIrrelevant(a: seq<Metric>, b: seq<Metric>, kindOf: KindOf)
    requires multiset(a) == multiset(b)
    ensures Fold(a, kindOf) == Fold(b, kindOf)
  {
    if a == [] {
      assert |multiset(b)| == 0;
    } else {
      var n := |a| - 1;
      var m := a[n];
      assert m in multiset(b);
      var i :| 0 <= i < |b| && b[i] == m;
      assert a == a[..n] + [m];
      assert b == b[..i] + [m] + b[i + 1..];
      assert multiset(a[..n]) == multiset(a) - multiset{m};
      assert multiset(b[..i] + b[i + 1..]) == multiset(b) - multiset{m};
      FoldOrderIrrelevant(a[..n], b[..i] + b[i + 1..], kindOf);
      FoldMoveToEnd(b[..i], m, b[i + 1..], kindOf);
    }
  }

  // ---------------------------------------------------------------- the weight of a chain

  /** Successes over successes plus squared failures; 1 without calls. */
  function Rate(a: Availability): real {
    var total := a.success + a.failure * a.failure;
    if total == 0 then 1.0 else a.success as real / total as real
  }

  /** `checked_mul` of the number with itself fails. */
  predicate SquareOverflows(n: nat) {
    n * n > U64_MAX
  }

  /** The product of two rates in hundredths of a percent, rounded down. */
  function Combined(x: real, y: real): int {
    (x * y * 10000.0).Floor
  }

  function ChainWeight(provider: Availability, chain: Availability): (weight: nat)
    ensures weight <= 10000
  {
    RateRange(provider);
    RateRange(chain);
    CombinedMonotone(0.0, 0.0, Rate(provider), Rate(chain));
    CombinedMonotone(Rate(provider), Rate(chain), 1.0, 1.0);
    if SquareOverflows(provider.failure) then 0
    else if SquareOverflows(chain.failure) then 0
    else Combined(Rate(provider), Rate(chain))
  }

  lemma CombinedMonotone(x: real, y: real, x': real, y': real)
    requires 0.0 <= x <= x' && 0.0 <= y <= y'
    ensures Combined(x, y) <= Combined(x', y')
  {
    ProductMonotone(x, y, x', y');
  }

  lemma RateRange(a: Availability)
    ensures 0.0 <= Rate(a) <= 1.0
    ensures Rate(a) == 1.0 <==> a.failure == 0
  {
    var s, f := a.success, a.failure * a.failure;
    if a.failure > 0 {
      assert f > 0;
      DivideBelowOne(s as real, (s + f) as real);
    }
  }

  lemma DivideBelowOne(s: real, t: real)
    requires 0.0 <= s < t
    ensures 0.0 <= s / t < 1.0
  {
  }

  lemma DivideMonotone(s: real, t: real, s': real, t': real)
    requires t > 0.0 && t' > 0.0 && s * t' <= s' * t
    ensures s / t <= s' / t'
  {
    var q, q' := s / t, s' / t';
    assert s == q * t && s' == q' * t';
    if q > q' {
      ScaleLess(q', q, t * t');
    }
  }

  lemma ScaleLess(x: real, y: real, t: real)
    requires x < y && t > 0.0
    ensures x * t < y * t
  {
  }

  /** More successes or fewer failures never lower the rate. */
  lemma RateMonotone(a: Availability, b: Availability)
    requires a.success <= b.success && b.failure <= a.failure
    ensures Rate(a) <= Rate(b)
  {
    RateRange(a);
    RateRange(b);
    if b.failure > 0 {
      var s, f, s', f' := a.success, a.failure * a.failure, b.success, b.failure * b.failure;
      SquaresMonotone(b.failure, a.failure);
      CrossMultiply(s, f, s', f');
      assert s as real * (s' + f') as real == (s * (s' + f')) as real;
      assert s' as real * (s + f) as real == (s' * (s + f)) as real;
      DivideMonotone(s as real, (s + f) as real, s' as real, (s' + f') as real);
    }
  }

  lemma SquaresMonotone(x: nat, y: nat)
    requires x <= y
    ensures x * x <= y * y
    ensures x > 0 ==> x * x > 0
  {
  }

  lemma CrossMultiply(s: nat, f: nat, s': nat, f': nat)
    requires s <= s' && f' <= f
    ensures s * (s' + f') <= s' * (s + f)
  {
    assert s * f' <= s' * f;
  }

  lemma ProductMonotone(x: real, y: real, x': real, y': real)
    requires 0.0 <= x <= x' && 0.0 <= y <= y'
    ensures 0.0 <= x * y <= x' * y'
  {
  }

  /** The weight is the full 10000 exactly when neither side has a failure. */
  lemma ChainWeightFull(p: Availability, c: Availability)
    ensures ChainWeight(p, c) == 10000 <==> p.failure == 0 && c.failure == 0
  {
    RateRange(p);
    RateRange(c);
    if p.failure > 0 {
      CombinedMonotone(Rate(p), Rate(c), Rate(p), 1.0);
      BelowFull(Rate(p));
    } else if c.failure > 0 {
      CombinedMonotone(Rate(p), Rate(c), 1.0, Rate(c));
      CombinedSymmetric(1.0, Rate(c));
      BelowFull(Rate(c));
    }
  }

  lemma BelowFull(x: real)
    requires 0.0 <= x < 1.0
    ensures Combined(x, 1.0) < 10000
  {
    assert x * 1.0 * 10000.0 < 10000.0;
  }

  /** The weight never falls when successes are added, and never rises when failures are. */
  lemma ChainWeightMonotone(p: Availability, c: Availability, p': Availability, c': Availability)
    requires p.success <= p'.success && c.success <= c'.success
    requires p'.failure <= p.failure && c'.failure <= c.failure
    ensures ChainWeight(p, c) <= ChainWeight(p', c')
  {
    RateMonotone(p, p');
    RateMonotone(c, c');
    RateRange(p);
    RateRange(c);
    CombinedMonotone(Rate(p), Rate(c), Rate(p'), Rate(c'));
    OverflowMonotone(p'.failure, p.failure);
    OverflowMonotone(c'.failure, c.failure);
  }

  lemma OverflowMonotone(x: nat, y: nat)
    requires x <= y
    ensures SquareOverflows(x) ==> SquareOverflows(y)
  {
    SquaresMonotone(x, y);
  }

  /** The two arguments may be swapped, as `update_values` does. */
  lemma ChainWeightSymmetric(p: Availability, c: Availability)
    ensures ChainWeight(p, c) == ChainWeight(c, p)
  {
    CombinedSymmetric(Rate(p), Rate(c));
  }

  lemma CombinedSymmetric(x: real, y: real)
    ensures Combined(x, y) == Combined(y, x)
  {
    assert x * y == y * x;
  }

  /** A success rate as a fraction: successes over successes plus squared failures, or 1 over 1 without calls. */
  function Fraction(a: Availability): (f: (nat, nat))
    ensures f.1 > 0
    ensures a.success == 0 && a.failure == 0 ==> f == (1, 1)
    ensures a.success > 0 || a.failure > 0 ==> f == (a.success, a.success + a.failure * a.failure)
  {
    if a.success == 0 && a.failure == 0 then (1, 1)
    else
      SquaresMonotone(a.failure, a.failure);
      (a.success, a.success + a.failure * a.failure)
  }

  lemma RateTimesTotal(a: Availability)
    ensures Rate(a) * Fraction(a).1 as real == Fraction(a).0 as real
  {
    SquaresMonotone(a.failure, a.failure);
    if a.success > 0 || a.failure > 0 {
      QuotientTimesDivisor(a.success as real, Fraction(a).1 as real);
    }
  }

  lemma QuotientTimesDivisor(x: real, y: real)
    requires y > 0.0
    ensures x / y * y == x
  {
  }

  /** The largest integer `w` such that `w / 10000` is not above `s / n` times `t / m`. */
  ghost predicate IsLargest(w: int, s: nat, n: nat, t: nat, m: nat) {
    w * (n * m) <= 10000 * (s * t) < (w + 1) * (n * m)
  }

  /**
   * The weight in integers: the product of the two rates in hundredths of a percent, rounded down, and 0 where the
   * square of a failure count does not fit 64 bits.
   */
  lemma ChainWeightExactly(p: Availability, c: Availability)
    ensures if p.failure * p.failure >= 0x1_0000_0000_0000_0000 || c.failure * c.failure >= 0x1_0000_0000_0000_0000
            then ChainWeight(p, c) == 0
            else IsLargest(ChainWeight(p, c), Fraction(p).0, Fraction(p).1, Fraction(c).0, Fraction(c).1)
  {
    RatesExactly(p, c);
    WeightOrOverflow(p, c);
  }

  lemma WeightOrOverflow(p: Availability, c: Availability)
    ensures ChainWeight(p, c) ==
            if p.failure * p.failure >= 0x1_0000_0000_0000_0000 || c.failure * c.failure >= 0x1_0000_0000_0000_0000
            then 0
            else Combined(Rate(p), Rate(c))
  {
  }

  lemma RatesExactly(p: Availability, c: Availability)
    ensures IsLargest(Combined(Rate(p), Rate(c)), Fraction(p).0, Fraction(p).1, Fraction(c).0, Fraction(c).1)
  {
    RateTimesTotal(p);
    RateTimesTotal(c);
    CombinedExactly(Rate(p), Fraction(p).0, Fraction(p).1, Rate(c), Fraction(c).0, Fraction(c).1);
  }

  lemma CombinedExactly(x: real, s: nat, n: nat, y: real, t: nat, m: nat)
    requires n > 0 && m > 0 && x * n as real == s as real && y * m as real == t as real
    ensures IsLargest(Combined(x, y), s, n, t, m)
  {
    PositiveProduct(n, m);
    ScaledProduct(x, s, n, y, t, m);
    FloorOfFraction(x * y * 10000.0, n * m, 10000 * (s * t));
  }

  lemma ScaledProduct(x: real, s: nat, n: nat, y: real, t: nat, m: nat)
    requires x * n as real == s as real && y * m as real == t as real
    ensures x * y * 10000.0 * (n * m) as real == (10000 * (s * t)) as real
  {
    RealProduct(n, m);
    RealProduct(s, t);
    Regrouped(x, n as real, y, m as real);
  }

  lemma RealProduct(a: int, b: int)
    ensures (a * b) as real == a as real * b as real
  {
  }

  lemma PositiveProduct(a: nat, b: nat)
    requires a > 0 && b > 0
    ensures a * b > 0
  {
  }

  lemma FloorOfFraction(v: real, d: nat, x: nat)
    requires d > 0 && v * d as real == x as real
    ensures v.Floor * d <= x < (v.Floor + 1) * d
  {
    FloorIsBelow(v.Floor, v, d, x);
    NextIsAbove(v.Floor + 1, v, d, x);
  }

  lemma FloorIsBelow(w: int, v: real, d: nat, x: nat)
    requires d > 0 && v * d as real == x as real && w as real <= v
    ensures w * d <= x
  {
    RealProduct(w, d);
    if w as real < v {
      ScaleLess(w as real, v, d as real);
    }
    SameOrder(w * d, x, w as real * d as real, v * d as real);
  }

  lemma NextIsAbove(next: int, v: real, d: nat, x: nat)
    requires d > 0 && v * d as real == x as real && v < next as real
    ensures x < next * d
  {
    RealProduct(next, d);
    ScaleLess(v, next as real, d as real);
    SameOrder(x, next * d, v * d as real, next as real * d as real);
  }

  lemma SameOrder(a: int, b: int, x: real, y: real)
    requires a as real == x && b as real == y
    ensures a < b <==> x < y
  {
  }

  lemma Regrouped(x: real, n: real, y: real, m: real)
    ensures x * y * 10000.0 * (n * m) == 10000.0 * ((x * n) * (y * m))
  {
  }

  /**
   * What one more sample does, label by label: a status that starts with 2, or is 404 or 400, counts as so many
   * successes of its provider on its chain and of the provider, any other as failures; without all labels it is ignored.
   */
  lemma SampleCounts(ms: seq<Metric>, m: Metric, kindOf: KindOf)
    ensures var before, after := Fold(ms, kindOf), Fold(ms + [m], kindOf);
            if m.chainId.None? || m.statusCode.None? || m.provider.None? then after == before
            else
              var k, chain, status := kindOf(m.provider.value), m.chainId.value, m.statusCode.value;
              var success := (status != [] && status[0] == '2') || status == "404" || status == "400";
              var was, now := OfChain(ChainsOf(before, k), chain), OfChain(ChainsOf(after, k), chain);
              var wasAll, nowAll := OverallOf(before, k), OverallOf(after, k);
              && now.success == was.success + (if success then m.amount else 0)
              && now.failure == was.failure + (if success then 0 else m.amount)
              && nowAll.success == wasAll.success + (if success then m.amount else 0)
              && nowAll.failure == wasAll.failure + (if success then 0 else m.amount)
  {
    assert (ms + [m])[..|ms|] == ms;
  }
}
