/** The exact iteration over rationals, which the fixed-point one never exceeds. */
module PropagateExact {
  import opened Seqs
  import opened Ordering
  import opened Fixed
  import opened Propagate
  import opened PropagateMass
  import opened PropagateLaws

  type Exact = map<Id, real>

  datatype ExactItem = ExactItem(key: Id, amount: real)

  const UNIT: real := 1000000.0

  ghost function ExactGet(m: Exact, k: Id): real {
    if k in m then m[k] else 0.0
  }

  ghost function ExactAccumulate(items: seq<ExactItem>): Exact
    decreases |items|
  {
    if items == [] then map[]
    else
      var m, item := ExactAccumulate(Init(items)), Last(items);
      m[item.key := ExactGet(m, item.key) + item.amount]
  }

  /** Part of a total on the scale of one; nothing of nothing. */
  ghost function ExactShare(x: int, total: int): real {
    if total == 0 then 0.0 else x as real * UNIT / total as real
  }

  /** A product on the scale of one. */
  ghost function ExactTimes(x: real, y: real): real {
    x * y / UNIT
  }

  ghost function ExactSeed(roots: seq<Seed>): Exact {
    var total := WeightSum(RootWeights(roots));
    ExactAccumulate(seq(|roots|, i requires 0 <= i < |roots| =>
      ExactItem(roots[i].key, ExactShare(roots[i].weight, total))))
  }

  ghost function ExactShares(m: Weights): (r: Exact)
    ensures r.Keys == m.Keys
  {
    map k | k in m :: ExactShare(m[k], Mass(m, EVERYWHERE))
  }

  type ExactOutgoing = map<Id, Exact>

  ghost function ExactRows(links: seq<Link>): ExactOutgoing {
    map x | x in Grouped(links) :: ExactShares(Grouped(links)[x])
  }

  ghost function ExactScaled(m: Exact, factor: real): (r: seq<ExactItem>)
    ensures |r| == |Listing(m.Keys)|
  {
    var keys := Listing(m.Keys);
    seq(|keys|, i requires 0 <= i < |keys| => assert keys[i] in keys;
      ExactItem(keys[i], ExactTimes(m[keys[i]], factor)))
  }

  ghost function ExactFlowFrom(share: real, targets: Exact, damping: real): (r: seq<ExactItem>)
    ensures |r| == |Listing(targets.Keys)|
  {
    var keys := Listing(targets.Keys);
    seq(|keys|, i requires 0 <= i < |keys| =>
      assert keys[i] in keys; ExactItem(keys[i], ExactTimes(ExactTimes(share, targets[keys[i]]), damping)))
  }

  ghost function ExactFlow(weights: Exact, t: ExactOutgoing, damping: real, keys: seq<Id>): seq<ExactItem>
    requires forall k :: k in keys ==> k in weights
    decreases |keys|
  {
    if keys == [] then []
    else
      Unsnoc(keys);
      var x := Last(keys);
      ExactFlow(weights, t, damping, Init(keys)) + if x in t then ExactFlowFrom(weights[x], t[x], damping) else []
  }

  ghost function ExactRoundItems(seed: Exact, t: ExactOutgoing, damping: real, weights: Exact): seq<ExactItem> {
    ExactScaled(seed, UNIT - damping) + ExactFlow(weights, t, damping, Listing(weights.Keys))
  }

  ghost function ExactRound(seed: Exact, t: ExactOutgoing, damping: real, weights: Exact): Exact {
    ExactAccumulate(ExactRoundItems(seed, t, damping, weights))
  }

  ghost function ExactRounds(seed: Exact, t: ExactOutgoing, damping: real, n: nat): Exact {
    if n == 0 then seed else ExactRound(seed, t, damping, ExactRounds(seed, t, damping, n - 1))
  }

  // --------------------------------------------------------------- domination

  ghost predicate Below(x: int, r: real) {
    0 <= x && x as real <= r
  }

  ghost predicate Dominated(m: Weights, r: Exact) {
    m.Keys == r.Keys && forall k :: k in m ==> Below(m[k], r[k])
  }

  ghost predicate DominatedItems(items: seq<Item>, exact: seq<ExactItem>) {
    && |items| == |exact|
    && forall i :: 0 <= i < |items| ==> items[i].key == exact[i].key && Below(items[i].amount, exact[i].amount)
  }

  /** Saturating only loses weight. */
  lemma {:induction false} AccumulateDominated(items: seq<Item>, exact: seq<ExactItem>)
    requires DominatedItems(items, exact)
    ensures Dominated(Accumulate(items), ExactAccumulate(exact))
    decreases |items|
  {
    if items != [] {
      AccumulateDominated(Init(items), Init(exact));
      var m, r, k := Accumulate(Init(items)), ExactAccumulate(Init(exact)), Last(items).key;
      assert Below(Get(m, k), ExactGet(r, k));
    }
  }

  lemma {:induction false} RealMulMono(a: real, b: real, x: real, y: real)
    requires 0.0 <= a <= x && 0.0 <= b <= y
    ensures 0.0 <= a * b <= x * y
  {
    assert a * b <= x * b;
    assert x * b <= x * y;
  }

  lemma {:induction false} ProductAsReal(x: int, y: int)
    ensures (x * y) as real == x as real * y as real
  {
  }

  /** A truncated product is below the exact one. */
  lemma {:induction false} TimesBelow(x: Fixed6, y: Fixed6, xr: real, yr: real)
    requires Below(x, xr) && Below(y, yr)
    ensures Below(Times(x, y), ExactTimes(xr, yr))
  {
    MulNonNegative(x, y);
    ProductAsReal(x, y);
    RealMulMono(x as real, y as real, xr, yr);
    var product := Saturate(x * y);
    DivShrinks(product, SCALE);
    var n := Times(x, y);
    assert SCALE * n <= x * y;
    assert (SCALE * n) as real == UNIT * n as real;
    QuotientBelow(n as real, xr * yr);
  }

  lemma {:induction false} QuotientBelow(n: real, p: real)
    requires UNIT * n <= p
    ensures n <= p / UNIT
  {
  }

  /** A truncated share is below the exact one. */
  lemma {:induction false} ShareBelow(x: Fixed6, total: Fixed6)
    requires 0 <= x <= total
    ensures Below(MulDiv(x, ONE, total), ExactShare(x, total))
  {
    if total > 0 {
      ShareRoundsDown(x, total);
      var n := MulDiv(x, ONE, total);
      ProductAsReal(total, n);
      ProductAsReal(x, ONE);
      RealQuotient(n as real, x as real * UNIT, total as real);
    }
  }

  lemma {:induction false} RealQuotient(n: real, p: real, d: real)
    requires d > 0.0 && d * n <= p
    ensures n <= p / d
  {
    assert d * (p / d - n) == p - d * n;
    PositiveFactor(d, p / d - n);
  }

  lemma {:induction false} PositiveFactor(d: real, z: real)
    requires d > 0.0 && d * z >= 0.0
    ensures z >= 0.0
  {
  }

  // ----------------------------------------------------------------- each round

  lemma {:induction false} ScaledDominated(m: Weights, r: Exact, factor: Fixed6, f: real)
    requires Dominated(m, r) && Below(factor, f)
    ensures DominatedItems(Scaled(m, factor), ExactScaled(r, f))
  {
    forall i | 0 <= i < |Scaled(m, factor)|
      ensures Scaled(m, factor)[i].key == ExactScaled(r, f)[i].key
      ensures Below(Scaled(m, factor)[i].amount, ExactScaled(r, f)[i].amount)
    {
      ScaledDominatedAt(m, r, factor, f, i);
    }
  }

  lemma {:induction false} ScaledDominatedAt(m: Weights, r: Exact, factor: Fixed6, f: real, i: nat)
    requires Dominated(m, r) && Below(factor, f) && i < |Scaled(m, factor)|
    ensures Scaled(m, factor)[i].key == ExactScaled(r, f)[i].key
    ensures Below(Scaled(m, factor)[i].amount, ExactScaled(r, f)[i].amount)
  {
    var k := Listing(m.Keys)[i];
    assert k in Listing(m.Keys);
    TimesBelow(m[k], factor, r[k], f);
  }

  lemma {:induction false} FlowTermBelow(share: Fixed6, s: real, part: Fixed6, p: real, damping: Fixed6, d: real)
    requires Below(share, s) && Below(part, p) && Below(damping, d)
    ensures Below(Times(Times(share, part), damping), ExactTimes(ExactTimes(s, p), d))
  {
    TimesBelow(share, part, s, p);
    TimesBelow(Times(share, part), damping, ExactTimes(s, p), d);
  }

  lemma {:induction false} FlowFromDominatedAt(
      share: Fixed6, s: real, targets: Weights, r: Exact, damping: Fixed6, d: real, i: nat)
    requires Below(share, s) && Dominated(targets, r) && Below(damping, d) && i < |FlowFrom(share, targets, damping)|
    ensures FlowFrom(share, targets, damping)[i].key == ExactFlowFrom(s, r, d)[i].key
    ensures Below(FlowFrom(share, targets, damping)[i].amount, ExactFlowFrom(s, r, d)[i].amount)
  {
    var k := Listing(targets.Keys)[i];
    assert k in Listing(targets.Keys);
    FlowTermBelow(share, s, targets[k], r[k], damping, d);
  }

  lemma {:induction false} FlowFromDominated(
      share: Fixed6, s: real, targets: Weights, r: Exact, damping: Fixed6, d: real)
    requires Below(share, s) && Dominated(targets, r) && Below(damping, d)
    ensures DominatedItems(FlowFrom(share, targets, damping), ExactFlowFrom(s, r, d))
  {
    forall i | 0 <= i < |FlowFrom(share, targets, damping)|
      ensures FlowFrom(share, targets, damping)[i].key == ExactFlowFrom(s, r, d)[i].key
      ensures Below(FlowFrom(share, targets, damping)[i].amount, ExactFlowFrom(s, r, d)[i].amount)
    {
      FlowFromDominatedAt(share, s, targets, r, damping, d, i);
    }
  }

  ghost predicate DominatedRows(t: Outgoing, u: ExactOutgoing) {
    t.Keys == u.Keys && forall x :: x in t ==> Dominated(t[x], u[x])
  }

  lemma {:induction false} ConcatDominated(a: seq<Item>, b: seq<Item>, x: seq<ExactItem>, y: seq<ExactItem>)
    requires DominatedItems(a, x) && DominatedItems(b, y)
    ensures DominatedItems(a + b, x + y)
  {
  }

  lemma {:induction false} FlowDominated(
      w: Weights, r: Exact, t: Outgoing, u: ExactOutgoing, damping: Fixed6, d: real, keys: seq<Id>)
    requires Dominated(w, r) && DominatedRows(t, u) && Below(damping, d)
    requires forall k :: k in keys ==> k in w && k in r
    ensures DominatedItems(Flow(w, t, damping, keys), ExactFlow(r, u, d, keys))
    decreases |keys|
  {
    if keys != [] {
      Unsnoc(keys);
      var x := Last(keys);
      FlowDominated(w, r, t, u, damping, d, Init(keys));
      if x in t {
        FlowFromDominated(w[x], r[x], t[x], u[x], damping, d);
        ConcatDominated(Flow(w, t, damping, Init(keys)), FlowFrom(w[x], t[x], damping),
                        ExactFlow(r, u, d, Init(keys)), ExactFlowFrom(r[x], u[x], d));
      }
    }
  }

  lemma {:induction false} RoundItemsDominated(
      seed: Weights, s: Exact, t: Outgoing, u: ExactOutgoing, damping: Fixed6, d: real, w: Weights, r: Exact)
    requires Dominated(seed, s) && Dominated(w, r) && DominatedRows(t, u) && Below(damping, d)
    requires Below(Sub(SCALE, damping), UNIT - d)
    ensures DominatedItems(RoundItems(seed, t, damping, w), ExactRoundItems(s, u, d, r))
  {
    var keys, factor := Listing(w.Keys), Sub(SCALE, damping);
    var own, passed := Scaled(seed, factor), Flow(w, t, damping, keys);
    var exactOwn, exactPassed := ExactScaled(s, UNIT - d), ExactFlow(r, u, d, keys);
    ScaledDominated(seed, s, factor, UNIT - d);
    FlowDominated(w, r, t, u, damping, d, keys);
    ConcatDominated(own, passed, exactOwn, exactPassed);
  }

  lemma {:induction false} RoundDominated(
      seed: Weights, s: Exact, t: Outgoing, u: ExactOutgoing, damping: Fixed6, d: real, w: Weights, r: Exact)
    requires Dominated(seed, s) && Dominated(w, r) && DominatedRows(t, u) && 0 <= damping <= ONE && d == damping as real
    ensures Dominated(Round(seed, t, damping, w), ExactRound(s, u, d, r))
  {
    RoundItemsDominated(seed, s, t, u, damping, d, w, r);
    AccumulateDominated(RoundItems(seed, t, damping, w), ExactRoundItems(s, u, d, r));
  }

  lemma {:induction false} RoundsDominated(
      seed: Weights, s: Exact, t: Outgoing, u: ExactOutgoing, damping: Fixed6, n: nat)
    requires Dominated(seed, s) && DominatedRows(t, u) && 0 <= damping <= ONE
    ensures Dominated(Rounds(seed, t, damping, n), ExactRounds(s, u, damping as real, n))
  {
    if n > 0 {
      RoundsDominated(seed, s, t, u, damping, n - 1);
      RoundDominated(seed, s, t, u, damping, damping as real,
                     Rounds(seed, t, damping, n - 1), ExactRounds(s, u, damping as real, n - 1));
    }
  }

  // ----------------------------------------------------------------- the inputs

  lemma {:induction false} SeedDominated(roots: seq<Seed>)
    requires SoundRoots(roots)
    requires WeightSum(RootWeights(roots)) <= I128_MAX
    ensures Dominated(SeedVector(roots), ExactSeed(roots))
  {
    var amounts := RootWeights(roots);
    WeightSumBounds(amounts);
    var total := WeightSum(amounts);
    var exact := seq(|roots|, i requires 0 <= i < |roots| =>
      ExactItem(roots[i].key, ExactShare(roots[i].weight, total)));
    forall i | 0 <= i < |roots| ensures Below(SeedItems(roots)[i].amount, exact[i].amount) {
      assert amounts[i] <= total;
      ShareBelow(roots[i].weight, total);
    }
    AccumulateDominated(SeedItems(roots), exact);
  }

  lemma {:induction false} SharesDominated(m: Weights)
    requires NonNegative(m) && Mass(m, EVERYWHERE) <= I128_MAX
    ensures Dominated(Shares(m), ExactShares(m))
  {
    var keys := Listing(m.Keys);
    KeysSumMono(m, keys, EVERYWHERE, EVERYWHERE);
    TotalExact(m, keys, Values(m));
    forall k | k in m ensures Below(Shares(m)[k], ExactShares(m)[k]) {
      ListingWithout(m, m.Keys, k, EVERYWHERE);
      KeysSumMono(m, Listing(m.Keys - {k}), EVERYWHERE, EVERYWHERE);
      ShareBelow(m[k], Total(Values(m)));
    }
  }

  lemma {:induction false} RowsDominated(links: seq<Link>)
    requires SoundLinks(links) && WeightSum(LinkWeights(links)) <= I128_MAX
    ensures DominatedRows(Normalized(links), ExactRows(links))
  {
    forall x | x in Normalized(links) ensures Dominated(Normalized(links)[x], ExactRows(links)[x]) {
      GroupedAt(links, x);
      GroupSound(links, x);
      LinkItemsMass(links, x);
      AccumulateMass(LinkItems(links, x), EVERYWHERE);
      SharesDominated(Grouped(links)[x]);
    }
  }

  /** After every round each node's weight is at most what exact arithmetic on
      exact shares would give it. */
  lemma {:induction false} RoundsDown(params: Params, roots: seq<Seed>, edges: seq<TrustEdge>, n: nat)
    requires Modest(params, roots, edges)
    ensures Dominated(WeightsAfter(params, roots, edges, n),
                      ExactRounds(ExactSeed(roots), ExactRows(Links(params, edges)), params.damping as real, n))
  {
    SeedDominated(roots);
    WeightSumMono(LinkWeights(Links(params, edges)), EdgeWeights(edges));
    RowsDominated(Links(params, edges));
    RoundsDominated(SeedVector(roots), ExactSeed(roots),
                    Normalized(Links(params, edges)), ExactRows(Links(params, edges)), params.damping, n);
  }
}
