/** What rounding can cost a run, from its seeds and edges alone: a bound that does
    not grow with the rounds while damping leaves anything. */
module PropagateCost {
  import opened Seqs
  import opened Ordering
  import opened Wrappers
  import opened Fixed
  import opened Propagate
  import opened PropagateMass
  import opened PropagateLaws
  import opened PropagateExact
  import opened ExactSums
  import opened PropagateLoss

  /** As modest weights, with room to scale them, so that no share saturates. */
  ghost predicate Roomy(params: Params, roots: seq<Seed>, edges: seq<TrustEdge>) {
    && Modest(params, roots, edges)
    && ONE * WeightSum(RootWeights(roots)) <= I128_MAX
    && ONE * WeightSum(EdgeWeights(edges)) <= I128_MAX
  }

  /** A truncated share is over by less than one. */
  lemma {:induction false} ShareLoses(x: Fixed6, total: Fixed6)
    requires 0 <= x <= total && ONE * x <= I128_MAX
    ensures ExactShare(x, total) <= MulDiv(x, ONE, total) as real + 1.0
  {
    if total > 0 {
      var product: int := x * ONE;
      TruncDivFits(product, total);
      var n := product / total;
      assert product == total * n + product % total;
      assert product <= total * (n + 1);
      ProductAsReal(total, n + 1);
      ProductAsReal(x, ONE);
      RealQuotientAbove(x as real * UNIT, total as real, n as real + 1.0);
    }
  }

  lemma {:induction false} RealQuotientAbove(p: real, d: real, n: real)
    requires d > 0.0 && p <= d * n
    ensures p / d <= n
  {
    assert d * (n - p / d) == d * n - p;
    PositiveFactor(d, n - p / d);
  }

  lemma {:induction false} AccumulateSize(items: seq<Item>)
    ensures |Accumulate(items)| <= |items|
    decreases |items|
  {
    if items != [] {
      AccumulateSize(Init(items));
      var m, k := Accumulate(Init(items)), Last(items).key;
      assert Accumulate(items).Keys == m.Keys + {k};
    }
  }

  /** Links leaving nodes in `keys`. */
  ghost function Leaving(links: seq<Link>, keys: seq<Id>): nat
    decreases |keys|
  {
    if keys == [] then 0 else Leaving(links, Init(keys)) + |LinkItems(links, Last(keys))|
  }

  lemma {:induction false} OneMoreLeaving(links: seq<Link>, keys: seq<Id>)
    requires links != [] && Distinct(keys)
    ensures Leaving(links, keys) == Leaving(Init(links), keys) + if Last(links).source in keys then 1 else 0
    decreases |keys|
  {
    if keys != [] {
      Unsnoc(keys);
      assert Distinct(Init(keys)) && Last(keys) !in Init(keys);
      OneMoreLeaving(links, Init(keys));
    }
  }

  /** Each leaves one node. */
  lemma {:induction false} LeavingAtMost(links: seq<Link>, keys: seq<Id>)
    requires Distinct(keys)
    ensures Leaving(links, keys) <= |links|
    decreases |links|
  {
    if links == [] {
      NoneLeaving(keys);
    } else {
      OneMoreLeaving(links, keys);
      LeavingAtMost(Init(links), keys);
    }
  }

  lemma {:induction false} NoneLeaving(keys: seq<Id>)
    ensures Leaving([], keys) == 0
    decreases |keys|
  {
    if keys != [] {
      NoneLeaving(Init(keys));
    }
  }

  lemma {:induction false} TargetsAtMost(links: seq<Link>, keys: seq<Id>)
    ensures Targets(Normalized(links), keys) <= Leaving(links, keys)
    decreases |keys|
  {
    if keys != [] {
      TargetsAtMost(links, Init(keys));
      var x := Last(keys);
      GroupedAt(links, x);
      AccumulateSize(LinkItems(links, x));
      assert x in Normalized(links) ==> Normalized(links)[x].Keys == Grouped(links)[x].Keys;
      assert x in Normalized(links) ==> |Normalized(links)[x]| == |Normalized(links)[x].Keys|;
      assert x in Grouped(links) ==> |Grouped(links)[x]| == |Grouped(links)[x].Keys|;
    }
  }

  /** The seeds lose less than one each. */
  lemma {:induction false} SeedLoses(roots: seq<Seed>)
    requires SoundRoots(roots) && ONE * WeightSum(RootWeights(roots)) <= I128_MAX
    ensures ExactMass(ExactSeed(roots)) <= Mass(SeedVector(roots), EVERYWHERE) as real + |roots| as real
  {
    var amounts, items := RootWeights(roots), SeedItems(roots);
    WeightSumBounds(amounts);
    var total := WeightSum(amounts);
    var exact := seq(|roots|, i requires 0 <= i < |roots| =>
      ExactItem(roots[i].key, ExactShare(roots[i].weight, total)));
    forall i | 0 <= i < |roots| ensures exact[i].amount <= items[i].amount as real + 1.0 {
      assert amounts[i] <= total;
      ShareLoses(roots[i].weight, total);
    }
    EachByOne(items, exact);
    ExactAccumulateMass(exact);
    SeedItemsFit(roots, items, amounts, total);
    AccumulateMass(items, EVERYWHERE);
  }

  lemma {:induction false} EachByOne(items: seq<Item>, exact: seq<ExactItem>)
    requires |items| == |exact| && forall i :: 0 <= i < |items| ==> exact[i].amount <= items[i].amount as real + 1.0
    ensures RealSum(exact) <= ItemsMass(items, EVERYWHERE) as real + |items| as real
    decreases |items|
  {
    if items != [] {
      EachByOne(Init(items), Init(exact));
    }
  }

  lemma {:induction false} SeedItemsFit(roots: seq<Seed>, items: seq<Item>, amounts: seq<Fixed6>, total: Fixed6)
    requires items == SeedItems(roots) && amounts == RootWeights(roots) && total == Total(amounts)
    requires SoundRoots(roots) && WeightSum(amounts) <= I128_MAX
    ensures NonNegativeItems(items) && ItemsMass(items, EVERYWHERE) <= I128_MAX
  {
    WeightSumBounds(amounts);
    ShareItemsMass(items, amounts, total);
    if total > 0 {
      CancelTotal(total, ItemsMass(items, EVERYWHERE));
    } else {
      ZeroItems(items);
    }
  }

  /** `share`, times the total, is `x` times one. */
  ghost predicate IsShare(f: real -> real, x: Fixed6, share: real) {
    f(share) == UNIT * x as real
  }

  /** Exact shares of a total add up to one. */
  lemma {:induction false} ExactSharesSum(m: Weights, r: Exact, f: real -> real, total: real, keys: seq<Id>)
    requires Multiplies(f, total) && m.Keys == r.Keys && forall k :: k in m ==> IsShare(f, m[k], r[k])
    requires forall k :: k in keys ==> k in m
    ensures f(ExactSum(r, keys)) == UNIT * KeysSum(m, keys, EVERYWHERE) as real
    decreases |keys|
  {
    if keys == [] {
      Adds(f, total, 0.0, 0.0, 0.0);
    } else {
      Unsnoc(keys);
      ExactSharesSum(m, r, f, total, Init(keys));
      assert IsShare(f, m[Last(keys)], r[Last(keys)]);
      Adds(f, total, ExactSum(r, Init(keys)), r[Last(keys)], ExactSum(r, keys));
    }
  }

  lemma {:induction false} ShareOfTotal(f: real -> real, x: Fixed6, total: int)
    requires total > 0 && Multiplies(f, total as real)
    ensures IsShare(f, x, ExactShare(x, total))
  {
    var share := ExactShare(x, total);
    DivTimes(x as real * UNIT, total as real);
    assert MultipliesAt(f, total as real, share);
  }

  lemma {:induction false} DivTimes(p: real, d: real)
    requires d > 0.0
    ensures d * (p / d) == p
  {
  }

  lemma {:induction false} ZeroShares(r: Exact, keys: seq<Id>)
    requires forall k :: k in keys ==> k in r && r[k] == 0.0
    ensures ExactSum(r, keys) == 0.0
    decreases |keys|
  {
    if keys != [] {
      Unsnoc(keys);
      ZeroShares(r, Init(keys));
    }
  }

  lemma {:induction false} OneInAll(f: real -> real, total: real, sum: real)
    requires Multiplies(f, total) && total > 0.0 && f(sum) == UNIT * total
    ensures sum == UNIT
  {
    assert MultipliesAt(f, total, sum);
    SameFactor(total, sum, UNIT);
  }

  lemma {:induction false} SameFactor(c: real, a: real, b: real)
    requires c > 0.0 && c * a == b * c
    ensures a == b
  {
  }

  lemma {:induction false} SharesOfTotal(m: Weights, r: Exact, f: real -> real, total: int)
    requires r == ExactShares(m) && total == Mass(m, EVERYWHERE) > 0 && Multiplies(f, total as real)
    ensures f(ExactMass(r)) == UNIT * total as real
  {
    forall k | k in m ensures IsShare(f, m[k], r[k]) {
      ShareOfTotal(f, m[k], total);
    }
    ExactSharesSum(m, r, f, total as real, Listing(m.Keys));
  }

  lemma {:induction false} ExactSharesMass(m: Weights)
    requires NonNegative(m)
    ensures ExactMass(ExactShares(m)) <= UNIT
  {
    var keys, total, r := Listing(m.Keys), Mass(m, EVERYWHERE), ExactShares(m);
    KeysSumMono(m, keys, EVERYWHERE, EVERYWHERE);
    if total > 0 {
      var f := Multiplying(total as real);
      SharesOfTotal(m, r, f, total);
      OneInAll(f, total as real, ExactMass(r));
    } else {
      ZeroShares(r, keys);
    }
  }

  lemma {:induction false} SharesNear(m: Weights)
    requires NonNegative(m) && ONE * Mass(m, EVERYWHERE) <= I128_MAX
    ensures NearShares(Shares(m), ExactShares(m))
  {
    var keys := Listing(m.Keys);
    KeysSumMono(m, keys, EVERYWHERE, EVERYWHERE);
    TotalExact(m, keys, Values(m));
    SharesBounded(m);
    SharesDominated(m);
    ExactSharesMass(m);
    forall k | k in m ensures ExactShares(m)[k] <= Shares(m)[k] as real + 1.0 {
      ListingWithout(m, m.Keys, k, EVERYWHERE);
      KeysSumMono(m, Listing(m.Keys - {k}), EVERYWHERE, EVERYWHERE);
      ShareLoses(m[k], Total(Values(m)));
    }
  }

  lemma {:induction false} RowsNear(links: seq<Link>)
    requires SoundLinks(links) && ONE * WeightSum(LinkWeights(links)) <= I128_MAX
    ensures NearRows(Normalized(links), ExactRows(links))
  {
    forall x | x in Normalized(links) ensures NearShares(Normalized(links)[x], ExactRows(links)[x]) {
      GroupedAt(links, x);
      GroupSound(links, x);
      LinkItemsMass(links, x);
      AccumulateMass(LinkItems(links, x), EVERYWHERE);
      SharesNear(Grouped(links)[x]);
    }
  }

  lemma {:induction false} FewTargetsIn(roots: seq<Seed>, links: seq<Link>)
    ensures FewTargets(SeedVector(roots), Normalized(links), |roots| as real + 3.0 * |links| as real)
  {
    var seed, t := SeedVector(roots), Normalized(links);
    AccumulateSize(SeedItems(roots));
    forall keys | Distinct(keys)
      ensures |seed.Keys| as real + 3.0 * Targets(t, keys) as real <= |roots| as real + 3.0 * |links| as real
    {
      TargetsAtMost(links, keys);
      LeavingAtMost(links, keys);
    }
  }

  /** What rounding can have cost after `n` rounds: one for each seed; and in every
      round, of which damping passes on a part, one for each seed again and three
      for each edge. */
  ghost function Cost(params: Params, roots: seq<Seed>, edges: seq<TrustEdge>, n: nat): real {
    |roots| as real + (|roots| as real + 3.0 * |edges| as real) * Spread(params.damping as real / UNIT, n)
  }

  lemma {:induction false} InputsLose(params: Params, roots: seq<Seed>, edges: seq<TrustEdge>)
      returns (seed: Weights, s: Exact, t: Outgoing, u: ExactOutgoing)
    requires Roomy(params, roots, edges)
    ensures seed == SeedVector(roots) && s == ExactSeed(roots)
    ensures t == Normalized(Links(params, edges)) && u == ExactRows(Links(params, edges))
    ensures LosesAtMost(seed, s, |roots| as real) && Bounded(seed) && NearRows(t, u) && Stochastic(t)
    ensures FewTargets(seed, t, |roots| as real + 3.0 * |edges| as real)
  {
    seed, s := SeedVector(roots), ExactSeed(roots);
    t, u := Normalized(Links(params, edges)), ExactRows(Links(params, edges));
    ModestInputs(params, roots, edges);
    SeedDominated(roots);
    SeedLoses(roots);
    LostMass(seed, s);
    WeightSumMono(LinkWeights(Links(params, edges)), EdgeWeights(edges));
    RowsNear(Links(params, edges));
    FewTargetsIn(roots, Links(params, edges));
  }

  lemma {:induction false} CostOf(
      seed: Weights, s: Exact, t: Outgoing, u: ExactOutgoing, damping: Fixed6, d: real, x: real, n: nat,
      seeds: real, each: real, bound: real)
    requires LosesAtMost(seed, s, seeds) && Bounded(seed) && FewTargets(seed, t, each)
    requires NearRows(t, u) && Stochastic(t) && 0 <= damping <= ONE && d == damping as real == UNIT * x && x <= 1.0
    requires bound == seeds + each * Spread(x, n)
    ensures LosesAtMost(Rounds(seed, t, damping, n), ExactRounds(s, u, d, n), bound)
  {
    var f := Multiplying(x);
    var own := Multiplying(1.0 - x);
    RoundsLoseFrom(seed, s, t, u, damping, d, n, f, x, own, seeds, each);
    BoundIs(f, own, x, seeds, each, n);
  }

  /** What exact arithmetic on exact shares gives after `n` rounds. */
  ghost function ExactAfter(params: Params, roots: seq<Seed>, edges: seq<TrustEdge>, n: nat): Exact {
    ExactRounds(ExactSeed(roots), ExactRows(Links(params, edges)), params.damping as real, n)
  }

  /** Rounding costs little: after every round no node has more than exact arithmetic
      on exact shares would give it, and all together have less by no more than the
      cost. */
  lemma {:induction false} RoundingCost(params: Params, roots: seq<Seed>, edges: seq<TrustEdge>, n: nat)
    requires Roomy(params, roots, edges)
    ensures LosesAtMost(WeightsAfter(params, roots, edges, n), ExactAfter(params, roots, edges, n),
                        Cost(params, roots, edges, n))
  {
    var seed, s, t, u := InputsLose(params, roots, edges);
    CostWithin(params, roots, edges, seed, s, t, u, n);
  }

  lemma {:induction false} CostWithin(
      params: Params, roots: seq<Seed>, edges: seq<TrustEdge>,
      seed: Weights, s: Exact, t: Outgoing, u: ExactOutgoing, n: nat)
    requires LosesAtMost(seed, s, |roots| as real) && Bounded(seed) && NearRows(t, u) && Stochastic(t)
    requires FewTargets(seed, t, |roots| as real + 3.0 * |edges| as real) && 0 <= params.damping <= ONE
    ensures LosesAtMost(Rounds(seed, t, params.damping, n), ExactRounds(s, u, params.damping as real, n),
                        Cost(params, roots, edges, n))
  {
    var x := DampedPart(params.damping);
    var seeds, each, bound := |roots| as real, |roots| as real + 3.0 * |edges| as real, Cost(params, roots, edges, n);
    CostIs(params, roots, edges, n, x, each);
    CostOf(seed, s, t, u, params.damping, params.damping as real, x, n, seeds, each, bound);
  }

  lemma {:induction false} CostIs(params: Params, roots: seq<Seed>, edges: seq<TrustEdge>, n: nat, x: real, each: real)
    requires x == params.damping as real / UNIT && each == |roots| as real + 3.0 * |edges| as real
    ensures Cost(params, roots, edges, n) == |roots| as real + each * Spread(x, n)
  {
  }

  lemma {:induction false} DampedPart(damping: Fixed6) returns (x: real)
    requires 0 <= damping <= ONE
    ensures x == damping as real / UNIT && damping as real == UNIT * x && x <= 1.0
  {
    x := damping as real / UNIT;
    Unscaled(damping as real);
  }

  /** So no node has less by more than that. */
  lemma {:induction false} EachNodeCost(params: Params, roots: seq<Seed>, edges: seq<TrustEdge>, n: nat, k: Id)
    requires Roomy(params, roots, edges) && k in WeightsAfter(params, roots, edges, n)
    ensures var w, exact := WeightsAfter(params, roots, edges, n), ExactAfter(params, roots, edges, n);
            k in exact && w[k] as real <= exact[k] <= w[k] as real + Cost(params, roots, edges, n)
  {
    RoundingCost(params, roots, edges, n);
    LostAt(WeightsAfter(params, roots, edges, n), ExactAfter(params, roots, edges, n), k);
  }

  /** The cost grows with the rounds at most as their number, and while damping
      leaves anything it stays below a bound that does not depend on them. */
  lemma {:induction false} CostBounded(params: Params, roots: seq<Seed>, edges: seq<TrustEdge>, n: nat, each: real)
    requires 0 <= params.damping <= SCALE && each == |roots| as real + 3.0 * |edges| as real
    ensures |roots| as real <= Cost(params, roots, edges, n) <= |roots| as real + each * n as real
    ensures params.damping < SCALE ==>
            Cost(params, roots, edges, n) <= |roots| as real + each * UNIT / (SCALE - params.damping) as real
  {
    var x := params.damping as real / UNIT;
    var g := Spread(x, n);
    SpreadBounded(x, n);
    MulGrows(each, g, n as real);
    MulPositive(each, g);
    if params.damping < SCALE {
      var rest := (SCALE - params.damping) as real;
      SpreadWithin(x, g, rest, each);
    }
  }

  lemma {:induction false} SpreadWithin(x: real, g: real, rest: real, each: real)
    requires rest > 0.0 && rest == UNIT * (1.0 - x) && (1.0 - x) * g <= 1.0 && each >= 0.0
    ensures each * g <= each * UNIT / rest
  {
    assert rest * g <= UNIT by {
      assert rest * g == UNIT * ((1.0 - x) * g);
    }
    MulGrows(each, rest * g, UNIT);
    assert each * (rest * g) == rest * (each * g);
    RealQuotient(each * g, each * UNIT, rest);
  }

  // ------------------------------------------------------------------ what is answered

  /** An answer is what is left of the weights after the last round once those of zero
      are taken out. */
  lemma {:induction false} ResultIs(params: Params, roots: seq<Seed>, edges: seq<TrustEdge>, w: Weights, k: Id)
    requires Outcome(params, roots, edges) == Some(w)
    ensures var last := WeightsAfter(params, roots, edges, params.iterations);
            (k in w <==> k in last && last[k] != 0) && (k in w ==> w[k] == last[k])
  {
  }

  /** So it is within the cost of what exact arithmetic gives after as many rounds. */
  lemma {:induction false} ResultCost(params: Params, roots: seq<Seed>, edges: seq<TrustEdge>, w: Weights, k: Id)
    requires Outcome(params, roots, edges) == Some(w) && Roomy(params, roots, edges)
    ensures var n := params.iterations;
      var exact, cost := ExactAfter(params, roots, edges, n), Cost(params, roots, edges, n);
      && (k in w ==> k in exact)
      && (k in exact ==> Get(w, k) as real <= exact[k] <= Get(w, k) as real + cost)
  {
    var n := params.iterations;
    var last, exact := WeightsAfter(params, roots, edges, n), ExactAfter(params, roots, edges, n);
    RoundingCost(params, roots, edges, n);
    assert last.Keys == exact.Keys;
    ResultIs(params, roots, edges, w, k);
    if k in exact {
      EachNodeCost(params, roots, edges, n, k);
    }
  }
}
