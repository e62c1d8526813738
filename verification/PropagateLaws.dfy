/** The laws of a run: no weight is negative, the total never passes one, and a set
    of nodes holds no more than its seeds and what flows into it. */
module PropagateLaws {
  import opened Bits
  import opened Seqs
  import opened Ordering
  import opened Fixed
  import opened Propagate
  import opened PropagateMass

  // ----------------------------------------------------------------- fractions

  /** `S * n <= c` from `S * S * n <= S * c`. */
  lemma {:induction false} Descale(n: int, c: int)
    requires SCALE * (SCALE * n) <= SCALE * c
    ensures SCALE * n <= c
  {
  }

  /** Two truncating products lose nothing upwards. */
  lemma {:induction false} FlowTerm(share: Fixed6, f: Fixed6, damping: Fixed6)
    requires 0 <= share <= ONE && 0 <= f <= ONE && 0 <= damping <= ONE
    ensures 0 <= Times(Times(share, f), damping)
    ensures SCALE * (SCALE * Times(Times(share, f), damping)) <= (damping * share) * f
  {
    var u := Times(share, f);
    ProductBound(share, f);
    TimesRoundsDown(share, f);
    UnitBound(share, f, u);
    ProductBound(u, damping);
    TimesRoundsDown(u, damping);
    var n := Times(u, damping);
    assert SCALE * (SCALE * n) <= SCALE * (u * damping);
    assert SCALE * (u * damping) == damping * (SCALE * u);
    MulMono(damping, SCALE * u, share * f);
    assert damping * (share * f) == (damping * share) * f;
  }

  lemma {:induction false} ProductBound(x: int, y: int)
    requires 0 <= x <= ONE && 0 <= y <= ONE
    ensures 0 <= x * y <= ONE * ONE <= I128_MAX
  {
    MulMono(x, y, ONE);
    MulNonNegative(x, y);
  }

  lemma {:induction false} UnitBound(x: int, y: int, u: int)
    requires 0 <= x <= ONE && 0 <= y <= ONE && 0 <= u && SCALE * u <= x * y
    ensures u <= ONE
  {
    ProductBound(x, y);
  }

  // -------------------------------------------------------------- one node's flow

  /** Items that are each at most `c` times what `m` holds, on a scale. */
  ghost predicate AtMostTimes(items: seq<Item>, keys: seq<Id>, m: Weights, scale: int, c: int) {
    && |items| == |keys|
    && (forall k :: k in keys ==> k in m)
    && forall i :: 0 <= i < |items| ==>
         items[i].key == keys[i] && keys[i] in m && 0 <= items[i].amount && scale * items[i].amount <= c * m[keys[i]]
  }

  /** So they are in total, wherever they are counted. */
  lemma {:induction false} AtMostInTotal(items: seq<Item>, keys: seq<Id>, m: Weights, scale: int, c: int, x: iset<Id>)
    requires AtMostTimes(items, keys, m, scale, c)
    ensures NonNegativeItems(items)
    ensures scale * ItemsMass(items, x) <= c * KeysSum(m, keys, x)
    decreases |items|
  {
    if items != [] {
      Unsnoc(keys);
      AtMostInTotal(Init(items), Init(keys), m, scale, c, x);
      Distribute(c, KeysSum(m, Init(keys), x), m[Last(keys)]);
      Distribute(scale, ItemsMass(Init(items), x), Last(items).amount);
    }
  }

  lemma {:induction false} Distribute(c: int, a: int, b: int)
    ensures c * (a + b) == c * a + c * b
  {
  }

  /** A node passes on at most its damped weight, and nothing where it has no
      target. */
  lemma {:induction false} FlowFromMass(share: Fixed6, targets: Weights, damping: Fixed6, x: iset<Id>)
    requires 0 <= share <= ONE && 0 <= damping <= ONE && Bounded(targets)
    ensures NonNegativeItems(FlowFrom(share, targets, damping))
    ensures SCALE * ItemsMass(FlowFrom(share, targets, damping), x) <= damping * share
    ensures (forall k :: k in targets ==> k !in x) ==> ItemsMass(FlowFrom(share, targets, damping), x) == 0
  {
    var keys, items := Listing(targets.Keys), FlowFrom(share, targets, damping);
    forall i | 0 <= i < |keys|
      ensures keys[i] in targets && 0 <= items[i].amount
      ensures SCALE * SCALE * items[i].amount <= (damping * share) * targets[keys[i]]
    {
      assert keys[i] in keys;
      BoundedAt(targets, keys[i]);
      FlowTerm(share, targets[keys[i]], damping);
    }
    AtMostInTotal(items, keys, targets, SCALE * SCALE, damping * share, x);
    KeysSumMono(targets, keys, x, EVERYWHERE);
    MulNonNegative(damping, share);
    MulMono(damping * share, KeysSum(targets, keys, x), ONE);
    Descale(ItemsMass(items, x), damping * share);
    if forall k :: k in targets ==> k !in x {
      NothingInside(items, x);
    }
  }

  lemma {:induction false} NothingInside(items: seq<Item>, x: iset<Id>)
    requires forall i :: 0 <= i < |items| ==> items[i].key !in x
    ensures ItemsMass(items, x) == 0
    decreases |items|
  {
    if items != [] {
      NothingInside(Init(items), x);
    }
  }

  // -------------------------------------------------------------------- a round

  /** Every node passes on shares of one at most. */
  ghost predicate Stochastic(t: Outgoing) {
    forall x :: x in t ==> Bounded(t[x])
  }

  /** Every node with a target in `x` is in `feeds`. */
  ghost predicate FedBy(t: Outgoing, x: iset<Id>, feeds: iset<Id>) {
    forall n, k :: n in t && k in t[n] && k in x ==> n in feeds
  }

  lemma {:induction false} FlowMass(
      weights: Weights, t: Outgoing, damping: Fixed6, keys: seq<Id>, x: iset<Id>, feeds: iset<Id>)
    requires Bounded(weights) && Stochastic(t) && 0 <= damping <= ONE && FedBy(t, x, feeds)
    requires forall k :: k in keys ==> k in weights
    ensures NonNegativeItems(Flow(weights, t, damping, keys))
    ensures SCALE * ItemsMass(Flow(weights, t, damping, keys), x) <= damping * KeysSum(weights, keys, feeds)
    decreases |keys|
  {
    if keys != [] {
      Unsnoc(keys);
      var n := Last(keys);
      FlowMass(weights, t, damping, Init(keys), x, feeds);
      BoundedAt(weights, n);
      var flow := if n in t then FlowFrom(weights[n], t[n], damping) else [];
      ItemsMassConcat(Flow(weights, t, damping, Init(keys)), flow, x);
      if n in t {
        FlowFromMass(weights[n], t[n], damping, x);
      }
      MulNonNegative(damping, weights[n]);
      Distribute(damping, KeysSum(weights, Init(keys), feeds), if n in feeds then weights[n] else 0);
    }
  }

  lemma {:induction false} ScaledMass(seed: Weights, factor: Fixed6, x: iset<Id>)
    requires Bounded(seed) && 0 <= factor <= ONE
    ensures NonNegativeItems(Scaled(seed, factor))
    ensures SCALE * ItemsMass(Scaled(seed, factor), x) <= factor * Mass(seed, x)
  {
    var keys, items := Listing(seed.Keys), Scaled(seed, factor);
    forall i | 0 <= i < |keys|
      ensures keys[i] in seed && 0 <= items[i].amount && SCALE * items[i].amount <= factor * seed[keys[i]]
    {
      assert keys[i] in keys;
      BoundedAt(seed, keys[i]);
      ProductBound(seed[keys[i]], factor);
      TimesRoundsDown(seed[keys[i]], factor);
    }
    AtMostInTotal(items, keys, seed, SCALE, factor, x);
  }

  /** All a round adds up: what the seeds put in, and what flows in. */
  lemma {:induction false} RoundItemsMass(
      seed: Weights, t: Outgoing, damping: Fixed6, weights: Weights, x: iset<Id>, feeds: iset<Id>)
    requires Bounded(seed) && Bounded(weights) && Stochastic(t) && 0 <= damping <= ONE && FedBy(t, x, feeds)
    ensures NonNegativeItems(RoundItems(seed, t, damping, weights))
    ensures SCALE * ItemsMass(RoundItems(seed, t, damping, weights), x)
            <= (SCALE - damping) * Mass(seed, x) + damping * Mass(weights, feeds)
  {
    var factor, keys := Sub(SCALE, damping), Listing(weights.Keys);
    ScaledMass(seed, factor, x);
    FlowMass(weights, t, damping, keys, x, feeds);
    ItemsMassConcat(Scaled(seed, factor), Flow(weights, t, damping, keys), x);
  }

  /** A round holds no more than one in total, and nothing saturates. */
  lemma {:induction false} RoundItemsFit(seed: Weights, t: Outgoing, damping: Fixed6, weights: Weights)
    requires Bounded(seed) && Bounded(weights) && Stochastic(t) && 0 <= damping <= ONE
    ensures NonNegativeItems(RoundItems(seed, t, damping, weights))
    ensures ItemsMass(RoundItems(seed, t, damping, weights), EVERYWHERE) <= ONE
  {
    RoundItemsMass(seed, t, damping, weights, EVERYWHERE, EVERYWHERE);
    MulMono(SCALE - damping, Mass(seed, EVERYWHERE), ONE);
    MulMono(damping, Mass(weights, EVERYWHERE), ONE);
    assert (SCALE - damping) * ONE + damping * ONE == SCALE * ONE;
  }

  /** The law of one round: a set of nodes ends with at most its seeds' part
      plus the damped weight of the nodes pointing into it. */
  lemma {:induction false} RoundMass(
      seed: Weights, t: Outgoing, damping: Fixed6, weights: Weights, x: iset<Id>, feeds: iset<Id>)
    requires Bounded(seed) && Bounded(weights) && Stochastic(t) && 0 <= damping <= ONE && FedBy(t, x, feeds)
    ensures Bounded(Round(seed, t, damping, weights))
    ensures SCALE * Mass(Round(seed, t, damping, weights), x)
            <= (SCALE - damping) * Mass(seed, x) + damping * Mass(weights, feeds)
  {
    var items := RoundItems(seed, t, damping, weights);
    RoundItemsMass(seed, t, damping, weights, x, feeds);
    RoundItemsFit(seed, t, damping, weights);
    AccumulateMass(items, x);
    AccumulateMass(items, EVERYWHERE);
    AccumulateNonNegative(items);
  }

  // ------------------------------------------------------------ normalised inputs

  /** A saturating total that fits is the exact one. */
  lemma {:induction false} TotalExact(m: Weights, keys: seq<Id>, amounts: seq<Fixed6>)
    requires NonNegative(m) && |amounts| == |keys| && forall k :: k in keys ==> k in m
    requires forall i :: 0 <= i < |keys| ==> keys[i] in keys && amounts[i] == m[keys[i]]
    requires KeysSum(m, keys, EVERYWHERE) <= I128_MAX
    ensures Total(amounts) == KeysSum(m, keys, EVERYWHERE)
    decreases |keys|
  {
    if keys != [] {
      Unsnoc(keys);
      assert forall i :: 0 <= i < |keys| - 1 ==> Init(keys)[i] in Init(keys);
      KeysSumMono(m, Init(keys), EVERYWHERE, EVERYWHERE);
      TotalExact(m, Init(keys), Init(amounts));
    }
  }

  /** Shares rounded down add up to one at most. */
  lemma {:induction false} SharesPrefix(m: Weights, shares: Weights, total: Fixed6, keys: seq<Id>)
    requires NonNegative(m) && forall k :: k in keys ==> k in m && k in shares
    requires forall k :: k in keys ==> 0 <= m[k] <= total && shares[k] == MulDiv(m[k], ONE, total)
    ensures forall k :: k in keys ==> shares[k] >= 0
    ensures total * KeysSum(shares, keys, EVERYWHERE) <= ONE * KeysSum(m, keys, EVERYWHERE)
    decreases |keys|
  {
    if keys != [] {
      Unsnoc(keys);
      SharesPrefix(m, shares, total, Init(keys));
      var k := Last(keys);
      ShareRoundsDown(m[k], total);
      Distribute(total, KeysSum(shares, Init(keys), EVERYWHERE), shares[k]);
    }
  }

  lemma {:induction false} CancelTotal(total: int, sum: int)
    requires total > 0 && total * sum <= ONE * total
    ensures sum <= ONE
  {
    assert total * (ONE - sum) == total * ONE - total * sum;
    MulAtLeast(total, ONE - sum);
  }

  lemma {:induction false} SharesBounded(m: Weights)
    requires NonNegative(m) && Mass(m, EVERYWHERE) <= I128_MAX
    ensures Bounded(Shares(m))
  {
    var keys := Listing(m.Keys);
    KeysSumMono(m, keys, EVERYWHERE, EVERYWHERE);
    TotalExact(m, keys, Values(m));
    var total := Total(Values(m));
    forall k | k in m ensures 0 <= m[k] <= total {
      ListingWithout(m, m.Keys, k, EVERYWHERE);
      KeysSumMono(m, Listing(m.Keys - {k}), EVERYWHERE, EVERYWHERE);
    }
    SharesPrefix(m, Shares(m), total, keys);
    if total > 0 {
      CancelTotal(total, Mass(Shares(m), EVERYWHERE));
    } else {
      ZeroSum(Shares(m), keys);
    }
  }

  lemma {:induction false} ZeroSum(m: Weights, keys: seq<Id>)
    requires forall k :: k in keys ==> k in m && m[k] == 0
    ensures KeysSum(m, keys, EVERYWHERE) == 0
    decreases |keys|
  {
    if keys != [] {
      Unsnoc(keys);
      ZeroSum(m, Init(keys));
    }
  }

  // --------------------------------------------------------- the seeds and edges

  ghost function WeightSum(amounts: seq<Fixed6>): int
    decreases |amounts|
  {
    if amounts == [] then 0 else WeightSum(Init(amounts)) + Last(amounts)
  }

  ghost predicate AllNonNegative(amounts: seq<Fixed6>) {
    forall i :: 0 <= i < |amounts| ==> amounts[i] >= 0
  }

  lemma {:induction false} WeightSumBounds(amounts: seq<Fixed6>)
    requires AllNonNegative(amounts)
    ensures 0 <= WeightSum(amounts)
    ensures forall i :: 0 <= i < |amounts| ==> amounts[i] <= WeightSum(amounts)
    ensures Total(amounts) == Saturate(WeightSum(amounts))
    decreases |amounts|
  {
    if amounts != [] {
      WeightSumBounds(Init(amounts));
      forall i | 0 <= i < |amounts| ensures amounts[i] <= WeightSum(amounts) {
        if i < |amounts| - 1 {
          assert Init(amounts)[i] == amounts[i];
        }
      }
    }
  }

  /** Items that are the shares of some amounts in a total. */
  lemma {:induction false} ShareItemsMass(items: seq<Item>, amounts: seq<Fixed6>, total: Fixed6)
    requires |items| == |amounts| && AllNonNegative(amounts)
    requires forall i :: 0 <= i < |items| ==>
               amounts[i] <= total && items[i].amount == MulDiv(amounts[i], ONE, total)
    ensures NonNegativeItems(items)
    ensures total * ItemsMass(items, EVERYWHERE) <= ONE * WeightSum(amounts)
    decreases |items|
  {
    if items != [] {
      ShareItemsMass(Init(items), Init(amounts), total);
      ShareRoundsDown(Last(amounts), total);
      Distribute(total, ItemsMass(Init(items), EVERYWHERE), Last(items).amount);
    }
  }

  lemma {:induction false} ZeroItems(items: seq<Item>)
    requires forall i :: 0 <= i < |items| ==> items[i].amount == 0
    ensures ItemsMass(items, EVERYWHERE) == 0
    decreases |items|
  {
    if items != [] {
      ZeroItems(Init(items));
    }
  }

  /** The seed vector is one in total at most. */
  lemma {:induction false} SeedBounded(roots: seq<Seed>)
    requires AllNonNegative(RootWeights(roots)) && WeightSum(RootWeights(roots)) <= I128_MAX
    ensures Bounded(SeedVector(roots))
  {
    var amounts, items := RootWeights(roots), SeedItems(roots);
    WeightSumBounds(amounts);
    var total := Total(amounts);
    ShareItemsMass(items, amounts, total);
    if total > 0 {
      CancelTotal(total, ItemsMass(items, EVERYWHERE));
    } else {
      ZeroItems(items);
    }
    AccumulateMass(items, EVERYWHERE);
    AccumulateNonNegative(items);
  }

  function LinkWeights(links: seq<Link>): seq<Fixed6> {
    seq(|links|, i requires 0 <= i < |links| => links[i].weight)
  }

  /** What leaves one node is part of what all edges carry. */
  lemma {:induction false} LinkItemsMass(links: seq<Link>, x: Id)
    requires SoundLinks(links)
    ensures NonNegativeItems(LinkItems(links, x))
    ensures 0 <= ItemsMass(LinkItems(links, x), EVERYWHERE) <= WeightSum(LinkWeights(links))
    decreases |links|
  {
    if links != [] {
      var l := Last(links);
      LinkItemsMass(Init(links), x);
      assert Init(LinkWeights(links)) == LinkWeights(Init(links));
      ItemsMassConcat(LinkItems(Init(links), x), if l.source == x then [Item(l.target, l.weight)] else [], EVERYWHERE);
    }
  }

  /** Every row of the normalised edges is one in total at most. */
  lemma {:induction false} NormalizedStochastic(links: seq<Link>)
    requires SoundLinks(links) && WeightSum(LinkWeights(links)) <= I128_MAX
    ensures Stochastic(Normalized(links))
  {
    forall x | x in Normalized(links) ensures Bounded(Normalized(links)[x]) {
      GroupedAt(links, x);
      GroupSound(links, x);
      LinkItemsMass(links, x);
      AccumulateMass(LinkItems(links, x), EVERYWHERE);
      SharesBounded(Grouped(links)[x]);
    }
  }

  function EdgeWeights(edges: seq<TrustEdge>): seq<Fixed6> {
    seq(|edges|, i requires 0 <= i < |edges| => edges[i].weight)
  }

  lemma {:induction false} WeightSumMono(a: seq<Fixed6>, b: seq<Fixed6>)
    requires |a| == |b| && forall i :: 0 <= i < |a| ==> a[i] <= b[i]
    ensures WeightSum(a) <= WeightSum(b)
    decreases |a|
  {
    if a != [] {
      WeightSumMono(Init(a), Init(b));
    }
  }

  /** Weights that are not negative and whose sums fit a word. */
  ghost predicate Modest(params: Params, roots: seq<Seed>, edges: seq<TrustEdge>) {
    && Sound(roots, edges)
    && 0 <= params.damping <= SCALE
    && WeightSum(RootWeights(roots)) <= I128_MAX
    && WeightSum(EdgeWeights(edges)) <= I128_MAX
  }

  lemma {:induction false} ModestInputs(params: Params, roots: seq<Seed>, edges: seq<TrustEdge>)
    requires Modest(params, roots, edges)
    ensures Bounded(SeedVector(roots)) && Stochastic(Normalized(Links(params, edges)))
  {
    SeedBounded(roots);
    WeightSumMono(LinkWeights(Links(params, edges)), EdgeWeights(edges));
    NormalizedStochastic(Links(params, edges));
  }

  // --------------------------------------------------------- laws of a whole run

  ghost function WeightsAfter(params: Params, roots: seq<Seed>, edges: seq<TrustEdge>, n: nat): Weights {
    Rounds(SeedVector(roots), Normalized(Links(params, edges)), params.damping, n)
  }

  lemma {:induction false} RoundsBounded(seed: Weights, t: Outgoing, damping: Fixed6, n: nat)
    requires Bounded(seed) && Stochastic(t) && 0 <= damping <= ONE
    ensures Bounded(Rounds(seed, t, damping, n))
  {
    if n > 0 {
      RoundsBounded(seed, t, damping, n - 1);
      RoundMass(seed, t, damping, Rounds(seed, t, damping, n - 1), EVERYWHERE, EVERYWHERE);
    }
  }

  /** Conservation: after any number of rounds no weight is negative and the
      total is one at most. */
  lemma {:induction false} Conserved(params: Params, roots: seq<Seed>, edges: seq<TrustEdge>, n: nat)
    requires Modest(params, roots, edges)
    ensures Bounded(WeightsAfter(params, roots, edges, n))
  {
    ModestInputs(params, roots, edges);
    RoundsBounded(SeedVector(roots), Normalized(Links(params, edges)), params.damping, n);
  }

  /** Nodes outside `x` with an edge into it. */
  ghost predicate IsEntrance(edges: seq<TrustEdge>, x: iset<Id>, n: Id) {
    n !in x && exists i :: 0 <= i < |edges| && edges[i].source == n && edges[i].target in x
  }

  ghost function Entrances(edges: seq<TrustEdge>, x: iset<Id>): iset<Id> {
    iset n: Id | IsEntrance(edges, x, n)
  }

  lemma {:induction false} LinkItemTarget(links: seq<Link>, x: Id, k: Id)
    requires k in Outbound(links, x)
    ensures exists i :: 0 <= i < |links| && links[i].source == x && links[i].target == k
  {
    AccumulateKeys(LinkItems(links, x), k);
    var j :| 0 <= j < |LinkItems(links, x)| && LinkItems(links, x)[j].key == k;
    LinkItemOrigin(links, x, j);
  }

  lemma {:induction false} AccumulateKeys(items: seq<Item>, k: Id)
    ensures k in Accumulate(items) <==> exists j :: 0 <= j < |items| && items[j].key == k
    decreases |items|
  {
    if items != [] {
      AccumulateKeys(Init(items), k);
      assert forall j :: 0 <= j < |items| - 1 ==> Init(items)[j] == items[j];
      if k == Last(items).key {
        assert items[|items| - 1].key == k;
      }
    }
  }

  lemma {:induction false} LinkItemOrigin(links: seq<Link>, x: Id, j: nat)
    requires j < |LinkItems(links, x)|
    ensures exists i :: 0 <= i < |links| && links[i].source == x && links[i].target == LinkItems(links, x)[j].key
                        && links[i].weight == LinkItems(links, x)[j].amount
    decreases |links|
  {
    var before := LinkItems(Init(links), x);
    if j < |before| {
      LinkItemOrigin(Init(links), x, j);
      var i :| 0 <= i < |Init(links)| && Init(links)[i].source == x && Init(links)[i].target == before[j].key
               && Init(links)[i].weight == before[j].amount;
      assert links[i] == Init(links)[i];
    } else {
      assert links[|links| - 1] == Last(links);
    }
  }

  lemma {:induction false} EntrancesFeed(params: Params, edges: seq<TrustEdge>, x: iset<Id>)
    ensures FedBy(Normalized(Links(params, edges)), x, x + Entrances(edges, x))
  {
    var links := Links(params, edges);
    forall n, k | n in Normalized(links) && k in Normalized(links)[n] && k in x ensures n in x + Entrances(edges, x) {
      GroupedAt(links, n);
      LinkItemTarget(links, n, k);
      var i :| 0 <= i < |links| && links[i].source == n && links[i].target == k;
      assert edges[i].source == n && edges[i].target == k;
      assert n !in x ==> IsEntrance(edges, x, n);
    }
  }

  /** Afterwards `x` holds at most the damped weight it and its entrances held. */
  ghost predicate HeldByCut(damping: Fixed6, before: Weights, after: Weights, x: iset<Id>, entrances: iset<Id>) {
    SCALE * Mass(after, x) <= damping * (Mass(before, x) + Mass(before, entrances))
  }

  /** The cut bound: a set of nodes without a seed holds, after a round, at most
      the damped weight it and its entrances held before, whatever edges it has
      inside. */
  lemma {:induction false} CutBound(params: Params, roots: seq<Seed>, edges: seq<TrustEdge>, n: nat, x: iset<Id>)
    requires Modest(params, roots, edges) && forall i :: 0 <= i < |roots| ==> roots[i].key !in x
    ensures HeldByCut(params.damping, WeightsAfter(params, roots, edges, n), WeightsAfter(params, roots, edges, n + 1),
                      x, Entrances(edges, x))
  {
    var seed, t := CutInputs(params, roots, edges, x);
    RoundsCut(seed, t, params.damping, n, x, Entrances(edges, x));
  }

  lemma {:induction false} CutInputs(params: Params, roots: seq<Seed>, edges: seq<TrustEdge>, x: iset<Id>)
      returns (seed: Weights, t: Outgoing)
    requires Modest(params, roots, edges) && forall i :: 0 <= i < |roots| ==> roots[i].key !in x
    ensures seed == SeedVector(roots) && t == Normalized(Links(params, edges))
    ensures Bounded(seed) && Stochastic(t) && 0 <= params.damping <= ONE && Mass(seed, x) == 0
    ensures FedBy(t, x, x + Entrances(edges, x)) && x !! Entrances(edges, x)
  {
    seed, t := SeedVector(roots), Normalized(Links(params, edges));
    ModestInputs(params, roots, edges);
    EntrancesFeed(params, edges, x);
    NoSeedInside(roots, x);
  }

  lemma {:induction false} RoundsCut(
      seed: Weights, t: Outgoing, damping: Fixed6, n: nat, x: iset<Id>, entrances: iset<Id>)
    requires Bounded(seed) && Stochastic(t) && 0 <= damping <= ONE
    requires FedBy(t, x, x + entrances) && x !! entrances && Mass(seed, x) == 0
    ensures HeldByCut(damping, Rounds(seed, t, damping, n), Rounds(seed, t, damping, n + 1), x, entrances)
  {
    var w := Rounds(seed, t, damping, n);
    RoundsBounded(seed, t, damping, n);
    RoundMass(seed, t, damping, w, x, x + entrances);
    MassOfParts(w, Listing(w.Keys), x, entrances);
  }

  lemma {:induction false} NoSeedInside(roots: seq<Seed>, x: iset<Id>)
    requires forall i :: 0 <= i < |roots| ==> roots[i].key !in x
    ensures Mass(SeedVector(roots), x) == 0
  {
    var seed := SeedVector(roots);
    forall k | k in seed ensures k !in x {
      AccumulateKeys(SeedItems(roots), k);
    }
    NoKeyInside(seed, Listing(seed.Keys), x);
  }

  lemma {:induction false} NoKeyInside(m: Weights, keys: seq<Id>, x: iset<Id>)
    requires forall k :: k in keys ==> k in m && k !in x
    ensures KeysSum(m, keys, x) == 0
    decreases |keys|
  {
    if keys != [] {
      Unsnoc(keys);
      NoKeyInside(m, Init(keys), x);
    }
  }
}
