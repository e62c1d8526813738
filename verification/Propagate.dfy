/** Personalised PageRank in fixed point: an exact number of rounds over ordered
    maps.  Each round is a list of contributions added up key by key. */
module Propagate {
  import opened Bits
  import opened Hashing
  import opened Seqs
  import opened Ordering
  import opened Wrappers
  import opened Fixed

  type Id = Bytes

  datatype TrustEdge = TrustEdge(source: Id, target: Id, weight: Fixed6, ageDays: U64, subjects: seq<Bytes>)

  datatype Seed = Seed(key: Id, weight: Fixed6)

  datatype Params = Params(damping: Fixed6, iterations: nat, halfLifeDays: Option<U64>)

  type Weights = map<Id, Fixed6>

  // ------------------------------------------------------------ accumulating

  datatype Item = Item(key: Id, amount: Fixed6)

  function Get(m: Weights, k: Id): Fixed6 {
    if k in m then m[k] else 0
  }

  function Bump(m: Weights, item: Item): Weights {
    m[item.key := Add(Get(m, item.key), item.amount)]
  }

  /** Items added up by key, in order. */
  function Accumulate(items: seq<Item>): Weights
    decreases |items|
  {
    if items == [] then map[] else Bump(Accumulate(Init(items)), Last(items))
  }

  function Total(amounts: seq<Fixed6>): Fixed6
    decreases |amounts|
  {
    if amounts == [] then 0 else Add(Total(Init(amounts)), Last(amounts))
  }

  lemma {:induction false} TotalNonNegative(amounts: seq<Fixed6>)
    requires forall i :: 0 <= i < |amounts| ==> amounts[i] >= 0
    ensures Total(amounts) >= 0
    decreases |amounts|
  {
    if amounts != [] {
      TotalNonNegative(Init(amounts));
    }
  }

  /** What a map holds, in the order it iterates. */
  function Values(m: Weights): (r: seq<Fixed6>)
    ensures |r| == |Listing(m.Keys)|
  {
    var keys := Listing(m.Keys);
    seq(|keys|, i requires 0 <= i < |keys| => assert keys[i] in keys; m[keys[i]])
  }

  ghost predicate NonNegative(m: Weights) {
    forall k :: k in m ==> m[k] >= 0
  }

  ghost predicate NonNegativeItems(items: seq<Item>) {
    forall i :: 0 <= i < |items| ==> items[i].amount >= 0
  }

  lemma {:induction false} AccumulateNonNegative(items: seq<Item>)
    requires NonNegativeItems(items)
    ensures NonNegative(Accumulate(items))
    decreases |items|
  {
    if items != [] {
      AccumulateNonNegative(Init(items));
    }
  }

  /** Each value's share of the total, on the scale of one. */
  function Shares(m: Weights): (r: Weights)
    ensures r.Keys == m.Keys
  {
    map k | k in m :: MulDiv(m[k], ONE, Total(Values(m)))
  }

  predicate SharesFit(m: Weights) {
    forall k :: k in m ==> !QuotientOverflows(m[k], ONE, Total(Values(m)))
  }

  lemma {:induction false} NonNegativeShares(m: Weights)
    requires NonNegative(m)
    ensures SharesFit(m)
  {
    TotalNonNegative(Values(m));
  }

  // ------------------------------------------------------------------- inputs

  /** What the laws of a run ask of the weights: that none is negative. */
  predicate Sound(roots: seq<Seed>, edges: seq<TrustEdge>) {
    SoundRoots(roots) && SoundEdges(edges)
  }

  predicate SoundRoots(roots: seq<Seed>) {
    forall i :: 0 <= i < |roots| ==> roots[i].weight >= 0
  }

  predicate SoundEdges(edges: seq<TrustEdge>) {
    forall i :: 0 <= i < |edges| ==> edges[i].weight >= 0
  }

  function Decayed(params: Params, e: TrustEdge): (r: Fixed6)
    ensures e.weight >= 0 ==> 0 <= r <= e.weight
    ensures e.weight <= 0 ==> e.weight <= r <= 0
  {
    match params.halfLifeDays
    case None => e.weight
    case Some(halfLife) => DecaySigned(e.weight, e.ageDays, halfLife)
  }

  predicate EdgeFits(params: Params, e: TrustEdge) {
    params.halfLifeDays.Some? ==> DecayFits(e.weight, e.ageDays, params.halfLifeDays.value)
  }

  function RootWeights(roots: seq<Seed>): seq<Fixed6> {
    seq(|roots|, i requires 0 <= i < |roots| => roots[i].weight)
  }

  function SeedItems(roots: seq<Seed>): (r: seq<Item>)
    ensures |r| == |roots|
  {
    var total := Total(RootWeights(roots));
    seq(|roots|, i requires 0 <= i < |roots| => Item(roots[i].key, MulDiv(roots[i].weight, ONE, total)))
  }

  predicate SeedsFit(roots: seq<Seed>) {
    forall i :: 0 <= i < |roots| ==> !QuotientOverflows(roots[i].weight, ONE, Total(RootWeights(roots)))
  }

  /** The seed vector, normalised to one in total. */
  function SeedVector(roots: seq<Seed>): Weights {
    Accumulate(SeedItems(roots))
  }

  /** An edge with its decayed weight. */
  datatype Link = Link(source: Id, target: Id, weight: Fixed6)

  function Links(params: Params, edges: seq<TrustEdge>): (r: seq<Link>)
    ensures |r| == |edges| && (SoundEdges(edges) ==> SoundLinks(r))
  {
    seq(|edges|, i requires 0 <= i < |edges| => Link(edges[i].source, edges[i].target, Decayed(params, edges[i])))
  }

  ghost predicate SoundLinks(links: seq<Link>) {
    forall i :: 0 <= i < |links| ==> links[i].weight >= 0
  }

  /** The links leaving `x`, in order. */
  function LinkItems(links: seq<Link>, x: Id): seq<Item>
    decreases |links|
  {
    if links == [] then []
    else
      var l := Last(links);
      LinkItems(Init(links), x) + if l.source == x then [Item(l.target, l.weight)] else []
  }

  lemma {:induction false} LinkItemsNonNegative(links: seq<Link>, x: Id)
    requires SoundLinks(links)
    ensures NonNegativeItems(LinkItems(links, x))
    decreases |links|
  {
    if links != [] {
      LinkItemsNonNegative(Init(links), x);
    }
  }

  /** Decayed weight from `x` to each of its targets. */
  function Outbound(links: seq<Link>, x: Id): Weights {
    Accumulate(LinkItems(links, x))
  }

  lemma {:induction false} OutboundNonNegative(links: seq<Link>, x: Id)
    requires SoundLinks(links)
    ensures NonNegative(Outbound(links, x))
  {
    LinkItemsNonNegative(links, x);
    AccumulateNonNegative(LinkItems(links, x));
  }

  type Outgoing = map<Id, Weights>

  function Put(m: Outgoing, l: Link): Outgoing {
    m[l.source := Bump(if l.source in m then m[l.source] else map[], Item(l.target, l.weight))]
  }

  /** The links grouped by where they leave. */
  function Grouped(links: seq<Link>): Outgoing
    decreases |links|
  {
    if links == [] then map[] else Put(Grouped(Init(links)), Last(links))
  }

  /** A group holds exactly the links leaving its node. */
  lemma {:induction false} GroupedAt(links: seq<Link>, x: Id)
    ensures x in Grouped(links) <==> LinkItems(links, x) != []
    ensures x in Grouped(links) ==> Grouped(links)[x] == Outbound(links, x)
    decreases |links|
  {
    if links != [] {
      var l := Last(links);
      GroupedAt(Init(links), x);
      if l.source == x {
        Snoc(LinkItems(Init(links), x), Item(l.target, l.weight));
        assert Outbound(links, x) == Bump(Outbound(Init(links), x), Item(l.target, l.weight));
      } else {
        assert LinkItems(links, x) == LinkItems(Init(links), x);
      }
    }
  }

  /** Each row's shares. */
  function Normalized(links: seq<Link>): (t: Outgoing) {
    var m := Grouped(links);
    map x | x in m :: Shares(m[x])
  }

  predicate RowsFit(links: seq<Link>) {
    forall x :: x in Grouped(links) ==> SharesFit(Grouped(links)[x])
  }

  lemma {:induction false} GroupSound(links: seq<Link>, x: Id)
    requires SoundLinks(links) && x in Grouped(links)
    ensures NonNegative(Grouped(links)[x])
  {
    GroupedAt(links, x);
    OutboundNonNegative(links, x);
  }

  // -------------------------------------------------------------------- rounds

  /** Each key of `m` in order, its value scaled by `factor`. */
  function Scaled(m: Weights, factor: Fixed6): (r: seq<Item>)
    ensures |r| == |Listing(m.Keys)|
  {
    var keys := Listing(m.Keys);
    seq(|keys|, i requires 0 <= i < |keys| => assert keys[i] in keys; Item(keys[i], Times(m[keys[i]], factor)))
  }

  /** What one node passes on. */
  function FlowFrom(share: Fixed6, targets: Weights, damping: Fixed6): (r: seq<Item>)
    ensures |r| == |Listing(targets.Keys)|
  {
    var keys := Listing(targets.Keys);
    seq(|keys|, i requires 0 <= i < |keys| =>
      assert keys[i] in keys; Item(keys[i], Times(Times(share, targets[keys[i]]), damping)))
  }

  /** What the nodes in `keys` pass on, node by node. */
  function Flow(weights: Weights, t: Outgoing, damping: Fixed6, keys: seq<Id>): seq<Item>
    requires forall k :: k in keys ==> k in weights
    decreases |keys|
  {
    if keys == [] then []
    else
      Unsnoc(keys);
      var x := Last(keys);
      Flow(weights, t, damping, Init(keys)) + if x in t then FlowFrom(weights[x], t[x], damping) else []
  }

  function RoundItems(seed: Weights, t: Outgoing, damping: Fixed6, weights: Weights): seq<Item> {
    Scaled(seed, Sub(SCALE, damping)) + Flow(weights, t, damping, Listing(weights.Keys))
  }

  function Round(seed: Weights, t: Outgoing, damping: Fixed6, weights: Weights): Weights {
    Accumulate(RoundItems(seed, t, damping, weights))
  }

  function Rounds(seed: Weights, t: Outgoing, damping: Fixed6, n: nat): Weights {
    if n == 0 then seed else Round(seed, t, damping, Rounds(seed, t, damping, n - 1))
  }

  /** A result lists the nodes it gives something. */
  function Retain(m: Weights): Weights {
    map k | k in m && m[k] != 0 :: m[k]
  }

  function Propagated(params: Params, roots: seq<Seed>, edges: seq<TrustEdge>): Weights {
    Retain(Rounds(SeedVector(roots), Normalized(Links(params, edges)), params.damping, params.iterations))
  }

  predicate EdgesFit(params: Params, edges: seq<TrustEdge>) {
    forall i :: 0 <= i < |edges| ==> EdgeFits(params, edges[i])
  }

  /** Nothing overflows: no decay, no share of the seeds and no share of a row. */
  predicate Runs(params: Params, roots: seq<Seed>, edges: seq<TrustEdge>) {
    SeedsFit(roots) && EdgesFit(params, edges) && RowsFit(Links(params, edges))
  }

  /** What a run answers: the weights, or nothing where it overflows. */
  function Outcome(params: Params, roots: seq<Seed>, edges: seq<TrustEdge>): Option<Weights> {
    if Runs(params, roots, edges) then Some(Propagated(params, roots, edges)) else None
  }

  /** Weights that are not negative never overflow, unless their decay does. */
  lemma {:induction false} SoundRuns(params: Params, roots: seq<Seed>, edges: seq<TrustEdge>)
    requires Sound(roots, edges)
    ensures Runs(params, roots, edges) <==> EdgesFit(params, edges)
  {
    TotalNonNegative(RootWeights(roots));
    var links := Links(params, edges);
    forall x | x in Grouped(links) ensures SharesFit(Grouped(links)[x]) {
      GroupSound(links, x);
      NonNegativeShares(Grouped(links)[x]);
    }
  }

  // ------------------------------------------------------------- the algorithm

  /** An edge confined to subjects applies only to a query that names one. */
  predicate Applies(e: TrustEdge, subjects: seq<Bytes>) {
    e.subjects == [] || exists i :: 0 <= i < |e.subjects| && e.subjects[i] in subjects
  }

  function Applicable(edges: seq<TrustEdge>, subjects: seq<Bytes>): (r: seq<TrustEdge>)
    ensures forall e :: e in r <==> e in edges && Applies(e, subjects)
  {
    if edges == [] then []
    else
      assert edges == [edges[0]] + edges[1..];
      (if Applies(edges[0], subjects) then [edges[0]] else []) + Applicable(edges[1..], subjects)
  }

  /** Each edge that applies stays, in its place and as often. */
  lemma {:induction false} ApplicableIs(a: seq<TrustEdge>, b: seq<TrustEdge>, e: TrustEdge, subjects: seq<Bytes>)
    ensures Applicable([e], subjects) ==
            if e.subjects == [] || exists x :: x in e.subjects && x in subjects then [e] else []
    ensures Applicable(a + b, subjects) == Applicable(a, subjects) + Applicable(b, subjects)
    decreases |a|
  {
    if a == [] {
      assert a + b == b;
      assert [e] == [e] + [e][1..] && Applicable([], subjects) == [];
    } else {
      assert (a + b)[1..] == a[1..] + b;
      ApplicableIs(a[1..], b, e, subjects);
    }
  }

  method SumWeights(amounts: seq<Fixed6>) returns (total: Fixed6)
    ensures total == Total(amounts)
  {
    total := 0;
    for i := 0 to |amounts|
      invariant total == Total(amounts[..i])
    {
      assert Init(amounts[..i + 1]) == amounts[..i];
      total := Add(total, amounts[i]);
    }
    assert amounts[..|amounts|] == amounts;
  }

  method AddItems(items: seq<Item>, start: Weights, ghost before: seq<Item>) returns (m: Weights)
    requires start == Accumulate(before)
    ensures m == Accumulate(before + items)
  {
    m := start;
    assert before + items[..0] == before;
    for i := 0 to |items|
      invariant m == Accumulate(before + items[..i])
    {
      assert Init(before + items[..i + 1]) == before + items[..i];
      m := Bump(m, items[i]);
    }
    assert items[..|items|] == items;
  }

  method DecayedWeight(params: Params, e: TrustEdge) returns (weight: Option<Fixed6>)
    ensures weight.Some? <==> EdgeFits(params, e)
    ensures weight.Some? ==> weight.value == Decayed(params, e)
  {
    if params.halfLifeDays.None? {
      return Some(e.weight);
    }
    weight := HalveFractional(e.weight, e.ageDays, params.halfLifeDays.value);
  }

  /** The rows, unless a decay or a share overflows. */
  method Normalize(params: Params, edges: seq<TrustEdge>) returns (t: Option<Outgoing>)
    ensures t.Some? <==> EdgesFit(params, edges) && RowsFit(Links(params, edges))
    ensures t.Some? ==> t.value == Normalized(Links(params, edges))
  {
    var outbound: Outgoing := map[];
    ghost var links := Links(params, edges);
    for i := 0 to |edges|
      invariant outbound == Grouped(links[..i])
      invariant forall j :: 0 <= j < i ==> EdgeFits(params, edges[j])
    {
      var e := edges[i];
      var weight := DecayedWeight(params, e);
      if weight.None? {
        return None;
      }
      assert Init(links[..i + 1]) == links[..i];
      outbound := Put(outbound, Link(e.source, e.target, weight.value));
    }
    assert links[..|edges|] == links;
    if exists x :: x in outbound && !SharesFit(outbound[x]) {
      return None;
    }
    t := Some(map x | x in outbound :: Shares(outbound[x]));
  }

  method OneRound(seed: Weights, t: Outgoing, damping: Fixed6, complement: Fixed6, weights: Weights)
    returns (next: Weights)
    requires complement == Sub(SCALE, damping)
    ensures next == Round(seed, t, damping, weights)
  {
    var own := Scaled(seed, complement);
    next := AddItems(own, map[], []);
    assert [] + own == own;
    next := AddFlow(weights, t, damping, next, own);
  }

  method AddFlow(
      weights: Weights, t: Outgoing, damping: Fixed6, start: Weights, ghost own: seq<Item>)
    returns (next: Weights)
    requires start == Accumulate(own)
    ensures next == Accumulate(own + Flow(weights, t, damping, Listing(weights.Keys)))
  {
    next := start;
    var keys := Listing(weights.Keys);
    ghost var done := own + Flow(weights, t, damping, []);
    assert done == own;
    for i := 0 to |keys|
      invariant done == own + Flow(weights, t, damping, keys[..i])
      invariant next == Accumulate(done)
    {
      FlowStep(weights, t, damping, keys, i, own);
      var x := keys[i];
      if x in t {
        var flow := FlowFrom(weights[x], t[x], damping);
        next := AddItems(flow, next, done);
        done := done + flow;
      }
    }
    assert keys[..|keys|] == keys;
  }

  lemma {:induction false} FlowStep(
      weights: Weights, t: Outgoing, damping: Fixed6, keys: seq<Id>, i: nat, before: seq<Item>)
    requires i < |keys| && forall k :: k in keys ==> k in weights
    ensures keys[i] in weights
    ensures var done := before + Flow(weights, t, damping, keys[..i]);
      before + Flow(weights, t, damping, keys[..i + 1])
      == if keys[i] in t then done + FlowFrom(weights[keys[i]], t[keys[i]], damping) else done
  {
    var next := keys[..i + 1];
    assert keys[i] in keys;
    assert Init(next) == keys[..i] && Last(next) == keys[i];
    var flow := Flow(weights, t, damping, keys[..i]);
    if keys[i] in t {
      Regroup(before, flow, FlowFrom(weights[keys[i]], t[keys[i]], damping));
    } else {
      assert flow + [] == flow;
    }
  }

  method PropagateWithin(params: Params, roots: seq<Seed>, edges: seq<TrustEdge>, subjects: seq<Bytes>)
      returns (w: Option<Weights>)
    ensures w == Outcome(params, roots, Applicable(edges, subjects))
  {
    w := PropagateAll(params, roots, Applicable(edges, subjects));
  }

  /** The seed vector, unless a share overflows. */
  method SeedWeights(roots: seq<Seed>) returns (seed: Option<Weights>)
    ensures seed.Some? <==> SeedsFit(roots)
    ensures seed.Some? ==> seed.value == SeedVector(roots)
  {
    var seedTotal := SumWeights(RootWeights(roots));
    if exists i :: 0 <= i < |roots| && QuotientOverflows(roots[i].weight, ONE, seedTotal) {
      return None;
    }
    var shares := seq(|roots|, i requires 0 <= i < |roots| =>
      Item(roots[i].key, MulDiv(roots[i].weight, ONE, seedTotal)));
    assert shares == SeedItems(roots);
    var m := AddItems(shares, map[], []);
    assert [] + shares == shares;
    seed := Some(m);
  }

  /** The weights, unless something overflows. */
  method PropagateAll(params: Params, roots: seq<Seed>, edges: seq<TrustEdge>) returns (r: Option<Weights>)
    ensures r == Outcome(params, roots, edges)
  {
    var start := SeedWeights(roots);
    if start.None? {
      return None;
    }
    var rows := Normalize(params, edges);
    if rows.None? {
      return None;
    }
    var seed, t, complement := start.value, rows.value, Sub(SCALE, params.damping);
    var w := seed;
    for n := 0 to params.iterations
      invariant w == Rounds(seed, t, params.damping, n)
    {
      w := OneRound(seed, t, params.damping, complement, w);
    }
    r := Some(Retain(w));
  }
}
