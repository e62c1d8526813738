/** What no seed reaches: it never changes what a run computes, but it can stop the
    run. */
module PropagateReach {
  import opened Seqs
  import opened Ordering
  import opened Wrappers
  import opened Fixed
  import opened Propagate
  import opened PropagateLaws

  // ---------------------------------------------------------- non-interference

  /** The edges leaving nodes in `s`, in order. */
  function From(edges: seq<TrustEdge>, s: set<Id>): seq<TrustEdge>
    decreases |edges|
  {
    if edges == [] then []
    else From(Init(edges), s) + if Last(edges).source in s then [Last(edges)] else []
  }

  lemma {:induction false} LastLink(params: Params, edges: seq<TrustEdge>, e: TrustEdge, x: Id)
    ensures LinkItems(Links(params, edges + [e]), x)
            == LinkItems(Links(params, edges), x) + if e.source == x then [Item(e.target, Decayed(params, e))] else []
  {
    var links := Links(params, edges + [e]);
    assert Init(links) == Links(params, edges);
  }

  /** A node in `s` passes on what the edges leaving `s` say. */
  lemma {:induction false} FromDecides(params: Params, edges: seq<TrustEdge>, s: set<Id>, x: Id)
    requires x in s
    ensures LinkItems(Links(params, edges), x) == LinkItems(Links(params, From(edges, s)), x)
    decreases |edges|
  {
    if edges != [] {
      var e, before := Last(edges), From(Init(edges), s);
      FromDecides(params, Init(edges), s, x);
      Unsnoc(edges);
      LastLink(params, Init(edges), e, x);
      LastLink(params, before, e, x);
      assert before + [] == before;
    }
  }

  /** `s` holds the seeds and whatever an edge leads to from inside. */
  ghost predicate Holds(roots: seq<Seed>, edges: seq<TrustEdge>, s: set<Id>) {
    && (forall i :: 0 <= i < |roots| ==> roots[i].key in s)
    && (forall i :: 0 <= i < |edges| && edges[i].source in s ==> edges[i].target in s)
  }

  /** Some node with weight has `k` as a target. */
  ghost predicate IsFed(t: Outgoing, weights: Weights, k: Id) {
    exists n :: n in weights && n in t && k in t[n]
  }

  lemma {:induction false} FlowKeys(weights: Weights, t: Outgoing, damping: Fixed6, keys: seq<Id>, j: nat)
    requires (forall k :: k in keys ==> k in weights) && j < |Flow(weights, t, damping, keys)|
    ensures IsFed(t, weights, Flow(weights, t, damping, keys)[j].key)
    decreases |keys|
  {
    Unsnoc(keys);
    var n := Last(keys);
    var before := Flow(weights, t, damping, Init(keys));
    if j < |before| {
      FlowKeys(weights, t, damping, Init(keys), j);
    } else {
      var targets := Listing(t[n].Keys);
      assert targets[j - |before|] in targets;
    }
  }

  lemma {:induction false} ScaledKeys(m: Weights, factor: Fixed6, j: nat)
    requires j < |Scaled(m, factor)|
    ensures Scaled(m, factor)[j].key in m
  {
    assert Listing(m.Keys)[j] in Listing(m.Keys);
  }

  lemma {:induction false} RoundItemKeys(seed: Weights, t: Outgoing, damping: Fixed6, weights: Weights, j: nat)
    requires j < |RoundItems(seed, t, damping, weights)|
    ensures var k := RoundItems(seed, t, damping, weights)[j].key; k in seed || IsFed(t, weights, k)
  {
    var factor := Sub(SCALE, damping);
    if j < |Scaled(seed, factor)| {
      ScaledKeys(seed, factor, j);
    } else {
      FlowKeys(weights, t, damping, Listing(weights.Keys), j - |Scaled(seed, factor)|);
    }
  }

  /** Weight is only on seeds and on targets of nodes that held weight. */
  lemma {:induction false} RoundKeys(seed: Weights, t: Outgoing, damping: Fixed6, weights: Weights, k: Id)
    requires k in Round(seed, t, damping, weights)
    ensures k in seed || IsFed(t, weights, k)
  {
    var items := RoundItems(seed, t, damping, weights);
    AccumulateKeys(items, k);
    var j :| 0 <= j < |items| && items[j].key == k;
    RoundItemKeys(seed, t, damping, weights, j);
  }

  /** A target of a node is the target of one of its edges. */
  lemma {:induction false} TargetIsEdge(params: Params, edges: seq<TrustEdge>, n: Id, k: Id)
    requires n in Normalized(Links(params, edges)) && k in Normalized(Links(params, edges))[n]
    ensures exists i :: 0 <= i < |edges| && edges[i].source == n && edges[i].target == k
  {
    var links := Links(params, edges);
    GroupedAt(links, n);
    LinkItemTarget(links, n, k);
    var i :| 0 <= i < |links| && links[i].source == n && links[i].target == k;
    assert edges[i].source == n && edges[i].target == k;
  }

  lemma {:induction false} SeedKeys(roots: seq<Seed>, k: Id)
    ensures k in SeedVector(roots) <==> exists i :: 0 <= i < |roots| && roots[i].key == k
  {
    var items := SeedItems(roots);
    AccumulateKeys(items, k);
    assert forall i :: 0 <= i < |roots| ==> items[i].key == roots[i].key;
  }

  /** No row leads out of `s`. */
  ghost predicate Inside(t: Outgoing, s: set<Id>) {
    forall n, k :: n in t && n in s && k in t[n] ==> k in s
  }

  lemma {:induction false} RoundStays(seed: Weights, t: Outgoing, damping: Fixed6, s: set<Id>, w: Weights)
    requires seed.Keys <= s && Inside(t, s) && w.Keys <= s
    ensures Round(seed, t, damping, w).Keys <= s
  {
    forall k | k in Round(seed, t, damping, w) ensures k in s {
      RoundKeys(seed, t, damping, w, k);
    }
  }

  /** Weight never leaves what holds the seeds. */
  lemma {:induction false} RoundsStay(seed: Weights, t: Outgoing, damping: Fixed6, s: set<Id>, n: nat)
    requires seed.Keys <= s && Inside(t, s)
    ensures Rounds(seed, t, damping, n).Keys <= s
  {
    if n > 0 {
      RoundsStay(seed, t, damping, s, n - 1);
      RoundStays(seed, t, damping, s, Rounds(seed, t, damping, n - 1));
    }
  }

  lemma {:induction false} HoldsInside(params: Params, roots: seq<Seed>, edges: seq<TrustEdge>, s: set<Id>)
    requires Holds(roots, edges, s)
    ensures SeedVector(roots).Keys <= s && Inside(Normalized(Links(params, edges)), s)
  {
    forall k | k in SeedVector(roots) ensures k in s {
      SeedKeys(roots, k);
    }
    var t := Normalized(Links(params, edges));
    forall n, k | n in t && n in s && k in t[n] ensures k in s {
      TargetIsEdge(params, edges, n, k);
    }
  }

  ghost predicate SameRow(t: Outgoing, u: Outgoing, x: Id) {
    (x in t <==> x in u) && (x in t ==> t[x] == u[x])
  }

  /** Rows that agree on the nodes with weight give one flow. */
  lemma {:induction false} FlowAgrees(weights: Weights, t: Outgoing, u: Outgoing, damping: Fixed6, keys: seq<Id>)
    requires forall k :: k in keys ==> k in weights && SameRow(t, u, k)
    ensures Flow(weights, t, damping, keys) == Flow(weights, u, damping, keys)
    decreases |keys|
  {
    if keys != [] {
      Unsnoc(keys);
      FlowAgrees(weights, t, u, damping, Init(keys));
    }
  }

  lemma {:induction false} RowsAgree(params: Params, a: seq<TrustEdge>, b: seq<TrustEdge>, s: set<Id>, x: Id)
    requires From(a, s) == From(b, s) && x in s
    ensures SameRow(Normalized(Links(params, a)), Normalized(Links(params, b)), x)
  {
    FromDecides(params, a, s, x);
    FromDecides(params, b, s, x);
    GroupedAt(Links(params, a), x);
    GroupedAt(Links(params, b), x);
  }

  /** One row, or none, for each node of `s` in both. */
  ghost predicate AgreeOn(t: Outgoing, u: Outgoing, s: set<Id>) {
    forall x {:trigger SameRow(t, u, x)} :: x in s ==> SameRow(t, u, x)
  }

  lemma {:induction false} RoundAgrees(seed: Weights, t: Outgoing, u: Outgoing, damping: Fixed6, s: set<Id>, w: Weights)
    requires AgreeOn(t, u, s) && w.Keys <= s
    ensures Round(seed, t, damping, w) == Round(seed, u, damping, w)
  {
    forall k | k in Listing(w.Keys) ensures SameRow(t, u, k) {
    }
    FlowAgrees(w, t, u, damping, Listing(w.Keys));
  }

  /** The round after the first `i` is the same on both rows. */
  ghost predicate SameNext(seed: Weights, t: Outgoing, u: Outgoing, damping: Fixed6, i: nat) {
    Round(seed, t, damping, Rounds(seed, t, damping, i)) == Round(seed, u, damping, Rounds(seed, t, damping, i))
  }

  lemma {:induction false} RoundsChain(seed: Weights, t: Outgoing, u: Outgoing, damping: Fixed6, n: nat)
    requires forall i: nat {:trigger SameNext(seed, t, u, damping, i)} :: i < n ==> SameNext(seed, t, u, damping, i)
    ensures Rounds(seed, t, damping, n) == Rounds(seed, u, damping, n)
  {
    if n > 0 {
      RoundsChain(seed, t, u, damping, n - 1);
      var w := Rounds(seed, t, damping, n - 1);
      RoundsNext(seed, t, damping, n, w);
      RoundsNext(seed, u, damping, n, w);
      assert SameNext(seed, t, u, damping, n - 1);
    }
  }

  lemma {:induction false} RoundsNext(seed: Weights, t: Outgoing, damping: Fixed6, n: nat, w: Weights)
    requires n > 0 && w == Rounds(seed, t, damping, n - 1)
    ensures Rounds(seed, t, damping, n) == Round(seed, t, damping, w)
  {
  }

  lemma {:induction false} RoundsAgree(seed: Weights, t: Outgoing, u: Outgoing, damping: Fixed6, s: set<Id>, n: nat)
    requires seed.Keys <= s && Inside(t, s) && AgreeOn(t, u, s)
    ensures Rounds(seed, t, damping, n) == Rounds(seed, u, damping, n)
  {
    forall i: nat | i < n ensures SameNext(seed, t, u, damping, i) {
      RoundsStay(seed, t, damping, s, i);
      RoundAgrees(seed, t, u, damping, s, Rounds(seed, t, damping, i));
    }
    RoundsChain(seed, t, u, damping, n);
  }

  /** Edges that agree on what leaves a set holding the seeds and closed under the
      first give one map, to the last digit. */
  lemma {:induction false} SamePropagated(
      params: Params, roots: seq<Seed>, a: seq<TrustEdge>, b: seq<TrustEdge>, s: set<Id>)
    requires Holds(roots, a, s) && From(a, s) == From(b, s)
    ensures Propagated(params, roots, a) == Propagated(params, roots, b)
  {
    var t, u := Normalized(Links(params, a)), Normalized(Links(params, b));
    HoldsInside(params, roots, a, s);
    forall x | x in s ensures SameRow(t, u, x) {
      RowsAgree(params, a, b, s, x);
    }
    RoundsAgree(SeedVector(roots), t, u, params.damping, s, params.iterations);
  }

  // ------------------------------------------------------------------- overflow

  lemma {:induction false} FromHolds(edges: seq<TrustEdge>, s: set<Id>, e: TrustEdge)
    ensures e in From(edges, s) <==> e in edges && e.source in s
    decreases |edges|
  {
    if edges != [] {
      FromHolds(Init(edges), s, e);
      Unsnoc(edges);
    }
  }

  lemma {:induction false} FromTwice(edges: seq<TrustEdge>, s: set<Id>)
    ensures From(From(edges, s), s) == From(edges, s)
    decreases |edges|
  {
    if edges != [] {
      FromTwice(Init(edges), s);
      Snoc(From(Init(edges), s), Last(edges));
      assert From(Init(edges), s) + [] == From(Init(edges), s);
    }
  }

  /** Nothing overflows outside `s`. */
  ghost predicate UnreachedFit(params: Params, edges: seq<TrustEdge>, s: set<Id>) {
    && (forall i :: 0 <= i < |edges| && edges[i].source !in s ==> EdgeFits(params, edges[i]))
    && (forall x :: x in Grouped(Links(params, edges)) && x !in s ==> SharesFit(Grouped(Links(params, edges))[x]))
  }

  lemma {:induction false} EdgesFitApart(params: Params, edges: seq<TrustEdge>, s: set<Id>)
    ensures EdgesFit(params, edges) <==>
            && EdgesFit(params, From(edges, s))
            && forall i :: 0 <= i < |edges| && edges[i].source !in s ==> EdgeFits(params, edges[i])
  {
    var reached := From(edges, s);
    if EdgesFit(params, edges) {
      forall i | 0 <= i < |reached| ensures EdgeFits(params, reached[i]) {
        FromHolds(edges, s, reached[i]);
      }
    }
    if EdgesFit(params, reached) {
      forall i | 0 <= i < |edges| && edges[i].source in s ensures EdgeFits(params, edges[i]) {
        FromHolds(edges, s, edges[i]);
        assert edges[i] in reached;
      }
    }
  }

  /** A row of `s` is in what leaves `s`, and no other is. */
  lemma {:induction false} GroupApart(params: Params, edges: seq<TrustEdge>, s: set<Id>, x: Id)
    ensures var m, reached := Grouped(Links(params, edges)), Grouped(Links(params, From(edges, s)));
      && (x in reached <==> x in m && x in s)
      && (x in reached ==> reached[x] == m[x])
  {
    GroupedAt(Links(params, edges), x);
    GroupedAt(Links(params, From(edges, s)), x);
    if x in s {
      FromDecides(params, edges, s, x);
    } else if LinkItems(Links(params, From(edges, s)), x) != [] {
      LinkItemOrigin(Links(params, From(edges, s)), x, 0);
      var i :| 0 <= i < |From(edges, s)| && From(edges, s)[i].source == x;
      FromHolds(edges, s, From(edges, s)[i]);
    }
  }

  lemma {:induction false} RowsFitApart(params: Params, edges: seq<TrustEdge>, s: set<Id>)
    ensures var m := Grouped(Links(params, edges));
      RowsFit(Links(params, edges)) <==>
      RowsFit(Links(params, From(edges, s))) && forall x :: x in m && x !in s ==> SharesFit(m[x])
  {
    var m, reached := Grouped(Links(params, edges)), Grouped(Links(params, From(edges, s)));
    forall x ensures (x in reached <==> x in m && x in s) && (x in reached ==> reached[x] == m[x]) {
      GroupApart(params, edges, s, x);
    }
    assert forall x :: x in m && x in s ==> x in reached && m[x] == reached[x];
  }

  /** A run overflows where what leaves `s` makes it, or where something outside
      does. */
  lemma {:induction false} RunsApart(params: Params, roots: seq<Seed>, edges: seq<TrustEdge>, s: set<Id>)
    ensures Runs(params, roots, edges) <==> Runs(params, roots, From(edges, s)) && UnreachedFit(params, edges, s)
  {
    EdgesFitApart(params, edges, s);
    RowsFitApart(params, edges, s);
  }

  /** What no seed reaches decides one thing: whether there is an answer. */
  lemma {:induction false} ReachedDecides(params: Params, roots: seq<Seed>, edges: seq<TrustEdge>, s: set<Id>)
    requires Holds(roots, edges, s)
    ensures Outcome(params, roots, edges) ==
            if UnreachedFit(params, edges, s) then Outcome(params, roots, From(edges, s)) else None
  {
    FromTwice(edges, s);
    SamePropagated(params, roots, edges, From(edges, s), s);
    RunsApart(params, roots, edges, s);
  }

  /** Non-interference: runs over two sets of edges that agree on what leaves a set
      holding the seeds and closed under the first have one outcome, exactly
      unless what no seed reaches overflows in one of them alone. */
  lemma {:induction false} NonInterference(
      params: Params, roots: seq<Seed>, a: seq<TrustEdge>, b: seq<TrustEdge>, s: set<Id>)
    requires Holds(roots, a, s) && From(a, s) == From(b, s)
    ensures Runs(params, roots, a) ==> (Runs(params, roots, b) <==> UnreachedFit(params, b, s))
    ensures Outcome(params, roots, a) == Outcome(params, roots, b) <==>
            (Runs(params, roots, From(a, s)) ==> (UnreachedFit(params, a, s) <==> UnreachedFit(params, b, s)))
  {
    SamePropagated(params, roots, a, b, s);
    RunsApart(params, roots, a, s);
    RunsApart(params, roots, b, s);
  }

  /** Where no weight is negative, only a decay overflows. */
  lemma {:induction false} UnreachedSound(params: Params, edges: seq<TrustEdge>, s: set<Id>)
    requires SoundEdges(edges)
    ensures UnreachedFit(params, edges, s) <==>
            forall i :: 0 <= i < |edges| && edges[i].source !in s ==> EdgeFits(params, edges[i])
  {
    var links := Links(params, edges);
    forall x | x in Grouped(links) ensures SharesFit(Grouped(links)[x]) {
      GroupSound(links, x);
      NonNegativeShares(Grouped(links)[x]);
    }
  }

  /** No weight is negative, and none is so large that its decay could overflow. */
  predicate Mild(params: Params, edges: seq<TrustEdge>) {
    && SoundEdges(edges)
    && (params.halfLifeDays.Some? ==> forall i :: 0 <= i < |edges| ==> edges[i].weight < 0x8000_0000_0000_0000)
  }

  /** Among such edges those no seed reaches can be added or removed at will. */
  lemma {:induction false} NeverInterferes(
      params: Params, roots: seq<Seed>, a: seq<TrustEdge>, b: seq<TrustEdge>, s: set<Id>)
    requires Holds(roots, a, s) && From(a, s) == From(b, s) && Mild(params, a) && Mild(params, b)
    ensures Outcome(params, roots, a) == Outcome(params, roots, b)
  {
    MildFits(params, a, s);
    MildFits(params, b, s);
    NonInterference(params, roots, a, b, s);
  }

  lemma {:induction false} MildFits(params: Params, edges: seq<TrustEdge>, s: set<Id>)
    requires Mild(params, edges)
    ensures UnreachedFit(params, edges, s)
  {
    UnreachedSound(params, edges, s);
    forall i | 0 <= i < |edges| ensures EdgeFits(params, edges[i]) {
      if params.halfLifeDays.Some? {
        SmallDecays(edges[i].weight, edges[i].ageDays, params.halfLifeDays.value);
      }
    }
  }

  /** One edge that no seed reaches stops a run: its weight is the largest there is,
      three quarters of a half-life old. */
  lemma {:induction false} UnreachedStops(x: Id, y: Id, z: Id)
      returns (params: Params, roots: seq<Seed>, e: TrustEdge, s: set<Id>)
    requires x != y
    ensures Sound(roots, [e]) && e.source == y && e.target == z
    ensures Holds(roots, [], s) && x in s && From([], s) == From([e], s)
    ensures Outcome(params, roots, []).Some? && Outcome(params, roots, [e]).None?
  {
    params, roots := Params(850_000, 1, Some(4)), [Seed(x, 1)];
    e, s := TrustEdge(y, z, I128_MAX, 3, []), {x};
    assert Init([e]) == [];
    assert From([e], s) == From([], s) == [];
    SoundRuns(params, roots, []);
    assert !EdgeFits(params, e);
    assert !EdgesFit(params, [e]) by {
      assert [e][0] == e;
    }
  }

  // ---------------------------------------------------------------------- hops

  /** At most `n` edges lead from a seed to `x`. */
  ghost predicate WithinHops(roots: seq<Seed>, edges: seq<TrustEdge>, x: Id, n: nat)
    decreases n
  {
    || (exists i :: 0 <= i < |roots| && roots[i].key == x)
    || (n > 0 && exists i :: (0 <= i < |edges| && edges[i].target == x
                              && WithinHops(roots, edges, edges[i].source, n - 1)))
  }

  /** The seeds and rows come from these roots and edges. */
  ghost predicate Behind(roots: seq<Seed>, edges: seq<TrustEdge>, seed: Weights, t: Outgoing) {
    && (forall k :: k in seed ==> exists i :: 0 <= i < |roots| && roots[i].key == k)
    && (forall n, k :: n in t && k in t[n] ==>
         exists i :: 0 <= i < |edges| && edges[i].source == n && edges[i].target == k)
  }

  lemma {:induction false} RoundHops(
      roots: seq<Seed>, edges: seq<TrustEdge>, seed: Weights, t: Outgoing, damping: Fixed6, n: nat, w: Weights)
    requires Behind(roots, edges, seed, t) && forall k :: k in w ==> WithinHops(roots, edges, k, n)
    ensures forall k :: k in Round(seed, t, damping, w) ==> WithinHops(roots, edges, k, n + 1)
  {
    forall k | k in Round(seed, t, damping, w) ensures WithinHops(roots, edges, k, n + 1) {
      RoundKeys(seed, t, damping, w, k);
    }
  }

  lemma {:induction false} WeightWithinHops(
      roots: seq<Seed>, edges: seq<TrustEdge>, seed: Weights, t: Outgoing, damping: Fixed6, n: nat)
    requires Behind(roots, edges, seed, t)
    ensures forall k :: k in Rounds(seed, t, damping, n) ==> WithinHops(roots, edges, k, n)
  {
    if n > 0 {
      WeightWithinHops(roots, edges, seed, t, damping, n - 1);
      RoundHops(roots, edges, seed, t, damping, n - 1, Rounds(seed, t, damping, n - 1));
    }
  }

  /** A node with weight in the result is within as many edges of a seed as
      there are rounds. */
  lemma {:induction false} ResultWithinHops(params: Params, roots: seq<Seed>, edges: seq<TrustEdge>, k: Id)
    requires k in Propagated(params, roots, edges)
    ensures WithinHops(roots, edges, k, params.iterations)
  {
    var seed, t := SeedVector(roots), Normalized(Links(params, edges));
    forall x | x in seed ensures exists i :: 0 <= i < |roots| && roots[i].key == x {
      SeedKeys(roots, x);
    }
    forall n, x | n in t && x in t[n]
      ensures exists i :: 0 <= i < |edges| && edges[i].source == n && edges[i].target == x
    {
      TargetIsEdge(params, edges, n, x);
    }
    WeightWithinHops(roots, edges, seed, t, params.damping, params.iterations);
  }
}
