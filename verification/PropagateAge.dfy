/** What age does to an edge: a half-life halves what it carries, days between lie
    on a line, and of two edges alike but for age the older has no larger share. */
module PropagateAge {
  import opened Bits
  import opened Seqs
  import opened Ordering
  import opened Wrappers
  import opened Fixed
  import opened Propagate
  import opened PropagateMass
  import opened PropagateLaws
  import opened PropagateReach

  // ----------------------------------------------------------------- one edge alone

  /** What an edge alone adds to its target. */
  lemma {:induction false} AloneCarries(params: Params, e: TrustEdge)
    ensures Outbound(Links(params, [e]), e.source) == map[e.target := Decayed(params, e)]
  {
    LastLink(params, [], e, e.source);
    assert [] + [e] == [e] && Links(params, []) == [];
    var item := Item(e.target, Decayed(params, e));
    assert LinkItems(Links(params, [e]), e.source) == [item];
    AccumulateOne(item);
  }

  lemma {:induction false} AccumulateOne(item: Item)
    ensures Accumulate([item]) == map[item.key := item.amount]
  {
    assert Init([item]) == [] && Accumulate([]) == map[];
    assert Accumulate([item]) == Bump(map[], item);
  }

  lemma {:induction false} HalvedIs(x: nat, k: nat)
    ensures Halved(x, k) == x / Pow2(k)
    decreases k
  {
    if k > 0 {
      HalvedIs(x / 2, k - 1);
      HalfFirst(x, Pow2(k - 1), Pow2(k));
    } else {
      assert Pow2(0) == 1;
    }
  }

  lemma {:induction false} HalfFirst(x: nat, p: nat, q: nat)
    requires p > 0 && q == 2 * p
    ensures x / 2 / p == x / q
  {
    var h, n := x / 2, x / 2 / p;
    assert h == p * n + h % p;
    QuotientIs(x, q, n, 2 * (h % p) + x % 2);
  }

  /** Without a half-life, or with none of a day, age does nothing. */
  lemma {:induction false} NoDecay(params: Params, e: TrustEdge)
    requires e.weight >= 0 && (params.halfLifeDays.None? || params.halfLifeDays == Some(0))
    ensures Outbound(Links(params, [e]), e.source) == map[e.target := e.weight]
  {
    AloneCarries(params, e);
  }

  /** After `k` half-lives an edge carries its weight halved `k` times, and nothing
      from 127 on. */
  lemma {:induction false} WholeHalfLives(params: Params, e: TrustEdge, h: nat, k: nat)
    requires e.weight >= 0 && params.halfLifeDays == Some(h) && h > 0 && e.ageDays == k * h
    ensures Outbound(Links(params, [e]), e.source) == map[e.target := if k < 127 then e.weight / Pow2(k) else 0]
  {
    AloneCarries(params, e);
    QuotientIs(e.ageDays, h, k, 0);
    HalvedIs(e.weight, k);
    Pow2Positive(k);
    if e.weight == 0 {
      QuotientIs(0, Pow2(k), 0, 0);
    }
  }

  lemma {:induction false} Pow2Positive(k: nat)
    ensures Pow2(k) > 0
  {
  }

  /** `left` is `whole` less the line's part after `a` of `h` days, rounded down. */
  ghost predicate OnLine(whole: int, left: int, a: nat, h: nat) {
    2 * h * (whole - left) <= whole * a < 2 * h * (whole - left + 1)
  }

  /** And part of the way to the next half-life it carries what lies on the line from
      there to half of it, less than a unit off. */
  lemma {:induction false} BetweenHalfLives(params: Params, e: TrustEdge, h: nat, k: nat, a: nat) returns (left: Fixed6)
    requires e.weight >= 0 && params.halfLifeDays == Some(h) && h > 0
    requires k == e.ageDays / h < 127 && a == e.ageDays % h
    ensures Outbound(Links(params, [e]), e.source) == map[e.target := left]
    ensures Pow2(k) > 0 && OnLine(e.weight / Pow2(k), left, a, h)
  {
    left := Decayed(params, e);
    AloneCarries(params, e);
    Pow2Positive(k);
    DivShrinks(e.weight, Pow2(k));
    LeftBetween(e.weight, e.ageDays, h, k, a, e.weight / Pow2(k), left);
  }

  lemma {:induction false} LeftBetween(x: nat, age: nat, h: nat, k: nat, a: nat, whole: nat, left: int)
    requires h > 0 && k < 127 && age / h == k && age % h == a && Pow2(k) > 0 && whole == x / Pow2(k)
    requires left == DecaySigned(x, age, h)
    ensures OnLine(whole, left, a, h)
  {
    DecayBetween(x, age, h, k, a, whole);
  }

  lemma {:induction false} DecayBetween(x: nat, age: nat, h: nat, k: nat, a: nat, whole: nat)
    requires h > 0 && k < 127 && age / h == k && age % h == a && Pow2(k) > 0 && whole == x / Pow2(k)
    ensures OnLine(whole, Decay(x, age, h), a, h)
  {
    LinePasses(whole, a, h);
    var lost := (whole * a) / (h * 2);
    DecayIs(x, age, h, k, a, whole, lost);
    LineIs(whole, Decay(x, age, h), a, h, lost);
  }

  lemma {:induction false} DecayIs(x: nat, age: nat, h: nat, k: nat, a: nat, whole: nat, lost: nat)
    requires h > 0 && k < 127 && age / h == k && age % h == a && Pow2(k) > 0 && whole == x / Pow2(k)
    requires lost == (whole * a) / (h * 2)
    ensures Decay(x, age, h) == whole - lost
  {
    HalvedIs(x, k);
    if a == 0 {
      NoneLost(whole, h, lost);
    }
    if x == 0 {
      QuotientIs(0, Pow2(k), 0, 0);
      NoneLost(a, h, lost);
    }
  }

  lemma {:induction false} NoneLost(y: nat, h: nat, lost: nat)
    requires h > 0 && (lost == (y * 0) / (h * 2) || lost == (0 * y) / (h * 2))
    ensures lost == 0
  {
    QuotientIs(0, h * 2, 0, 0);
  }

  lemma {:induction false} LineIs(whole: nat, left: int, a: nat, h: nat, lost: nat)
    requires h > 0 && lost == (whole * a) / (h * 2) && left == whole - lost
    ensures OnLine(whole, left, a, h)
  {
    MulNonNegative(whole, a);
    var d := h * 2;
    assert whole * a == d * lost + (whole * a) % d;
    assert d * (lost + 1) == d * lost + d;
  }

  // ------------------------------------------------------------------------ shares

  lemma {:induction false} OlderYet(x: nat, n: nat, more: nat, d: nat)
    ensures Decay(x, n + more, d) <= Decay(x, n, d)
    decreases more
  {
    if more > 0 {
      OlderYet(x, n, more - 1, d);
      OlderIsLess(x, n + (more - 1), d);
    }
  }

  lemma {:induction false} OlderCarriesLess(params: Params, e: TrustEdge, f: TrustEdge)
    requires e.weight == f.weight >= 0 && f.ageDays <= e.ageDays
    ensures 0 <= Decayed(params, e) <= Decayed(params, f)
  {
    if params.halfLifeDays.Some? {
      OlderYet(e.weight, f.ageDays, e.ageDays - f.ageDays, params.halfLifeDays.value);
    }
  }

  /** The edge at `i` is the only one between its ends. */
  ghost predicate OnlyBetween(edges: seq<TrustEdge>, i: nat) {
    i < |edges| && forall j :: 0 <= j < |edges| && j != i ==>
      edges[j].source != edges[i].source || edges[j].target != edges[i].target
  }

  /** Nothing between the two. */
  ghost predicate NoneBetween(edges: seq<TrustEdge>, x: Id, y: Id) {
    forall j :: 0 <= j < |edges| ==> edges[j].source != x || edges[j].target != y
  }

  lemma {:induction false} NothingAdded(params: Params, edges: seq<TrustEdge>, x: Id, y: Id)
    requires NoneBetween(edges, x, y)
    ensures ItemsMass(LinkItems(Links(params, edges), x), iset{y}) == 0
    decreases |edges|
  {
    if edges != [] {
      NothingAdded(params, Init(edges), x, y);
      OneMoreMass(params, edges, x, y);
      assert edges[|edges| - 1] == Last(edges);
    }
  }

  lemma {:induction false} OneItem(before: seq<Item>, x: Id, y: Id, e: TrustEdge, amount: Fixed6)
    ensures ItemsMass(before + if e.source == x then [Item(e.target, amount)] else [], iset{y})
            == ItemsMass(before, iset{y}) + if e.source == x && e.target == y then amount else 0
  {
    if e.source == x {
      Snoc(before, Item(e.target, amount));
    } else {
      assert before + [] == before;
    }
  }

  /** What the only edge between two nodes carries is all that is added there. */
  lemma {:induction false} OnlyAdds(params: Params, edges: seq<TrustEdge>, i: nat)
    requires OnlyBetween(edges, i)
    ensures ItemsMass(LinkItems(Links(params, edges), edges[i].source), iset{edges[i].target})
           == Decayed(params, edges[i])
    decreases |edges|
  {
    var e, x, y := Last(edges), edges[i].source, edges[i].target;
    OneMoreMass(params, edges, x, y);
    if i == |edges| - 1 {
      assert NoneBetween(Init(edges), x, y);
      NothingAdded(params, Init(edges), x, y);
    } else {
      assert OnlyBetween(Init(edges), i);
      OnlyAdds(params, Init(edges), i);
      assert edges[|edges| - 1] == e;
    }
  }

  lemma {:induction false} OneMoreMass(params: Params, edges: seq<TrustEdge>, x: Id, y: Id)
    requires edges != []
    ensures var e := Last(edges);
            ItemsMass(LinkItems(Links(params, edges), x), iset{y})
            == ItemsMass(LinkItems(Links(params, Init(edges)), x), iset{y})
               + if e.source == x && e.target == y then Decayed(params, e) else 0
  {
    var e := Last(edges);
    Unsnoc(edges);
    LastLink(params, Init(edges), e, x);
    OneItem(LinkItems(Links(params, Init(edges)), x), x, y, e, Decayed(params, e));
  }

  lemma {:induction false} OnlyCarries(params: Params, edges: seq<TrustEdge>, i: nat)
    requires OnlyBetween(edges, i) && SoundEdges(edges)
    ensures var m := Outbound(Links(params, edges), edges[i].source);
            edges[i].target in m && m[edges[i].target] == Decayed(params, edges[i])
  {
    var links := Links(params, edges);
    var items := LinkItems(links, edges[i].source);
    LinkItemsNonNegative(links, edges[i].source);
    AccumulateSaturates(items, edges[i].target);
    OnlyAdds(params, edges, i);
    EdgeHasItem(params, edges, i);
    AccumulateKeys(items, edges[i].target);
  }

  lemma {:induction false} EdgeHasItem(params: Params, edges: seq<TrustEdge>, i: nat)
    requires i < |edges|
    ensures var items := LinkItems(Links(params, edges), edges[i].source);
            exists j :: 0 <= j < |items| && items[j].key == edges[i].target
    decreases |edges|
  {
    Unsnoc(edges);
    var x := edges[i].source;
    LastLink(params, Init(edges), Last(edges), x);
    var before, items := LinkItems(Links(params, Init(edges)), x), LinkItems(Links(params, edges), x);
    if i == |edges| - 1 {
      assert items[|before|].key == edges[i].target;
    } else {
      EdgeHasItem(params, Init(edges), i);
      var j :| 0 <= j < |before| && before[j].key == Init(edges)[i].target;
      assert items[j] == before[j];
    }
  }

  lemma {:induction false} SharesGrow(x: Fixed6, y: Fixed6, total: Fixed6)
    requires 0 <= x <= y && 0 <= total
    ensures MulDiv(x, ONE, total) <= MulDiv(y, ONE, total)
  {
    if total > 0 {
      var a, b := Saturate(x * ONE), Saturate(y * ONE);
      DivGrows(a, b, total);
      TruncDivFits(a, total);
      TruncDivFits(b, total);
    }
  }

  lemma {:induction false} DivGrows(a: nat, b: nat, d: nat)
    requires d > 0 && a <= b
    ensures a / d <= b / d
  {
    var q, r := a / d, b / d;
    assert a == d * q + a % d && b == d * r + b % d;
    assert d * (r - q) == d * r - d * q;
    MulAtLeast(d, r - q);
  }

  /** Of two edges of one weight from one node, each the only one to its target, the
      older never has the larger share of what the node passes on. */
  lemma {:induction false} OlderSharesLess(params: Params, edges: seq<TrustEdge>, i: nat, j: nat)
    requires SoundEdges(edges) && OnlyBetween(edges, i) && OnlyBetween(edges, j)
    requires edges[i].source == edges[j].source && edges[i].weight == edges[j].weight
    requires edges[j].ageDays <= edges[i].ageDays
    ensures var t, x := Normalized(Links(params, edges)), edges[i].source;
            x in t && edges[i].target in t[x] && edges[j].target in t[x]
              && t[x][edges[i].target] <= t[x][edges[j].target]
  {
    var links, x := Links(params, edges), edges[i].source;
    OnlyCarries(params, edges, i);
    OnlyCarries(params, edges, j);
    OlderCarriesLess(params, edges[i], edges[j]);
    GroupedAt(links, x);
    GroupSound(links, x);
    TotalNonNegative(Values(Grouped(links)[x]));
    SharesGrow(Decayed(params, edges[i]), Decayed(params, edges[j]), Total(Values(Grouped(links)[x])));
  }

  // ------------------------------------------------------------------------ a whole run

  lemma {:induction false} ListingOne(k: Id)
    ensures Listing({k}) == [k]
  {
    IncreasingUnique(Listing({k}), [k]);
  }

  lemma {:induction false} ListingTwo(j: Id, k: Id)
    requires Less(j, k)
    ensures Listing({j, k}) == [j, k]
  {
    IncreasingUnique(Listing({j, k}), [j, k]);
  }

  lemma {:induction false} AccumulateTwo(a: Item, b: Item)
    requires a.key != b.key
    ensures Accumulate([a, b]) == map[a.key := a.amount, b.key := b.amount]
  {
    AccumulateOne(a);
    assert Init([a, b]) == [a] && Last([a, b]) == b;
    assert Accumulate([a, b]) == Bump(Accumulate([a]), b);
  }

  lemma {:induction false} AccumulateThree(a: Item, b: Item, c: Item)
    requires a.key != b.key && b.key != c.key && a.key != c.key
    ensures Accumulate([a, b, c]) == map[a.key := a.amount, b.key := b.amount, c.key := c.amount]
  {
    AccumulateTwo(a, b);
    assert Init([a, b, c]) == [a, b] && Last([a, b, c]) == c;
    assert Accumulate([a, b, c]) == Bump(Accumulate([a, b]), c);
  }

  lemma {:induction false} TotalOfTwo(x: Fixed6, y: Fixed6)
    ensures Total([x, y]) == Add(Add(0, x), y) && Total([x]) == Add(0, x)
  {
    assert Init([x, y]) == [x] && Init([x]) == [];
    assert Total([x]) == Add(Total([]), x);
  }

  lemma {:induction false} TwoLinks(a: Id, b: Id, c: Id, x: Fixed6, y: Fixed6)
    requires b != c
    ensures Grouped([Link(a, b, x), Link(a, c, y)]) == map[a := map[b := x, c := y]]
  {
    var links := [Link(a, b, x), Link(a, c, y)];
    assert Init(links) == [links[0]] && Init([links[0]]) == [];
    assert Grouped([]) == map[];
    assert Grouped([links[0]]) == Put(map[], links[0]) == map[a := map[b := x]];
    assert Grouped(links) == Put(Grouped([links[0]]), links[1]);
  }

  lemma {:induction false} TwoShares(b: Id, c: Id)
    requires Less(b, c)
    ensures Shares(map[b := 1_000_000, c := 500_000]) == map[b := 666_666, c := 333_333]
  {
    LessAsymmetric(b, c);
    var row: Weights := map[b := 1_000_000, c := 500_000];
    assert row.Keys == {b, c};
    ListingTwo(b, c);
    assert Values(row) == [1_000_000, 500_000];
    TotalOfTwo(1_000_000, 500_000);
  }

  /** Two edges from one node, of one weight, the second a half-life old. */
  lemma {:induction false} ExampleRow(a: Id, b: Id, c: Id, young: TrustEdge, old_: TrustEdge, params: Params)
    requires Less(b, c) && params.halfLifeDays == Some(30)
    requires young == TrustEdge(a, b, 1_000_000, 0, []) && old_ == TrustEdge(a, c, 1_000_000, 30, [])
    ensures Normalized(Links(params, [young, old_])) == map[a := map[b := 666_666, c := 333_333]]
  {
    LessAsymmetric(b, c);
    HalfLeft(params, young, old_);
    assert Links(params, [young, old_]) == [Link(a, b, 1_000_000), Link(a, c, 500_000)];
    TwoLinks(a, b, c, 1_000_000, 500_000);
    TwoShares(b, c);
  }

  lemma {:induction false} HalfLeft(params: Params, young: TrustEdge, old_: TrustEdge)
    requires params.halfLifeDays == Some(30) && young.weight == old_.weight == 1_000_000
    requires young.ageDays == 0 && old_.ageDays == 30
    ensures Decayed(params, young) == 1_000_000 && Decayed(params, old_) == 500_000
  {
    assert Halved(1_000_000, 1) == Halved(500_000, 0) == 500_000;
  }

  lemma {:induction false} ExampleFlow(a: Id, b: Id, c: Id)
    requires a != b && a != c && Less(b, c)
    ensures var t: Outgoing := map[a := map[b := 666_666, c := 333_333]];
      Round(map[a := 1_000_000], t, 850_000, map[a := 1_000_000]) == map[a := 150_000, b := 566_666, c := 283_333]
  {
    LessAsymmetric(b, c);
    var row: Weights, seed: Weights := map[b := 666_666, c := 333_333], map[a := 1_000_000];
    var t: Outgoing := map[a := row];
    assert row.Keys == {b, c} && seed.Keys == {a};
    ListingOne(a);
    ListingTwo(b, c);
    assert Scaled(seed, 150_000) == [Item(a, 150_000)];
    assert FlowFrom(1_000_000, row, 850_000) == [Item(b, 566_666), Item(c, 283_333)];
    assert Init([a]) == [] && Flow(seed, t, 850_000, []) == [];
    assert Flow(seed, t, 850_000, [a]) == [Item(b, 566_666), Item(c, 283_333)];
    assert RoundItems(seed, t, 850_000, seed) == [Item(a, 150_000), Item(b, 566_666), Item(c, 283_333)];
    AccumulateThree(Item(a, 150_000), Item(b, 566_666), Item(c, 283_333));
  }

  /** For instance, one round of a whole run: a seed keeps what damping leaves, and
      passes on two thirds and one third of the rest. */
  lemma {:induction false} Example(a: Id, b: Id, c: Id)
    requires a != b && a != c && Less(b, c)
    ensures Outcome(Params(850_000, 1, Some(30)), [Seed(a, 1)],
                    [TrustEdge(a, b, 1_000_000, 0, []), TrustEdge(a, c, 1_000_000, 30, [])])
            == Some(map[a := 150_000, b := 566_666, c := 283_333])
  {
    var params, roots := Params(850_000, 1, Some(30)), [Seed(a, 1)];
    var young, old_ := TrustEdge(a, b, 1_000_000, 0, []), TrustEdge(a, c, 1_000_000, 30, []);
    var seed: Weights, t: Outgoing := map[a := 1_000_000], map[a := map[b := 666_666, c := 333_333]];
    ExampleRow(a, b, c, young, old_, params);
    OneSeed(a);
    ExampleFlow(a, b, c);
    BothFit(params, young, old_);
    OneRoundRun(params, roots, [young, old_], seed, t);
    AllRetained(a, b, c);
  }

  lemma {:induction false} BothFit(params: Params, young: TrustEdge, old_: TrustEdge)
    requires params.halfLifeDays == Some(30) && young.weight == old_.weight == 1_000_000
    ensures EdgesFit(params, [young, old_]) && SoundEdges([young, old_])
  {
    SmallDecays(young.weight, young.ageDays, 30);
    SmallDecays(old_.weight, old_.ageDays, 30);
  }

  /** A run of one round. */
  lemma {:induction false} OneRoundRun(
      params: Params, roots: seq<Seed>, edges: seq<TrustEdge>, seed: Weights, t: Outgoing)
    requires params.iterations == 1 && seed == SeedVector(roots) && t == Normalized(Links(params, edges))
    requires SoundRoots(roots) && SoundEdges(edges) && EdgesFit(params, edges)
    ensures Outcome(params, roots, edges) == Some(Retain(Round(seed, t, params.damping, seed)))
  {
    SoundRuns(params, roots, edges);
    OneRoundOnly(seed, t, params.damping);
  }

  lemma {:induction false} OneSeed(a: Id)
    ensures SeedVector([Seed(a, 1)]) == map[a := 1_000_000]
  {
    var roots := [Seed(a, 1)];
    assert RootWeights(roots) == [1];
    TotalOfTwo(1, 0);
    assert SeedItems(roots) == [Item(a, 1_000_000)];
    AccumulateOne(Item(a, 1_000_000));
  }

  lemma {:induction false} AllRetained(a: Id, b: Id, c: Id)
    ensures var m: Weights := map[a := 150_000, b := 566_666, c := 283_333]; Retain(m) == m
  {
  }

  lemma {:induction false} OneRoundOnly(seed: Weights, t: Outgoing, damping: Fixed6)
    ensures Rounds(seed, t, damping, 1) == Round(seed, t, damping, seed)
  {
    assert Rounds(seed, t, damping, 0) == seed;
  }
}
