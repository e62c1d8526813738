/** The order of the seeds and of the edges: it does not matter, unless a sum of
    weights of both signs leaves the word on the way. */
module PropagateOrder {
  import opened Bits
  import opened Seqs
  import opened Wrappers
  import opened Fixed
  import opened Propagate
  import opened PropagateMass
  import opened PropagateLaws
  import opened PropagateReach

  // ----------------------------------------------------------- sums in any order

  ghost function SumOf<T>(f: T -> int, s: seq<T>): int
    decreases |s|
  {
    if s == [] then 0 else SumOf(f, Init(s)) + f(Last(s))
  }

  lemma {:induction false} SumOfConcat<T>(f: T -> int, a: seq<T>, b: seq<T>)
    ensures SumOf(f, a + b) == SumOf(f, a) + SumOf(f, b)
    decreases |b|
  {
    if b == [] {
      assert a + b == a;
    } else {
      SumOfConcat(f, a, Init(b));
      assert Init(a + b) == a + Init(b);
    }
  }

  lemma {:induction false} SumOfWithout<T>(f: T -> int, l: seq<T>, x: T, r: seq<T>)
    ensures SumOf(f, (l + [x]) + r) == SumOf(f, l + r) + f(x)
  {
    SumOfConcat(f, l + [x], r);
    Snoc(l, x);
    SumOfConcat(f, l, r);
  }

  /** Where the last of `a` is in `b`, and that the rest are the same without it. */
  lemma {:induction false} TakeOut<T>(a: seq<T>, b: seq<T>) returns (l: seq<T>, r: seq<T>)
    requires a != [] && multiset(a) == multiset(b)
    ensures b == (l + [Last(a)]) + r && multiset(Init(a)) == multiset(l + r)
  {
    Unsnoc(a);
    var x := Last(a);
    assert x in multiset(a);
    var j :| 0 <= j < |b| && b[j] == x;
    l, r := b[..j], b[j + 1..];
    assert b == (l + [x]) + r;
    MultisetOfParts(l, x, r);
    MultisetOfParts(Init(a), x, []);
    assert (Init(a) + [x]) + [] == a && Init(a) + [] == Init(a);
  }

  lemma {:induction false} MultisetOfParts<T>(l: seq<T>, x: T, r: seq<T>)
    ensures multiset(l + r) == multiset((l + [x]) + r) - multiset{x}
  {
  }

  lemma {:induction false} SumOfPermuted<T>(f: T -> int, a: seq<T>, b: seq<T>)
    requires multiset(a) == multiset(b)
    ensures SumOf(f, a) == SumOf(f, b)
    decreases |a|
  {
    if a == [] {
      assert |multiset(b)| == |multiset(a)| == 0;
    } else {
      var l, r := TakeOut(a, b);
      SumOfWithout(f, l, Last(a), r);
      SumOfPermuted(f, Init(a), l + r);
    }
  }

  ghost function Size(x: int): nat {
    if x >= 0 then x else -x
  }

  ghost function ItemSize(item: Item): int {
    Size(item.amount)
  }

  ghost function AmountIn(x: iset<Id>): Item -> int {
    (item: Item) => if item.key in x then item.amount else 0
  }

  lemma {:induction false} ItemsMassIsSum(items: seq<Item>, x: iset<Id>)
    ensures ItemsMass(items, x) == SumOf(AmountIn(x), items)
    ensures -SumOf(ItemSize, items) <= ItemsMass(items, x) <= SumOf(ItemSize, items)
    decreases |items|
  {
    if items != [] {
      ItemsMassIsSum(Init(items), x);
    }
  }

  /** Amounts whose sum cannot leave a word, however it is taken: none is negative
      and it stops at the top, or their sizes together fit. */
  ghost predicate SumsAlike(items: seq<Item>) {
    NonNegativeItems(items) || SumOf(ItemSize, items) <= I128_MAX
  }

  /** Amounts whose sizes together fit are added up exactly. */
  lemma {:induction false} AccumulateSmall(items: seq<Item>, k: Id)
    requires SumOf(ItemSize, items) <= I128_MAX
    ensures Get(Accumulate(items), k) == ItemsMass(items, iset{k})
    decreases |items|
  {
    if items != [] {
      ItemsMassIsSum(items, iset{k});
      AccumulateSmall(Init(items), k);
    }
  }

  lemma {:induction false} AccumulateSum(items: seq<Item>, k: Id)
    requires SumsAlike(items)
    ensures Get(Accumulate(items), k) == Saturate(SumOf(AmountIn(iset{k}), items))
  {
    ItemsMassIsSum(items, iset{k});
    if NonNegativeItems(items) {
      AccumulateSaturates(items, k);
    } else {
      AccumulateSmall(items, k);
    }
  }

  /** Items in another order add up to the same map. */
  lemma {:induction false} AccumulatePermuted(a: seq<Item>, b: seq<Item>)
    requires multiset(a) == multiset(b) && SumsAlike(a)
    ensures Accumulate(a) == Accumulate(b)
  {
    SumsAlikePermuted(a, b);
    forall k ensures k in Accumulate(a) <==> k in Accumulate(b) {
      AccumulateKeys(a, k);
      AccumulateKeys(b, k);
      SameItems(a, b, k);
      SameItems(b, a, k);
    }
    forall k ensures Get(Accumulate(a), k) == Get(Accumulate(b), k) {
      AccumulateSum(a, k);
      AccumulateSum(b, k);
      SumOfPermuted(AmountIn(iset{k}), a, b);
    }
    assert forall k :: k in Accumulate(a) ==> Accumulate(a)[k] == Get(Accumulate(a), k);
    assert forall k :: k in Accumulate(b) ==> Accumulate(b)[k] == Get(Accumulate(b), k);
  }

  lemma {:induction false} SumsAlikePermuted(a: seq<Item>, b: seq<Item>)
    requires multiset(a) == multiset(b) && SumsAlike(a)
    ensures SumsAlike(b)
  {
    if NonNegativeItems(a) {
      forall i | 0 <= i < |b| ensures b[i].amount >= 0 {
        assert b[i] in multiset(a);
        assert b[i] in a;
      }
    } else {
      SumOfPermuted(ItemSize, a, b);
    }
  }

  lemma {:induction false} SameItems(a: seq<Item>, b: seq<Item>, k: Id)
    requires multiset(a) == multiset(b)
    ensures (exists j :: 0 <= j < |a| && a[j].key == k) ==> exists j :: 0 <= j < |b| && b[j].key == k
  {
    if j :| 0 <= j < |a| && a[j].key == k {
      assert a[j] in multiset(a);
      assert a[j] in b;
    }
  }

  /** The lists `f` gives for each element, in order. */
  ghost function FlatMap<T>(f: T -> seq<Item>, s: seq<T>): seq<Item>
    decreases |s|
  {
    if s == [] then [] else FlatMap(f, Init(s)) + f(Last(s))
  }

  lemma {:induction false} FlatMapConcat<T>(f: T -> seq<Item>, a: seq<T>, b: seq<T>)
    ensures FlatMap(f, a + b) == FlatMap(f, a) + FlatMap(f, b)
    decreases |b|
  {
    if b == [] {
      assert a + b == a;
    } else {
      FlatMapConcat(f, a, Init(b));
      assert Init(a + b) == a + Init(b);
    }
  }

  lemma {:induction false} FlatMapWithout<T>(f: T -> seq<Item>, l: seq<T>, x: T, r: seq<T>)
    ensures multiset(FlatMap(f, (l + [x]) + r)) == multiset(FlatMap(f, l + r)) + multiset(f(x))
  {
    FlatMapConcat(f, l + [x], r);
    Snoc(l, x);
    FlatMapConcat(f, l, r);
  }

  lemma {:induction false} FlatMapPermuted<T>(f: T -> seq<Item>, a: seq<T>, b: seq<T>)
    requires multiset(a) == multiset(b)
    ensures multiset(FlatMap(f, a)) == multiset(FlatMap(f, b))
    decreases |a|
  {
    if a == [] {
      assert |multiset(b)| == |multiset(a)| == 0;
    } else {
      var l, r := TakeOut(a, b);
      FlatMapWithout(f, l, Last(a), r);
      FlatMapPermuted(f, Init(a), l + r);
    }
  }

  ghost function EdgeItem(params: Params, x: Id): TrustEdge -> seq<Item> {
    (e: TrustEdge) => if e.source == x then [Item(e.target, Decayed(params, e))] else []
  }

  lemma {:induction false} LinkItemsAreEdges(params: Params, edges: seq<TrustEdge>, x: Id)
    ensures LinkItems(Links(params, edges), x) == FlatMap(EdgeItem(params, x), edges)
    decreases |edges|
  {
    if edges != [] {
      LinkItemsAreEdges(params, Init(edges), x);
      Unsnoc(edges);
      LastLink(params, Init(edges), Last(edges), x);
    }
  }

  // ------------------------------------------------------------ rows, any order

  ghost function EdgeSize(e: TrustEdge): int {
    Size(e.weight)
  }

  lemma {:induction false} LinkItemsSmall(params: Params, edges: seq<TrustEdge>, x: Id)
    ensures SumOf(ItemSize, FlatMap(EdgeItem(params, x), edges)) <= SumOf(EdgeSize, edges)
    decreases |edges|
  {
    if edges != [] {
      LinkItemsSmall(params, Init(edges), x);
      var e := Last(edges);
      SumOfConcat(ItemSize, FlatMap(EdgeItem(params, x), Init(edges)), EdgeItem(params, x)(e));
      OneSize(Item(e.target, Decayed(params, e)));
      assert Size(Decayed(params, e)) <= Size(e.weight);
    }
  }

  lemma {:induction false} OneSize(item: Item)
    ensures SumOf(ItemSize, [item]) == Size(item.amount) && SumOf(ItemSize, []) == 0
  {
    assert Init([item]) == [];
  }

  /** Edges whose order cannot matter. */
  ghost predicate EdgesOrderFree(edges: seq<TrustEdge>) {
    SoundEdges(edges) || SumOf(EdgeSize, edges) <= I128_MAX
  }

  lemma {:induction false} LinkItemsAlike(params: Params, edges: seq<TrustEdge>, x: Id)
    requires EdgesOrderFree(edges)
    ensures SumsAlike(LinkItems(Links(params, edges), x))
  {
    if SoundEdges(edges) {
      LinkItemsNonNegative(Links(params, edges), x);
    } else {
      LinkItemsAreEdges(params, edges, x);
      LinkItemsSmall(params, edges, x);
    }
  }

  /** A row does not depend on the order of the edges. */
  lemma {:induction false} RowPermuted(params: Params, a: seq<TrustEdge>, b: seq<TrustEdge>, x: Id)
    requires multiset(a) == multiset(b) && EdgesOrderFree(a)
    ensures SameRow(Grouped(Links(params, a)), Grouped(Links(params, b)), x)
  {
    var l, k := Links(params, a), Links(params, b);
    LinkItemsAreEdges(params, a, x);
    LinkItemsAreEdges(params, b, x);
    FlatMapPermuted(EdgeItem(params, x), a, b);
    LinkItemsAlike(params, a, x);
    AccumulatePermuted(LinkItems(l, x), LinkItems(k, x));
    GroupedAt(l, x);
    GroupedAt(k, x);
    SameEmptiness(LinkItems(l, x), LinkItems(k, x));
  }

  lemma {:induction false} SameEmptiness(a: seq<Item>, b: seq<Item>)
    requires multiset(a) == multiset(b)
    ensures a == [] <==> b == []
  {
    assert |multiset(a)| == |a| && |multiset(b)| == |b|;
  }

  lemma {:induction false} SameRows(t: Outgoing, u: Outgoing)
    requires forall x :: SameRow(t, u, x)
    ensures t == u
  {
    assert forall x :: x in t ==> SameRow(t, u, x);
    assert forall x :: x in u ==> SameRow(t, u, x);
  }

  lemma {:induction false} GroupedPermuted(params: Params, a: seq<TrustEdge>, b: seq<TrustEdge>)
    requires multiset(a) == multiset(b) && EdgesOrderFree(a)
    ensures Grouped(Links(params, a)) == Grouped(Links(params, b))
  {
    var t, u := Grouped(Links(params, a)), Grouped(Links(params, b));
    forall x ensures SameRow(t, u, x) {
      RowPermuted(params, a, b, x);
    }
    SameRows(t, u);
  }

  // ----------------------------------------------------------- seeds, any order

  ghost function RootWeight(r: Seed): int {
    r.weight
  }

  ghost function RootSize(r: Seed): int {
    Size(r.weight)
  }

  /** Seeds whose order cannot matter. */
  ghost predicate RootsOrderFree(roots: seq<Seed>) {
    SoundRoots(roots) || ONE * SumOf(RootSize, roots) <= I128_MAX
  }

  lemma {:induction false} RootSizes(roots: seq<Seed>)
    ensures 0 <= SumOf(RootSize, roots) && -SumOf(RootSize, roots) <= SumOf(RootWeight, roots) <= SumOf(RootSize, roots)
    decreases |roots|
  {
    if roots != [] {
      RootSizes(Init(roots));
    }
  }

  lemma {:induction false} RootWeightsLast(roots: seq<Seed>)
    requires roots != []
    ensures Init(RootWeights(roots)) == RootWeights(Init(roots)) && Last(RootWeights(roots)) == Last(roots).weight
  {
  }

  lemma {:induction false} TotalIsSum(roots: seq<Seed>)
    requires RootsOrderFree(roots)
    ensures Total(RootWeights(roots)) == Saturate(SumOf(RootWeight, roots))
    ensures SoundRoots(roots) ==> SumOf(RootWeight, roots) >= 0
    decreases |roots|
  {
    if roots != [] {
      RootSizes(roots);
      RootSizes(Init(roots));
      RootWeightsLast(roots);
      TotalIsSum(Init(roots));
    }
  }

  lemma {:induction false} ShareItemsAreRoots(roots: seq<Seed>, total: Fixed6)
    ensures FlatMap(RootItem(total), roots)
            == seq(|roots|, i requires 0 <= i < |roots| => Item(roots[i].key, MulDiv(roots[i].weight, ONE, total)))
    decreases |roots|
  {
    if roots != [] {
      ShareItemsAreRoots(Init(roots), total);
    }
  }

  ghost function RootItem(total: Fixed6): Seed -> seq<Item> {
    (r: Seed) => [Item(r.key, MulDiv(r.weight, ONE, total))]
  }

  lemma {:induction false} SeedItemsSmall(roots: seq<Seed>, total: Fixed6)
    ensures SumOf(ItemSize, FlatMap(RootItem(total), roots)) <= ONE * SumOf(RootSize, roots)
    decreases |roots|
  {
    if roots != [] {
      SeedItemsSmall(Init(roots), total);
      var r := Last(roots);
      SumOfConcat(ItemSize, FlatMap(RootItem(total), Init(roots)), RootItem(total)(r));
      OneSize(Item(r.key, MulDiv(r.weight, ONE, total)));
      ShareSize(r.weight, total);
      assert ONE * SumOf(RootSize, roots) == ONE * SumOf(RootSize, Init(roots)) + ONE * Size(r.weight);
    }
  }

  lemma {:induction false} ShareSize(x: Fixed6, total: Fixed6)
    ensures Size(MulDiv(x, ONE, total)) <= ONE * Size(x)
  {
    if total != 0 {
      var product := Saturate(x * ONE);
      TruncDivSize(product, total);
    }
  }

  lemma {:induction false} TruncDivSize(a: int, b: int)
    requires b != 0
    ensures Size(TruncDiv(a, b)) <= Size(a)
  {
    DivShrinks(Size(a), Size(b));
    if b < 0 {
      DivByNegative(Size(a), -b);
    }
  }

  lemma {:induction false} SeedItemsAlike(roots: seq<Seed>)
    requires RootsOrderFree(roots)
    ensures SumsAlike(SeedItems(roots))
  {
    var total := Total(RootWeights(roots));
    if SoundRoots(roots) {
      TotalNonNegative(RootWeights(roots));
      forall i | 0 <= i < |roots| ensures SeedItems(roots)[i].amount >= 0 {
        ShareNonNegative(roots[i].weight, total);
      }
    } else {
      ShareItemsAreRoots(roots, total);
      SeedItemsSmall(roots, total);
    }
  }

  lemma {:induction false} RootsOrderFreePermuted(a: seq<Seed>, b: seq<Seed>)
    requires multiset(a) == multiset(b) && RootsOrderFree(a)
    ensures RootsOrderFree(b)
  {
    SumOfPermuted(RootSize, a, b);
    if SoundRoots(a) {
      forall i | 0 <= i < |b| ensures b[i].weight >= 0 {
        assert b[i] in multiset(a);
        assert b[i] in a;
      }
    }
  }

  /** The seed vector does not depend on the order of the roots. */
  lemma {:induction false} SeedPermuted(a: seq<Seed>, b: seq<Seed>)
    requires multiset(a) == multiset(b) && RootsOrderFree(a)
    ensures Total(RootWeights(a)) == Total(RootWeights(b)) && SeedVector(a) == SeedVector(b)
  {
    RootsOrderFreePermuted(a, b);
    TotalIsSum(a);
    TotalIsSum(b);
    SumOfPermuted(RootWeight, a, b);
    var total := Total(RootWeights(a));
    ShareItemsAreRoots(a, total);
    ShareItemsAreRoots(b, total);
    FlatMapPermuted(RootItem(total), a, b);
    SeedItemsAlike(a);
    AccumulatePermuted(SeedItems(a), SeedItems(b));
  }

  // ------------------------------------------------------------------ whole runs

  /** What holds of each element holds of each in another order. */
  lemma {:induction false} AllPermuted<T(!new)>(p: T -> bool, a: seq<T>, b: seq<T>)
    requires multiset(a) == multiset(b)
    ensures (forall i :: 0 <= i < |a| ==> p(a[i])) <==> forall i :: 0 <= i < |b| ==> p(b[i])
  {
    assert forall x :: x in a <==> x in multiset(a);
    assert forall x :: x in b <==> x in multiset(b);
    assert (forall i :: 0 <= i < |a| ==> p(a[i])) <==> forall x :: x in a ==> p(x);
    assert (forall i :: 0 <= i < |b| ==> p(b[i])) <==> forall x :: x in b ==> p(x);
  }

  /** The order of the seeds and of the edges does not matter, and not even whether
      there is an answer depends on it. */
  lemma {:induction false} OrderIrrelevant(
      params: Params, r1: seq<Seed>, r2: seq<Seed>, e1: seq<TrustEdge>, e2: seq<TrustEdge>)
    requires multiset(r1) == multiset(r2) && multiset(e1) == multiset(e2)
    requires RootsOrderFree(r1) && EdgesOrderFree(e1)
    ensures Outcome(params, r1, e1) == Outcome(params, r2, e2)
  {
    SeedPermuted(r1, r2);
    GroupedPermuted(params, e1, e2);
    AllPermuted((r: Seed) => !QuotientOverflows(r.weight, ONE, Total(RootWeights(r1))), r1, r2);
    AllPermuted((e: TrustEdge) => EdgeFits(params, e), e1, e2);
    assert SeedsFit(r1) <==> SeedsFit(r2);
    assert EdgesFit(params, e1) <==> EdgesFit(params, e2);
    assert RowsFit(Links(params, e1)) <==> RowsFit(Links(params, e2));
  }

  /** Otherwise it may: the largest weight twice and its negative once add up to
      nothing in one order, and to the largest weight in another. */
  lemma {:induction false} OrderMatters(x: Id, y: Id, z: Id)
      returns (params: Params, r1: seq<Seed>, r2: seq<Seed>)
    requires x != y && y != z && x != z
    ensures multiset(r1) == multiset(r2)
    ensures Outcome(params, r1, []) == Some(map[]) && Outcome(params, r2, []) == Some(map[x := 1, y := 1, z := -1])
  {
    params := Params(0, 0, None);
    var most: Fixed6, least: Fixed6 := I128_MAX, -I128_MAX;
    var a, b, c := Seed(x, most), Seed(y, most), Seed(z, least);
    r1, r2 := [a, b, c], [a, c, b];
    LargestShares(most, least);
    LargestSums(most, least);
    SeedsOfThree(params, a, b, c, 0, 0, 0, 0);
    SeedsOfThree(params, a, c, b, most, 1, -1, 1);
    RetainedSeeds(x, y, z);
    LastSwapped(a, b, c);
  }

  lemma {:induction false} RetainedSeeds(x: Id, y: Id, z: Id)
    requires x != y && y != z && x != z
    ensures Retain(map[x := 0, y := 0, z := 0]) == map[]
    ensures Retain(map[x := 1, z := -1, y := 1]) == map[x := 1, y := 1, z := -1]
  {
  }

  lemma {:induction false} LastSwapped<T>(a: T, b: T, c: T)
    ensures multiset([a, b, c]) == multiset([a, c, b])
  {
  }

  lemma {:induction false} LargestShares(most: Fixed6, least: Fixed6)
    requires most == I128_MAX && least == -I128_MAX
    ensures MulDiv(most, ONE, most) == 1 && MulDiv(least, ONE, most) == -1
  {
    OverItself(most);
    assert Saturate(most * ONE) == most && Saturate(least * ONE) == I128_MIN == -most - 1;
  }

  lemma {:induction false} LargestSums(most: Fixed6, least: Fixed6)
    requires most == I128_MAX && least == -most
    ensures Add(Add(Add(0, most), most), least) == 0 && Add(Add(Add(0, most), least), most) == most
  {
  }

  lemma {:induction false} OverItself(m: int)
    requires m > 1
    ensures TruncDiv(m, m) == 1 && TruncDiv(-m - 1, m) == -1
  {
    QuotientIs(m, m, 1, 0);
    QuotientIs(m + 1, m, 1, 1);
  }

  /** A run of no rounds over three seeds. */
  lemma {:induction false} SeedsOfThree(
      params: Params, a: Seed, b: Seed, c: Seed, total: Fixed6, p: Fixed6, q: Fixed6, r: Fixed6)
    requires params.iterations == 0 && a.key != b.key && b.key != c.key && a.key != c.key
    requires total == Add(Add(Add(0, a.weight), b.weight), c.weight) >= 0
    requires p == MulDiv(a.weight, ONE, total) && q == MulDiv(b.weight, ONE, total) && r == MulDiv(c.weight, ONE, total)
    ensures Outcome(params, [a, b, c], []) == Some(Retain(map[a.key := p, b.key := q, c.key := r]))
  {
    var roots := [a, b, c];
    TotalOfThree(a.weight, b.weight, c.weight);
    assert RootWeights(roots) == [a.weight, b.weight, c.weight];
    var x, y, z := Item(a.key, p), Item(b.key, q), Item(c.key, r);
    assert SeedItems(roots) == [x, y, z];
    AccumulateThree(x, y, z);
    assert Links(params, []) == [];
  }

  lemma {:induction false} TotalOfThree(a: Fixed6, b: Fixed6, c: Fixed6)
    ensures Total([a, b, c]) == Add(Add(Add(0, a), b), c)
  {
    assert Init([a, b, c]) == [a, b] && Init([a, b]) == [a] && Init([a]) == [];
    assert Total([a]) == Add(Total([]), a) == Add(0, a);
    assert Total([a, b]) == Add(Total([a]), b);
    assert Total([a, b, c]) == Add(Total([a, b]), c);
  }

  lemma {:induction false} AccumulateThree(a: Item, b: Item, c: Item)
    requires a.key != b.key && b.key != c.key && a.key != c.key
    ensures Accumulate([a, b, c]) == map[a.key := a.amount, b.key := b.amount, c.key := c.amount]
  {
    assert Init([a, b, c]) == [a, b] && Init([a, b]) == [a] && Init([a]) == [];
    assert Accumulate([]) == map[];
    assert Accumulate([a]) == Bump(map[], a) == map[a.key := a.amount];
    assert Accumulate([a, b]) == Bump(Accumulate([a]), b) == map[a.key := a.amount, b.key := b.amount];
    assert Accumulate([a, b, c]) == Bump(Accumulate([a, b]), c);
  }
}
