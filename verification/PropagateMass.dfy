/** How much weight a map or a list of amounts holds in a set of nodes, and that
    adding up key by key keeps it until a word is full. */
module PropagateMass {
  import opened Seqs
  import opened Ordering
  import opened Fixed
  import opened Propagate

  // ------------------------------------------------------------ sums over keys

  /** What `m` holds at those of `keys` that lie in `x`. */
  ghost function KeysSum(m: Weights, keys: seq<Id>, x: iset<Id>): int
    requires forall k :: k in keys ==> k in m
    decreases |keys|
  {
    if keys == [] then 0
    else
      Unsnoc(keys);
      KeysSum(m, Init(keys), x) + if Last(keys) in x then m[Last(keys)] else 0
  }

  /** What `m` holds in `x`. */
  ghost function Mass(m: Weights, x: iset<Id>): int {
    KeysSum(m, Listing(m.Keys), x)
  }

  ghost const EVERYWHERE: iset<Id> := iset x: Id | true

  lemma {:induction false} KeysSumConcat(m: Weights, a: seq<Id>, b: seq<Id>, x: iset<Id>)
    requires forall k :: k in a + b ==> k in m
    ensures (forall k :: k in a ==> k in m) && (forall k :: k in b ==> k in m)
    ensures KeysSum(m, a + b, x) == KeysSum(m, a, x) + KeysSum(m, b, x)
    decreases |b|
  {
    assert forall k :: k in a ==> k in a + b;
    assert forall k :: k in b ==> k in a + b;
    if b == [] {
      assert a + b == a;
    } else {
      Unsnoc(b);
      KeysSumConcat(m, a, Init(b), x);
      assert Init(a + b) == a + Init(b);
    }
  }

  lemma {:induction false} KeysSumSame(m: Weights, n: Weights, keys: seq<Id>, x: iset<Id>)
    requires forall k :: k in keys ==> k in m && k in n && m[k] == n[k]
    ensures KeysSum(m, keys, x) == KeysSum(n, keys, x)
    decreases |keys|
  {
    if keys != [] {
      Unsnoc(keys);
      KeysSumSame(m, n, Init(keys), x);
    }
  }

  /** Taking one key out of a listing. */
  lemma {:induction false} ListingWithout(m: Weights, s: set<Id>, k: Id, x: iset<Id>)
    requires s <= m.Keys && k in s
    ensures KeysSum(m, Listing(s), x) == KeysSum(m, Listing(s - {k}), x) + if k in x then m[k] else 0
  {
    var least := Least(s);
    var rest := s - {least};
    KeysSumConcat(m, [least], Listing(rest), x);
    assert KeysSum(m, [least], x) == if least in x then m[least] else 0;
    if k != least {
      var fewer := s - {k};
      LeastOfFewer(s, k);
      ListingWithout(m, rest, k, x);
      assert rest - {k} == fewer - {least};
      KeysSumConcat(m, [least], Listing(fewer - {least}), x);
    }
  }

  lemma {:induction false} LeastOfFewer(s: set<Id>, k: Id)
    requires k in s && k != Least(s)
    ensures s - {k} != {} && Least(s - {k}) == Least(s)
  {
    assert Least(s) in s - {k};
    if Least(s - {k}) != Least(s) {
      LessAsymmetric(Least(s), Least(s - {k}));
    }
  }

  /** Adding to one key adds to the mass of the sets it is in. */
  lemma {:induction false} BumpMass(m: Weights, item: Item, x: iset<Id>)
    requires I128_MIN <= Get(m, item.key) + item.amount <= I128_MAX
    ensures Mass(Bump(m, item), x) == Mass(m, x) + if item.key in x then item.amount else 0
  {
    var k, n := item.key, Bump(m, item);
    var others := n.Keys - {k};
    ListingWithout(n, n.Keys, k, x);
    KeysSumSame(m, n, Listing(others), x);
    if k in m {
      assert m.Keys == n.Keys;
      ListingWithout(m, m.Keys, k, x);
    } else {
      assert others == m.Keys;
    }
  }

  // -------------------------------------------------------------- sums of items

  ghost function ItemsMass(items: seq<Item>, x: iset<Id>): int
    decreases |items|
  {
    if items == [] then 0
    else ItemsMass(Init(items), x) + if Last(items).key in x then Last(items).amount else 0
  }

  lemma {:induction false} ItemsMassConcat(a: seq<Item>, b: seq<Item>, x: iset<Id>)
    ensures ItemsMass(a + b, x) == ItemsMass(a, x) + ItemsMass(b, x)
    decreases |b|
  {
    if b == [] {
      assert a + b == a;
    } else {
      ItemsMassConcat(a, Init(b), x);
      assert Init(a + b) == a + Init(b);
    }
  }

  lemma {:induction false} ItemsMassMono(items: seq<Item>, x: iset<Id>, y: iset<Id>)
    requires NonNegativeItems(items) && x <= y
    ensures 0 <= ItemsMass(items, x) <= ItemsMass(items, y)
    decreases |items|
  {
    if items != [] {
      ItemsMassMono(Init(items), x, y);
    }
  }

  /** Adding amounts that are not negative saturates once and for all, so each key
      ends with the nearest word to its exact sum. */
  lemma {:induction false} AccumulateSaturates(items: seq<Item>, k: Id)
    requires NonNegativeItems(items)
    ensures Get(Accumulate(items), k) == Saturate(ItemsMass(items, iset{k}))
    decreases |items|
  {
    if items != [] {
      var item := Last(items);
      ItemsMassMono(Init(items), iset{k}, EVERYWHERE);
      AccumulateSaturates(Init(items), k);
    }
  }

  /** Items that fit in a word in total are added up exactly, key by key. */
  lemma {:induction false} AccumulateExact(items: seq<Item>, k: Id)
    requires NonNegativeItems(items) && ItemsMass(items, EVERYWHERE) <= I128_MAX
    ensures Get(Accumulate(items), k) == ItemsMass(items, iset{k})
  {
    AccumulateSaturates(items, k);
    ItemsMassMono(items, iset{k}, EVERYWHERE);
  }

  lemma {:induction false} AccumulateMass(items: seq<Item>, x: iset<Id>)
    requires NonNegativeItems(items) && ItemsMass(items, EVERYWHERE) <= I128_MAX
    ensures Mass(Accumulate(items), x) == ItemsMass(items, x)
    decreases |items|
  {
    if items == [] {
      assert Listing(Accumulate([]).Keys) == [];
    } else {
      var item := Last(items);
      ItemsMassMono(Init(items), EVERYWHERE, EVERYWHERE);
      ItemsMassMono(Init(items), iset{item.key}, EVERYWHERE);
      AccumulateMass(Init(items), x);
      AccumulateExact(Init(items), item.key);
      BumpMass(Accumulate(Init(items)), item, x);
    }
  }

  // ------------------------------------------------------------ bounded weights

  /** Not negative, and one at most in total. */
  ghost predicate Bounded(m: Weights) {
    NonNegative(m) && Mass(m, EVERYWHERE) <= ONE
  }

  lemma {:induction false} KeysSumMono(m: Weights, keys: seq<Id>, x: iset<Id>, y: iset<Id>)
    requires NonNegative(m) && x <= y && forall k :: k in keys ==> k in m
    ensures 0 <= KeysSum(m, keys, x) <= KeysSum(m, keys, y)
    decreases |keys|
  {
    if keys != [] {
      Unsnoc(keys);
      KeysSumMono(m, Init(keys), x, y);
    }
  }

  lemma {:induction false} BoundedAt(m: Weights, k: Id)
    requires Bounded(m) && k in m
    ensures 0 <= m[k] <= ONE
  {
    ListingWithout(m, m.Keys, k, EVERYWHERE);
    KeysSumMono(m, Listing(m.Keys - {k}), EVERYWHERE, EVERYWHERE);
  }

  /** Two sets apart hold what they hold together. */
  lemma {:induction false} MassOfParts(m: Weights, keys: seq<Id>, x: iset<Id>, y: iset<Id>)
    requires x !! y && forall k :: k in keys ==> k in m
    ensures KeysSum(m, keys, x + y) == KeysSum(m, keys, x) + KeysSum(m, keys, y)
    decreases |keys|
  {
    if keys != [] {
      Unsnoc(keys);
      MassOfParts(m, Init(keys), x, y);
    }
  }
}
