/** What exact maps and lists hold in all, what truncated ones are short of, and
    taking a part of that. */
module ExactSums {
  import opened Seqs
  import opened Ordering
  import opened Propagate
  import opened PropagateMass
  import opened PropagateExact

  // ------------------------------------------------------------ sums over keys

  ghost function ExactSum(m: Exact, keys: seq<Id>): real
    requires forall k :: k in keys ==> k in m
    decreases |keys|
  {
    if keys == [] then 0.0
    else
      Unsnoc(keys);
      ExactSum(m, Init(keys)) + m[Last(keys)]
  }

  /** All that `m` holds. */
  ghost function ExactMass(m: Exact): real {
    ExactSum(m, Listing(m.Keys))
  }

  lemma {:induction false} ExactSumConcat(m: Exact, a: seq<Id>, b: seq<Id>)
    requires forall k :: k in a + b ==> k in m
    ensures (forall k :: k in a ==> k in m) && (forall k :: k in b ==> k in m)
    ensures ExactSum(m, a + b) == ExactSum(m, a) + ExactSum(m, b)
    decreases |b|
  {
    assert forall k :: k in a ==> k in a + b;
    assert forall k :: k in b ==> k in a + b;
    if b == [] {
      assert a + b == a;
    } else {
      Unsnoc(b);
      ExactSumConcat(m, a, Init(b));
      assert Init(a + b) == a + Init(b);
    }
  }

  lemma {:induction false} ExactSumSame(m: Exact, n: Exact, keys: seq<Id>)
    requires forall k :: k in keys ==> k in m && k in n && m[k] == n[k]
    ensures ExactSum(m, keys) == ExactSum(n, keys)
    decreases |keys|
  {
    if keys != [] {
      Unsnoc(keys);
      ExactSumSame(m, n, Init(keys));
    }
  }

  /** Taking one key out of a listing. */
  lemma {:induction false} ExactWithout(m: Exact, s: set<Id>, k: Id)
    requires s <= m.Keys && k in s
    ensures ExactSum(m, Listing(s)) == ExactSum(m, Listing(s - {k})) + m[k]
  {
    var least := Least(s);
    var rest := s - {least};
    ExactSumConcat(m, [least], Listing(rest));
    assert Init([least]) == [] && ExactSum(m, [least]) == m[least];
    if k != least {
      var fewer := s - {k};
      LeastOfFewer(s, k);
      ExactWithout(m, rest, k);
      assert rest - {k} == fewer - {least};
      ExactSumConcat(m, [least], Listing(fewer - {least}));
    }
  }

  lemma {:induction false} ExactBumpMass(m: Exact, k: Id, amount: real, n: Exact)
    requires n == m[k := ExactGet(m, k) + amount]
    ensures ExactMass(n) == ExactMass(m) + amount
  {
    ExactWithout(n, n.Keys, k);
    OthersSame(m, n, k);
    if k in m {
      assert m.Keys == n.Keys;
      ExactWithout(m, m.Keys, k);
    } else {
      assert n.Keys - {k} == m.Keys;
    }
  }

  lemma {:induction false} OthersSame(m: Exact, n: Exact, k: Id)
    requires n.Keys == m.Keys + {k} && forall j :: j in m && j != k ==> n[j] == m[j]
    ensures ExactSum(n, Listing(n.Keys - {k})) == ExactSum(m, Listing(n.Keys - {k}))
  {
    ExactSumSame(m, n, Listing(n.Keys - {k}));
  }

  ghost function RealSum(items: seq<ExactItem>): real
    decreases |items|
  {
    if items == [] then 0.0 else RealSum(Init(items)) + Last(items).amount
  }

  lemma {:induction false} RealSumConcat(a: seq<ExactItem>, b: seq<ExactItem>)
    ensures RealSum(a + b) == RealSum(a) + RealSum(b)
    decreases |b|
  {
    if b == [] {
      assert a + b == a;
    } else {
      RealSumConcat(a, Init(b));
      assert Init(a + b) == a + Init(b);
    }
  }

  lemma {:induction false} NothingMass()
    ensures ExactMass(map[]) == 0.0
  {
    var none: Exact := map[];
    assert none.Keys == {};
  }

  /** Exact arithmetic neither makes nor loses anything. */
  lemma {:induction false} ExactAccumulateMass(items: seq<ExactItem>)
    ensures ExactMass(ExactAccumulate(items)) == RealSum(items)
    decreases |items|
  {
    if items == [] {
      NothingMass();
    } else {
      ExactAccumulateMass(Init(items));
      var m, item := ExactAccumulate(Init(items)), Last(items);
      ExactBumpMass(m, item.key, item.amount, ExactAccumulate(items));
    }
  }

  // ------------------------------------------------------------------ what is lost

  /** What each key has less of than it should. */
  ghost function Lost(m: Weights, r: Exact): (l: Exact)
    requires m.Keys == r.Keys
    ensures l.Keys == m.Keys
  {
    map k | k in m :: r[k] - m[k] as real
  }

  lemma {:induction false} LostSum(m: Weights, r: Exact, keys: seq<Id>)
    requires m.Keys == r.Keys && forall k :: k in keys ==> k in m
    ensures ExactSum(Lost(m, r), keys) == ExactSum(r, keys) - KeysSum(m, keys, EVERYWHERE) as real
    decreases |keys|
  {
    if keys != [] {
      Unsnoc(keys);
      LostSum(m, r, Init(keys));
    }
  }

  lemma {:induction false} ExactSumNonNegative(m: Exact, keys: seq<Id>)
    requires forall k :: k in keys ==> k in m && m[k] >= 0.0
    ensures ExactSum(m, keys) >= 0.0
    decreases |keys|
  {
    if keys != [] {
      Unsnoc(keys);
      ExactSumNonNegative(m, Init(keys));
    }
  }

  /** No key has lost more than all together. */
  lemma {:induction false} LostAt(m: Weights, r: Exact, k: Id)
    requires Dominated(m, r) && k in m
    ensures 0.0 <= r[k] - m[k] as real <= ExactMass(Lost(m, r))
  {
    var l := Lost(m, r);
    ExactWithout(l, l.Keys, k);
    ExactSumNonNegative(l, Listing(l.Keys - {k}));
  }

  // --------------------------------------------------------------- items, in total

  /** Each exact amount is over its truncated one by at most what `q` allows. */
  ghost predicate OverBy(items: seq<Item>, exact: seq<ExactItem>, keys: seq<Id>, q: Exact) {
    && |items| == |exact| == |keys|
    && (forall k :: k in keys ==> k in q)
    && forall i :: 0 <= i < |keys| ==> keys[i] in q && exact[i].amount <= items[i].amount as real + q[keys[i]]
  }

  lemma {:induction false} OverInTotal(items: seq<Item>, exact: seq<ExactItem>, keys: seq<Id>, q: Exact)
    requires OverBy(items, exact, keys, q)
    ensures RealSum(exact) <= ItemsMass(items, EVERYWHERE) as real + ExactSum(q, keys)
    decreases |keys|
  {
    if keys != [] {
      Unsnoc(keys);
      OverInTotal(Init(items), Init(exact), Init(keys), q);
    }
  }

  // -------------------------------------------------------------------- parts of it

  /** `f` multiplies by `x`; a proof says where it needs that. */
  ghost predicate Multiplies(f: real -> real, x: real) {
    forall z {:trigger MultipliesAt(f, x, z)} :: MultipliesAt(f, x, z)
  }

  ghost predicate MultipliesAt(f: real -> real, x: real, z: real) {
    f(z) == x * z
  }

  lemma {:induction false} Adds(f: real -> real, x: real, a: real, b: real, sum: real)
    requires Multiplies(f, x) && sum == a + b
    ensures f(sum) == f(a) + f(b) && f(0.0) == 0.0
  {
    assert MultipliesAt(f, x, a) && MultipliesAt(f, x, b) && MultipliesAt(f, x, sum) && MultipliesAt(f, x, 0.0);
  }

  lemma {:induction false} Grows(f: real -> real, x: real, a: real, b: real)
    requires Multiplies(f, x) && x >= 0.0 && a <= b
    ensures f(a) <= f(b)
  {
    assert MultipliesAt(f, x, a) && MultipliesAt(f, x, b);
    MulGrows(x, a, b);
  }

  lemma {:induction false} Positive(f: real -> real, x: real, a: real)
    requires Multiplies(f, x) && x >= 0.0 && a >= 0.0
    ensures f(a) >= 0.0
  {
    assert MultipliesAt(f, x, a);
    MulPositive(x, a);
  }

  lemma {:induction false} MulGrows(w: real, a: real, b: real)
    requires w >= 0.0 && a <= b
    ensures w * a <= w * b
  {
  }

  lemma {:induction false} MulPositive(w: real, a: real)
    requires w >= 0.0 && a >= 0.0
    ensures w * a >= 0.0
  {
  }

  ghost function Repeat(each: real, n: nat): real {
    if n == 0 then 0.0 else Repeat(each, n - 1) + each
  }

  lemma {:induction false} RepeatIs(each: real, n: nat)
    ensures Repeat(each, n) == each * n as real
  {
    if n > 0 {
      RepeatIs(each, n - 1);
      RepeatStep(each, (n - 1) as real, n as real);
    }
  }

  lemma {:induction false} RepeatStep(each: real, n: real, more: real)
    requires more == n + 1.0
    ensures each * more == each * n + each
  {
  }

  /** For each key as much as `each`, and a part of what `m` holds. */
  ghost function Allowance(m: Exact, each: real, f: real -> real): (q: Exact)
    ensures q.Keys == m.Keys
  {
    map k | k in m :: each + f(m[k])
  }

  lemma {:induction false} AllowanceSum(m: Exact, each: real, f: real -> real, x: real, keys: seq<Id>)
    requires Multiplies(f, x) && forall k :: k in keys ==> k in m
    ensures ExactSum(Allowance(m, each, f), keys) == Repeat(each, |keys|) + f(ExactSum(m, keys))
    decreases |keys|
  {
    if keys == [] {
      Adds(f, x, 0.0, 0.0, 0.0);
    } else {
      Unsnoc(keys);
      AllowanceSum(m, each, f, x, Init(keys));
      Adds(f, x, ExactSum(m, Init(keys)), m[Last(keys)], ExactSum(m, keys));
    }
  }
}
