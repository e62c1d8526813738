/** How much weight rounding loses in a round, and over all of them. */
module PropagateLoss {
  import opened Seqs
  import opened Ordering
  import opened Fixed
  import opened Propagate
  import opened PropagateMass
  import opened PropagateLaws
  import opened PropagateExact
  import opened ExactSums

  // --------------------------------------------------------------------- one term

  lemma {:induction false} QuotientAbove(p: real, n: real)
    requires p <= UNIT * n
    ensures p / UNIT <= n
  {
  }

  lemma {:induction false} Unscaled(p: real)
    ensures UNIT * (p / UNIT) == p
  {
  }

  /** A truncated product is over by less than one. */
  lemma {:induction false} TimesLoses(x: Fixed6, y: Fixed6)
    requires 0 <= x <= ONE && 0 <= y <= ONE
    ensures 0 <= Times(x, y) <= ONE
    ensures x as real * y as real <= UNIT * (Times(x, y) as real + 1.0)
  {
    ProductBound(x, y);
    TimesRoundsDown(x, y);
    UnitBound(x, y, Times(x, y));
    ProductAsReal(x, y);
    var n := Times(x, y);
    assert (SCALE * n + SCALE) as real == UNIT * (n as real + 1.0);
  }

  /** `s` in place of `w` adds a part of what `w` is short of. */
  lemma {:induction false} ShortBy(s: real, w: real, d: real, x: real, n: real, lost: real, part: real)
    requires d == UNIT * x && lost == s - w && part == x * lost && w * d <= UNIT * n
    ensures ExactTimes(s, d) <= n + part
  {
    assert s * d == w * d + UNIT * part by {
      assert lost * d == UNIT * (x * lost);
      assert s * d == w * d + lost * d;
    }
    QuotientAbove(s * d, n + part);
  }

  ghost predicate SeedOver(w: Fixed6, s: real, factor: Fixed6, e: real) {
    ExactTimes(s, factor as real) <= Times(w, factor) as real + e
  }

  lemma {:induction false} SeedTermLoses(w: Fixed6, s: real, factor: Fixed6, f: real -> real, x: real, lost: real)
    requires 0 <= w <= ONE && 0 <= factor <= ONE && factor as real == UNIT * x
    requires Multiplies(f, x) && lost == s - w as real
    ensures SeedOver(w, s, factor, 1.0 + f(lost))
  {
    assert MultipliesAt(f, x, lost);
    TimesLoses(w, factor);
    ShortBy(s, w as real, factor as real, x, Times(w, factor) as real + 1.0, lost, f(lost));
  }

  /** What reached a node, passed on by an exact share: over by two. */
  lemma {:induction false} ShareOver(w: real, part: real, p: real, u: real, most: real, v: real)
    requires 0.0 <= w <= UNIT && p <= most == part + 1.0 && UNIT * v == w * p && w * part <= UNIT * (u + 1.0)
    ensures v <= u + 2.0
  {
    MulGrows(w, p, most);
    assert w * most == w * part + w by {
      assert w * (part + 1.0) == w * part + w;
    }
    assert UNIT * v <= UNIT * (u + 1.0) + w;
    assert UNIT * v <= UNIT * (u + 2.0);
  }

  /** And damped, by three. */
  lemma {:induction false} DampedOver(v: real, u: real, d: real, x: real, n: real, most: real)
    requires 0.0 <= x <= 1.0 && d == UNIT * x && v <= most == u + 2.0 && u * d <= UNIT * (n + 1.0)
    ensures x * v <= n + 3.0
  {
    assert u * d == UNIT * (x * u) by {
      assert u * (UNIT * x) == UNIT * (x * u);
    }
    Cancels(x * u, n + 1.0);
    MulGrows(x, v, most);
    TwiceMore(x, u, most);
    assert x * most <= n + 3.0;
  }

  lemma {:induction false} Cancels(a: real, b: real)
    requires UNIT * a <= UNIT * b
    ensures a <= b
  {
  }

  lemma {:induction false} TwiceMore(x: real, u: real, most: real)
    requires most == u + 2.0
    ensures x * most == x * u + 2.0 * x
  {
  }

  /** What one exact item is, of what reached its node and of what did not. */
  lemma {:induction false} ItemParts(
      s: real, w: real, p: real, d: real, x: real, v: real, c: real, lost: real, part: real)
    requires d == UNIT * x && UNIT * v == w * p && lost == s - w && UNIT * c == x * lost && part == c * p
    ensures ExactTimes(ExactTimes(s, p), d) == x * v + part
  {
    var y := ExactTimes(s, p);
    Unscaled(s * p);
    assert s * p == w * p + lost * p;
    assert UNIT * y == UNIT * v + lost * p;
    assert x * (lost * p) == UNIT * part by {
      assert x * (lost * p) == (x * lost) * p;
      assert (UNIT * c) * p == UNIT * (c * p);
    }
    assert x * (UNIT * y) == x * (UNIT * v) + x * (lost * p);
    assert UNIT * (x * y) == UNIT * (x * v) + UNIT * part;
    assert y * d == UNIT * (x * y);
    Unscaled(y * d);
  }

  ghost predicate TermOver(w: Fixed6, s: real, part: Fixed6, p: real, damping: Fixed6, e: real) {
    ExactTimes(ExactTimes(s, p), damping as real) <= Times(Times(w, part), damping) as real + e
  }

  /** Two truncated products and a truncated share lose less than three between
      them. */
  lemma {:induction false} FlowTermLoses(
      w: Fixed6, s: real, part: Fixed6, p: real, damping: Fixed6, x: real, g: real -> real, c: real, lost: real)
    requires 0 <= w <= ONE && 0 <= part <= ONE && 0 <= damping <= ONE && damping as real == UNIT * x
    requires p <= part as real + 1.0 && lost == s - w as real && UNIT * c == x * lost && Multiplies(g, c)
    ensures TermOver(w, s, part, p, damping, 3.0 + g(p))
  {
    assert MultipliesAt(g, c, p);
    var v := w as real * p / UNIT;
    Unscaled(w as real * p);
    var u := Times(w, part);
    TimesLoses(w, part);
    TimesLoses(u, damping);
    ShareOver(w as real, part as real, p, u as real, part as real + 1.0, v);
    DampedOver(v, u as real, damping as real, x, Times(u, damping) as real, u as real + 2.0);
    ItemParts(s, w as real, p, damping as real, x, v, c, lost, g(p));
  }

  // ------------------------------------------------------------------- one node

  /** Exact shares, each less than one over the truncated one, and of one in all. */
  ghost predicate NearShares(m: Weights, r: Exact) {
    Bounded(m) && Dominated(m, r) && ExactMass(r) <= UNIT && forall k :: k in m ==> r[k] <= m[k] as real + 1.0
  }

  lemma {:induction false} TermOverAt(
      w: Fixed6, s: real, targets: Weights, r: Exact, damping: Fixed6, x: real,
      g: real -> real, c: real, lost: real, k: Id)
    requires 0 <= w <= ONE && NearShares(targets, r) && 0 <= damping <= ONE && damping as real == UNIT * x
    requires lost == s - w as real && UNIT * c == x * lost && Multiplies(g, c) && k in targets
    ensures TermOver(w, s, targets[k], r[k], damping, Allowance(r, 3.0, g)[k])
  {
    BoundedAt(targets, k);
    FlowTermLoses(w, s, targets[k], r[k], damping, x, g, c, lost);
  }

  lemma {:induction false} FlowFromOver(w: Fixed6, s: real, targets: Weights, r: Exact, damping: Fixed6, q: Exact)
    requires targets.Keys == r.Keys == q.Keys
    requires forall k :: k in targets ==> TermOver(w, s, targets[k], r[k], damping, q[k])
    ensures OverBy(FlowFrom(w, targets, damping), ExactFlowFrom(s, r, damping as real), Listing(targets.Keys), q)
  {
    var keys, items := Listing(targets.Keys), FlowFrom(w, targets, damping);
    var exact := ExactFlowFrom(s, r, damping as real);
    forall i | 0 <= i < |keys| ensures keys[i] in q && exact[i].amount <= items[i].amount as real + q[keys[i]] {
      assert keys[i] in keys;
      assert TermOver(w, s, targets[keys[i]], r[keys[i]], damping, q[keys[i]]);
    }
  }

  /** A part of what adds up to one is no more than the whole. */
  lemma {:induction false} AllowanceWithin(r: Exact, g: real -> real, c: real, e: real)
    requires UNIT * c == e >= 0.0 && Multiplies(g, c) && ExactMass(r) <= UNIT
    ensures ExactSum(Allowance(r, 3.0, g), Listing(r.Keys)) <= 3.0 * |r.Keys| as real + e
  {
    AllowanceSum(r, 3.0, g, c, Listing(r.Keys));
    ListingSize(r.Keys);
    RepeatIs(3.0, |r.Keys|);
    Grows(g, c, ExactMass(r), UNIT);
    assert MultipliesAt(g, c, UNIT);
  }

  lemma {:induction false} ListingSize(s: set<Id>)
    ensures |Listing(s)| == |s|
  {
    if s != {} {
      ListingSize(s - {Least(s)});
    }
  }

  /** What a node passes on is over by three for each target, and by the damped
      part of what had not reached it. */
  ghost predicate NodeOver(w: Fixed6, s: real, targets: Weights, r: Exact, damping: Fixed6, e: real) {
    RealSum(ExactFlowFrom(s, r, damping as real))
    <= ItemsMass(FlowFrom(w, targets, damping), EVERYWHERE) as real + 3.0 * |targets.Keys| as real + e
  }

  lemma {:induction false} NodeAdds(w: Fixed6, s: real, targets: Weights, r: Exact, damping: Fixed6, q: Exact, e: real)
    requires targets.Keys == r.Keys == q.Keys
    requires forall k :: k in targets ==> TermOver(w, s, targets[k], r[k], damping, q[k])
    requires ExactSum(q, Listing(targets.Keys)) <= 3.0 * |targets.Keys| as real + e
    ensures NodeOver(w, s, targets, r, damping, e)
  {
    FlowFromOver(w, s, targets, r, damping, q);
    OverInTotal(FlowFrom(w, targets, damping), ExactFlowFrom(s, r, damping as real), Listing(targets.Keys), q);
  }

  lemma {:induction false} NodeLosesBy(
      w: Fixed6, s: real, targets: Weights, r: Exact, damping: Fixed6, x: real, lost: real, e: real,
      g: real -> real, c: real)
    requires 0 <= w <= ONE && NearShares(targets, r) && 0 <= damping <= ONE && damping as real == UNIT * x
    requires lost == s - w as real && e == x * lost == UNIT * c && e >= 0.0 && Multiplies(g, c)
    ensures NodeOver(w, s, targets, r, damping, e)
  {
    var q := Allowance(r, 3.0, g);
    forall k | k in targets ensures TermOver(w, s, targets[k], r[k], damping, q[k]) {
      TermOverAt(w, s, targets, r, damping, x, g, c, lost, k);
    }
    AllowanceWithin(r, g, c, e);
    NodeAdds(w, s, targets, r, damping, q, e);
  }

  lemma {:induction false} Multiplying(c: real) returns (g: real -> real)
    ensures Multiplies(g, c)
  {
    g := z => c * z;
  }

  lemma {:induction false} NodeLoses(
      w: Fixed6, s: real, targets: Weights, r: Exact, damping: Fixed6, f: real -> real, x: real, lost: real)
    requires 0 <= w <= ONE && NearShares(targets, r) && 0 <= damping <= ONE && damping as real == UNIT * x
    requires lost == s - w as real >= 0.0 && Multiplies(f, x)
    ensures NodeOver(w, s, targets, r, damping, f(lost))
  {
    var e := f(lost);
    var c := e / UNIT;
    Unscaled(e);
    assert MultipliesAt(f, x, lost);
    Positive(f, x, lost);
    var g := Multiplying(c);
    NodeLosesBy(w, s, targets, r, damping, x, lost, e, g, c);
  }

  // -------------------------------------------------------------------- one round

  /** Targets of the nodes in `keys`. */
  ghost function Targets(t: Outgoing, keys: seq<Id>): nat
    decreases |keys|
  {
    if keys == [] then 0 else Targets(t, Init(keys)) + if Last(keys) in t then |t[Last(keys)].Keys| else 0
  }

  ghost predicate NearRows(t: Outgoing, u: ExactOutgoing) {
    t.Keys == u.Keys && forall x :: x in t ==> NearShares(t[x], u[x])
  }

  /** What each node passes on is over by what `q` allows besides three for each of
      its targets. */
  ghost predicate NodesOver(w: Weights, r: Exact, t: Outgoing, u: ExactOutgoing, damping: Fixed6, q: Exact) {
    && w.Keys == r.Keys == q.Keys && t.Keys == u.Keys
    && forall x :: x in w ==> q[x] >= 0.0 && (x in t ==> NodeOver(w[x], r[x], t[x], u[x], damping, q[x]))
  }

  lemma {:induction false} FlowAdds(
      w: Weights, r: Exact, t: Outgoing, u: ExactOutgoing, damping: Fixed6, q: Exact, keys: seq<Id>)
    requires NodesOver(w, r, t, u, damping, q) && forall k :: k in keys ==> k in w && k in r && k in q
    ensures RealSum(ExactFlow(r, u, damping as real, keys))
            <= ItemsMass(Flow(w, t, damping, keys), EVERYWHERE) as real + 3.0 * Targets(t, keys) as real
               + ExactSum(q, keys)
    decreases |keys|
  {
    if keys != [] {
      Unsnoc(keys);
      var x, d := Last(keys), damping as real;
      FlowAdds(w, r, t, u, damping, q, Init(keys));
      if x in t {
        ItemsMassConcat(Flow(w, t, damping, Init(keys)), FlowFrom(w[x], t[x], damping), EVERYWHERE);
        RealSumConcat(ExactFlow(r, u, d, Init(keys)), ExactFlowFrom(r[x], u[x], d));
        assert NodeOver(w[x], r[x], t[x], u[x], damping, q[x]);
      } else {
        assert Flow(w, t, damping, Init(keys)) + [] == Flow(w, t, damping, Init(keys));
        assert ExactFlow(r, u, d, Init(keys)) + [] == ExactFlow(r, u, d, Init(keys));
      }
    }
  }

  lemma {:induction false} NodeLosesAt(
      w: Weights, r: Exact, t: Outgoing, u: ExactOutgoing, damping: Fixed6, f: real -> real, x: real, k: Id)
    requires Bounded(w) && Dominated(w, r) && NearRows(t, u) && 0 <= damping <= ONE && damping as real == UNIT * x
    requires Multiplies(f, x) && k in w
    ensures var q := f(Lost(w, r)[k]);
            q >= 0.0 && (k in t ==> NodeOver(w[k], r[k], t[k], u[k], damping, q))
  {
    BoundedAt(w, k);
    assert Below(w[k], r[k]);
    var lost := r[k] - w[k] as real;
    Positive(f, x, lost);
    if k in t {
      NodeLoses(w[k], r[k], t[k], u[k], damping, f, x, lost);
    }
  }

  /** The damped part of each loss is allowed. */
  lemma {:induction false} NodesLose(
      w: Weights, r: Exact, t: Outgoing, u: ExactOutgoing, damping: Fixed6, f: real -> real, x: real)
    requires Bounded(w) && Dominated(w, r) && NearRows(t, u) && 0 <= damping <= ONE && damping as real == UNIT * x
    requires Multiplies(f, x)
    ensures NodesOver(w, r, t, u, damping, Allowance(Lost(w, r), 0.0, f))
  {
    var q := Allowance(Lost(w, r), 0.0, f);
    forall k | k in w ensures q[k] >= 0.0 && (k in t ==> NodeOver(w[k], r[k], t[k], u[k], damping, q[k])) {
      NodeLosesAt(w, r, t, u, damping, f, x, k);
      assert q[k] == f(Lost(w, r)[k]);
    }
  }

  lemma {:induction false} FlowLoses(
      w: Weights, r: Exact, t: Outgoing, u: ExactOutgoing, damping: Fixed6, f: real -> real, x: real, keys: seq<Id>)
    requires Bounded(w) && Dominated(w, r) && NearRows(t, u) && 0 <= damping <= ONE && damping as real == UNIT * x
    requires Multiplies(f, x) && keys == Listing(w.Keys)
    ensures RealSum(ExactFlow(r, u, damping as real, keys))
            <= ItemsMass(Flow(w, t, damping, keys), EVERYWHERE) as real
               + (3.0 * Targets(t, keys) as real + f(ExactMass(Lost(w, r))))
  {
    var q := Allowance(Lost(w, r), 0.0, f);
    NodesLose(w, r, t, u, damping, f, x);
    FlowAdds(w, r, t, u, damping, q, keys);
    PassedSum(Lost(w, r), f, x, keys);
  }

  lemma {:induction false} PassedSum(lost: Exact, f: real -> real, x: real, keys: seq<Id>)
    requires Multiplies(f, x) && keys == Listing(lost.Keys)
    ensures ExactSum(Allowance(lost, 0.0, f), keys) == f(ExactMass(lost))
  {
    AllowanceSum(lost, 0.0, f, x, keys);
    RepeatIs(0.0, |keys|);
  }

  lemma {:induction false} ScaledOver(m: Weights, r: Exact, factor: Fixed6, q: Exact)
    requires m.Keys == r.Keys == q.Keys && forall k :: k in m ==> SeedOver(m[k], r[k], factor, q[k])
    ensures OverBy(Scaled(m, factor), ExactScaled(r, factor as real), Listing(m.Keys), q)
  {
    var keys, items, exact := Listing(m.Keys), Scaled(m, factor), ExactScaled(r, factor as real);
    forall i | 0 <= i < |keys| ensures keys[i] in q && exact[i].amount <= items[i].amount as real + q[keys[i]] {
      assert keys[i] in keys;
      assert SeedOver(m[keys[i]], r[keys[i]], factor, q[keys[i]]);
    }
  }

  lemma {:induction false} ScaledLoses(m: Weights, r: Exact, factor: Fixed6, f: real -> real, x: real)
    requires Bounded(m) && Dominated(m, r) && 0 <= factor <= ONE && factor as real == UNIT * x && Multiplies(f, x)
    ensures RealSum(ExactScaled(r, factor as real))
            <= ItemsMass(Scaled(m, factor), EVERYWHERE) as real + (|m.Keys| as real + f(ExactMass(Lost(m, r))))
  {
    var keys, q := Listing(m.Keys), Allowance(Lost(m, r), 1.0, f);
    forall k | k in m ensures SeedOver(m[k], r[k], factor, q[k]) {
      BoundedAt(m, k);
      SeedTermLoses(m[k], r[k], factor, f, x, r[k] - m[k] as real);
    }
    ScaledOver(m, r, factor, q);
    OverInTotal(Scaled(m, factor), ExactScaled(r, factor as real), keys, q);
    AllowanceSum(Lost(m, r), 1.0, f, x, keys);
    RepeatIs(1.0, |keys|);
    ListingSize(m.Keys);
  }

  /** A round adds up the two. */
  lemma {:induction false} RoundAdds(
      seed: Weights, s: Exact, t: Outgoing, u: ExactOutgoing, damping: Fixed6, d: real, w: Weights, r: Exact,
      a: real, b: real)
    requires Bounded(seed) && Bounded(w) && Stochastic(t) && 0 <= damping <= ONE
    requires RealSum(ExactScaled(s, UNIT - d)) <= ItemsMass(Scaled(seed, Sub(SCALE, damping)), EVERYWHERE) as real + a
    requires RealSum(ExactFlow(r, u, d, Listing(r.Keys)))
             <= ItemsMass(Flow(w, t, damping, Listing(w.Keys)), EVERYWHERE) as real + b
    ensures ExactMass(ExactRound(s, u, d, r)) <= Mass(Round(seed, t, damping, w), EVERYWHERE) as real + a + b
  {
    var own, passed := Scaled(seed, Sub(SCALE, damping)), Flow(w, t, damping, Listing(w.Keys));
    var exactOwn, exactPassed := ExactScaled(s, UNIT - d), ExactFlow(r, u, d, Listing(r.Keys));
    RealSumConcat(exactOwn, exactPassed);
    ItemsMassConcat(own, passed, EVERYWHERE);
    ExactAccumulateMass(exactOwn + exactPassed);
    RoundItemsFit(seed, t, damping, w);
    AccumulateMass(own + passed, EVERYWHERE);
  }

  lemma {:induction false} OwnLoses(
      seed: Weights, s: Exact, damping: Fixed6, d: real, own: real -> real, x: real, a: real)
    requires Bounded(seed) && Dominated(seed, s) && 0 <= damping <= ONE && d == damping as real == UNIT * x
    requires Multiplies(own, 1.0 - x) && a == |seed.Keys| as real + own(ExactMass(Lost(seed, s)))
    ensures RealSum(ExactScaled(s, UNIT - d)) <= ItemsMass(Scaled(seed, Sub(SCALE, damping)), EVERYWHERE) as real + a
  {
    var factor := Sub(SCALE, damping);
    assert factor as real == UNIT - d == UNIT * (1.0 - x);
    ScaledLoses(seed, s, factor, own, 1.0 - x);
  }

  lemma {:induction false} PassedLoses(
      w: Weights, r: Exact, t: Outgoing, u: ExactOutgoing, damping: Fixed6, d: real, f: real -> real, x: real, b: real)
    requires Bounded(w) && Dominated(w, r) && NearRows(t, u) && 0 <= damping <= ONE && d == damping as real == UNIT * x
    requires Multiplies(f, x) && b == 3.0 * Targets(t, Listing(w.Keys)) as real + f(ExactMass(Lost(w, r)))
    ensures RealSum(ExactFlow(r, u, d, Listing(r.Keys)))
            <= ItemsMass(Flow(w, t, damping, Listing(w.Keys)), EVERYWHERE) as real + b
  {
    FlowLoses(w, r, t, u, damping, f, x, Listing(w.Keys));
  }

  /** A round loses one for each seed, three for each target, and of what was lost
      before it the part it passes on. */
  lemma {:induction false} RoundLoses(
      seed: Weights, s: Exact, t: Outgoing, u: ExactOutgoing, damping: Fixed6, d: real, w: Weights, r: Exact,
      f: real -> real, x: real, own: real -> real, a: real, b: real)
    requires Bounded(seed) && Dominated(seed, s) && Bounded(w) && Dominated(w, r)
    requires NearRows(t, u) && Stochastic(t) && 0 <= damping <= ONE && d == damping as real == UNIT * x
    requires Multiplies(f, x) && Multiplies(own, 1.0 - x)
    requires a == |seed.Keys| as real + own(ExactMass(Lost(seed, s)))
    requires b == 3.0 * Targets(t, Listing(w.Keys)) as real + f(ExactMass(Lost(w, r)))
    ensures ExactMass(ExactRound(s, u, d, r)) <= Mass(Round(seed, t, damping, w), EVERYWHERE) as real + a + b
  {
    OwnLoses(seed, s, damping, d, own, x, a);
    PassedLoses(w, r, t, u, damping, d, f, x, b);
    RoundAdds(seed, s, t, u, damping, d, w, r, a, b);
  }

  lemma {:induction false} LostMass(w: Weights, r: Exact)
    requires w.Keys == r.Keys
    ensures ExactMass(Lost(w, r)) == ExactMass(r) - Mass(w, EVERYWHERE) as real
  {
    LostSum(w, r, Listing(w.Keys));
  }

  /** Nothing above the exact weights, and below them by no more than this in all. */
  ghost predicate LosesAtMost(w: Weights, r: Exact, bound: real) {
    Dominated(w, r) && ExactMass(Lost(w, r)) <= bound
  }

  // --------------------------------------------------------------------- all rounds

  /** Losing `each` in every round on top of the seeds' loss, of which what is not
      passed on comes in again. */
  ghost function Bound(f: real -> real, own: real -> real, seeds: real, each: real, n: nat): real {
    if n == 0 then seeds else each + own(seeds) + f(Bound(f, own, seeds, each, n - 1))
  }

  lemma {:induction false} RoundsLoseStep(
      seed: Weights, s: Exact, t: Outgoing, u: ExactOutgoing, damping: Fixed6, d: real, w: Weights, r: Exact,
      f: real -> real, x: real, own: real -> real, seeds: real, each: real, before: real)
    requires LosesAtMost(seed, s, seeds) && Bounded(seed) && LosesAtMost(w, r, before) && Bounded(w)
    requires NearRows(t, u) && Stochastic(t) && 0 <= damping <= ONE && d == damping as real == UNIT * x && x <= 1.0
    requires Multiplies(f, x) && Multiplies(own, 1.0 - x)
    requires |seed.Keys| as real + 3.0 * Targets(t, Listing(w.Keys)) as real <= each
    ensures LosesAtMost(Round(seed, t, damping, w), ExactRound(s, u, d, r), each + own(seeds) + f(before))
  {
    RoundDominated(seed, s, t, u, damping, d, w, r);
    LostMass(Round(seed, t, damping, w), ExactRound(s, u, d, r));
    RoundLoses(seed, s, t, u, damping, d, w, r, f, x, own,
               |seed.Keys| as real + own(ExactMass(Lost(seed, s))),
               3.0 * Targets(t, Listing(w.Keys)) as real + f(ExactMass(Lost(w, r))));
    Grows(f, x, ExactMass(Lost(w, r)), before);
    Grows(own, 1.0 - x, ExactMass(Lost(seed, s)), seeds);
  }

  /** No nodes have more targets than this allows. */
  ghost predicate FewTargets(seed: Weights, t: Outgoing, each: real) {
    forall keys :: Distinct(keys) ==> |seed.Keys| as real + 3.0 * Targets(t, keys) as real <= each
  }

  /** The bound after `n` rounds. */
  ghost predicate LostBy(
      seed: Weights, s: Exact, t: Outgoing, u: ExactOutgoing, damping: Fixed6, d: real,
      f: real -> real, own: real -> real, seeds: real, each: real, n: nat)
  {
    LosesAtMost(Rounds(seed, t, damping, n), ExactRounds(s, u, d, n), Bound(f, own, seeds, each, n))
  }

  ghost predicate Goes(p: nat -> bool, i: nat) {
    p(i) ==> p(i + 1)
  }

  lemma {:induction false} GoesOn(p: nat -> bool, n: nat)
    requires p(0) && forall i: nat {:trigger Goes(p, i)} :: Goes(p, i)
    ensures p(n)
  {
    if n > 0 {
      GoesOn(p, n - 1);
      assert Goes(p, n - 1);
    }
  }

  lemma {:induction false} LossNext(
      seed: Weights, s: Exact, t: Outgoing, u: ExactOutgoing, damping: Fixed6, d: real, w: Weights, r: Exact,
      f: real -> real, own: real -> real, seeds: real, each: real, n: nat, before: real)
    requires w == Rounds(seed, t, damping, n) && r == ExactRounds(s, u, d, n)
    requires before == Bound(f, own, seeds, each, n)
    requires StepWithin(seed, s, t, u, damping, d, w, r, f, own, seeds, each, before)
    ensures LostBy(seed, s, t, u, damping, d, f, own, seeds, each, n) ==>
            LostBy(seed, s, t, u, damping, d, f, own, seeds, each, n + 1)
  {
  }

  lemma {:induction false} RoundsLoseFrom(
      seed: Weights, s: Exact, t: Outgoing, u: ExactOutgoing, damping: Fixed6, d: real, n: nat,
      f: real -> real, x: real, own: real -> real, seeds: real, each: real)
    requires LosesAtMost(seed, s, seeds) && Bounded(seed) && FewTargets(seed, t, each)
    requires NearRows(t, u) && Stochastic(t) && 0 <= damping <= ONE && d == damping as real == UNIT * x && x <= 1.0
    requires Multiplies(f, x) && Multiplies(own, 1.0 - x)
    ensures LostBy(seed, s, t, u, damping, d, f, own, seeds, each, n)
  {
    var p := (i: nat) => LostBy(seed, s, t, u, damping, d, f, own, seeds, each, i);
    forall i: nat ensures Goes(p, i) {
      NextLoses(seed, s, t, u, damping, d, i, f, x, own, seeds, each);
    }
    GoesOn(p, n);
  }

  lemma {:induction false} NextLoses(
      seed: Weights, s: Exact, t: Outgoing, u: ExactOutgoing, damping: Fixed6, d: real, n: nat,
      f: real -> real, x: real, own: real -> real, seeds: real, each: real)
    requires LosesAtMost(seed, s, seeds) && Bounded(seed) && FewTargets(seed, t, each)
    requires NearRows(t, u) && Stochastic(t) && 0 <= damping <= ONE && d == damping as real == UNIT * x && x <= 1.0
    requires Multiplies(f, x) && Multiplies(own, 1.0 - x)
    ensures LostBy(seed, s, t, u, damping, d, f, own, seeds, each, n) ==>
            LostBy(seed, s, t, u, damping, d, f, own, seeds, each, n + 1)
  {
    RoundsBounded(seed, t, damping, n);
    var w, r, before := Rounds(seed, t, damping, n), ExactRounds(s, u, d, n), Bound(f, own, seeds, each, n);
    StepLoses(seed, s, t, u, damping, d, w, r, f, x, own, seeds, each, before);
    LossNext(seed, s, t, u, damping, d, w, r, f, own, seeds, each, n, before);
  }

  lemma {:induction false} StepLoses(
      seed: Weights, s: Exact, t: Outgoing, u: ExactOutgoing, damping: Fixed6, d: real, w: Weights, r: Exact,
      f: real -> real, x: real, own: real -> real, seeds: real, each: real, before: real)
    requires LosesAtMost(seed, s, seeds) && Bounded(seed) && FewTargets(seed, t, each) && Bounded(w)
    requires NearRows(t, u) && Stochastic(t) && 0 <= damping <= ONE && d == damping as real == UNIT * x && x <= 1.0
    requires Multiplies(f, x) && Multiplies(own, 1.0 - x)
    ensures StepWithin(seed, s, t, u, damping, d, w, r, f, own, seeds, each, before)
  {
    if LosesAtMost(w, r, before) {
      FewTargetsOf(seed, t, each, w);
      RoundsLoseStep(seed, s, t, u, damping, d, w, r, f, x, own, seeds, each, before);
    }
  }

  ghost predicate StepWithin(
      seed: Weights, s: Exact, t: Outgoing, u: ExactOutgoing, damping: Fixed6, d: real, w: Weights, r: Exact,
      f: real -> real, own: real -> real, seeds: real, each: real, before: real)
  {
    LosesAtMost(w, r, before) ==>
    LosesAtMost(Round(seed, t, damping, w), ExactRound(s, u, d, r), each + own(seeds) + f(before))
  }

  lemma {:induction false} FewTargetsOf(seed: Weights, t: Outgoing, each: real, w: Weights)
    requires FewTargets(seed, t, each)
    ensures |seed.Keys| as real + 3.0 * Targets(t, Listing(w.Keys)) as real <= each
  {
    ListingDistinct(w.Keys);
  }

  lemma {:induction false} ListingDistinct(s: set<Id>)
    ensures Distinct(Listing(s))
  {
    var keys := Listing(s);
    forall i, j | 0 <= i < j < |keys| ensures keys[i] != keys[j] {
      LessIrreflexive(keys[i]);
    }
  }

  /** One, the part `x` of one, and so on: what a loss of one in every round comes
      to. */
  ghost function Spread(x: real, n: nat): real {
    if n == 0 then 0.0 else 1.0 + x * Spread(x, n - 1)
  }

  /** No more than one a round, and no more than the inverse of what is not passed
      on, however many rounds there are. */
  lemma {:induction false} SpreadBounded(x: real, n: nat)
    requires 0.0 <= x <= 1.0
    ensures 0.0 <= Spread(x, n) <= n as real
    ensures (1.0 - x) * Spread(x, n) <= 1.0
  {
    if n > 0 {
      SpreadBounded(x, n - 1);
      var g := Spread(x, n - 1);
      SpreadStep(x, g, x * g, 1.0 - x, (1.0 - x) * g);
    }
  }

  lemma {:induction false} SpreadStep(x: real, g: real, p: real, y: real, q: real)
    requires 0.0 <= x <= 1.0 && 0.0 <= g && p == x * g && y == 1.0 - x && q == y * g <= 1.0
    ensures 0.0 <= p <= g && y * (1.0 + p) <= 1.0
  {
    MulPositive(x, g);
    MulPositive(y, g);
    assert y * g == g - x * g;
    var r := x * q;
    assert y * p == r by {
      assert y * (x * g) == x * (y * g);
    }
    assert r <= x by {
      MulGrows(x, q, 1.0);
      assert x * 1.0 == x;
    }
    assert y * (1.0 + p) == y + y * p;
  }

  /** The bound is the seeds' loss, and a round's loss spread out. */
  lemma {:induction false} BoundIs(f: real -> real, own: real -> real, x: real, seeds: real, each: real, n: nat)
    requires Multiplies(f, x) && Multiplies(own, 1.0 - x)
    ensures Bound(f, own, seeds, each, n) == seeds + each * Spread(x, n)
  {
    if n > 0 {
      BoundIs(f, own, x, seeds, each, n - 1);
      var before := Bound(f, own, seeds, each, n - 1);
      assert MultipliesAt(f, x, before) && MultipliesAt(own, 1.0 - x, seeds);
      BoundStep(x, seeds, each, Spread(x, n - 1), Spread(x, n), before, f(before), own(seeds));
    }
  }

  lemma {:induction false} BoundStep(
      x: real, seeds: real, each: real, g: real, next: real, before: real, passed: real, again: real)
    requires next == 1.0 + x * g && before == seeds + each * g && passed == x * before && again == (1.0 - x) * seeds
    ensures each + again + passed == seeds + each * next
  {
    var p := each * g;
    assert passed == x * seeds + x * p;
    assert again == seeds - x * seeds;
    assert each * next == each + x * p by {
      assert each * (x * g) == x * (each * g);
      assert each * (1.0 + x * g) == each + each * (x * g);
    }
  }
}
