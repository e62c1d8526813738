/** Consistency proofs: one path from which both an old and a new root are
    recovered.  The prover descends recursively; the verifier never descends,
    but reads the turns off the bits of the two sizes. */
module Consistency {
  import opened Hashing
  import opened Seqs
  import opened Log

  // ---------------------------------------------------------------- prover

  function ConsistencyProof(sha: Sha, leaves: seq<Hash>, m: nat): seq<Hash> {
    if m == 0 || m > |leaves| then []
    else if m == |leaves| then []
    else Subproof(sha, leaves, m, true)
  }

  function Subproof(sha: Sha, leaves: seq<Hash>, m: nat, start: bool): seq<Hash>
    requires 0 < m <= |leaves|
    decreases |leaves|
  {
    if m == |leaves| then
      if start then [] else [Root(sha, leaves)]
    else
      var k := Split(|leaves|);
      if m <= k then Subproof(sha, leaves[..k], m, start) + [Root(sha, leaves[k..])]
      else Subproof(sha, leaves[k..], m - k, false) + [Root(sha, leaves[..k])]
  }

  // ------------------------------------------- top-down reading of a proof

  /** How many siblings lie above the largest subtree the two trees share at
      the old tree's right edge. */
  function Levels(m: nat, n: nat): nat
    requires 0 < m <= n
    decreases n
  {
    if m == n then 0
    else
      var k := Split(n);
      1 + if m <= k then Levels(m, k) else Levels(m - k, n - k)
  }

  datatype Roots = Roots(old_: Hash, new_: Hash)

  /** Both roots from the shared subtree's root and the siblings above it, read
      from the top down.  A sibling on the left is in both trees; one on the
      right is in the new tree alone. */
  function Recover(sha: Sha, m: nat, n: nat, seed: Hash, siblings: seq<Hash>): Roots
    requires 0 < m <= n && |siblings| == Levels(m, n)
    decreases n
  {
    if m == n then Roots(seed, seed)
    else
      var k, top, rest := Split(n), Last(siblings), Init(siblings);
      if m <= k then
        var r := Recover(sha, m, k, seed, rest);
        Roots(r.old_, NodeHash(sha, r.new_, top))
      else
        var r := Recover(sha, m - k, n - k, seed, rest);
        Roots(NodeHash(sha, top, r.old_), NodeHash(sha, top, r.new_))
  }

  ghost predicate RecoverHashedIn(sha: Sha, m: nat, n: nat, seed: Hash, siblings: seq<Hash>, q: set<Bytes>)
    requires 0 < m <= n && |siblings| == Levels(m, n)
    decreases n
  {
    if m == n then true
    else
      var k, top, rest := Split(n), Last(siblings), Init(siblings);
      if m <= k then
        && NodeBytes(Recover(sha, m, k, seed, rest).new_, top) in q
        && RecoverHashedIn(sha, m, k, seed, rest, q)
      else
        var r := Recover(sha, m - k, n - k, seed, rest);
        && NodeBytes(top, r.old_) in q && NodeBytes(top, r.new_) in q
        && RecoverHashedIn(sha, m - k, n - k, seed, rest, q)
  }

  predicate IsPow2(n: nat)
    requires n > 0
  {
    n == 1 || (n % 2 == 0 && IsPow2(n / 2))
  }

  /** The shared subtree's root: the old root itself when the old tree is
      complete, and the proof's first hash otherwise. */
  function Seed(m: nat, oldRoot: Hash, proof: seq<Hash>): Hash
    requires m > 0 && (IsPow2(m) || proof != [])
  {
    if IsPow2(m) then oldRoot else proof[0]
  }

  function Siblings(m: nat, proof: seq<Hash>): seq<Hash>
    requires m > 0 && (IsPow2(m) || proof != [])
  {
    if IsPow2(m) then proof else proof[1..]
  }

  /** How long a proof between sizes `m` and `n` is. */
  function ProofLength(m: nat, n: nat): nat
    requires 0 < m < n
  {
    Levels(m, n) + if IsPow2(m) then 0 else 1
  }

  /** The verdict on a consistency proof. */
  ghost predicate Consistent(sha: Sha, m: nat, n: nat, oldRoot: Hash, newRoot: Hash, proof: seq<Hash>) {
    && m <= n
    && if m == n then proof == [] && oldRoot == newRoot
       else if m == 0 then proof == []
       else
         && |proof| == ProofLength(m, n)
         && Recover(sha, m, n, Seed(m, oldRoot, proof), Siblings(m, proof)) == Roots(oldRoot, newRoot)
  }

  // ------------------------------------------------------------ completeness

  /** The root of the largest subtree shared at the old tree's right edge. */
  ghost function Shared(sha: Sha, leaves: seq<Hash>, m: nat): Hash
    requires 0 < m <= |leaves|
    decreases |leaves|
  {
    if m == |leaves| then Root(sha, leaves)
    else
      var k := Split(|leaves|);
      if m <= k then Shared(sha, leaves[..k], m) else Shared(sha, leaves[k..], m - k)
  }

  ghost function SharedSiblings(sha: Sha, leaves: seq<Hash>, m: nat): (s: seq<Hash>)
    requires 0 < m <= |leaves|
    ensures |s| == Levels(m, |leaves|)
    decreases |leaves|
  {
    if m == |leaves| then []
    else
      var k := Split(|leaves|);
      if m <= k then SharedSiblings(sha, leaves[..k], m) + [Root(sha, leaves[k..])]
      else SharedSiblings(sha, leaves[k..], m - k) + [Root(sha, leaves[..k])]
  }

  /** From honest siblings both honest roots are recovered. */
  lemma {:induction false} RecoverHonest(sha: Sha, leaves: seq<Hash>, m: nat)
    requires 0 < m <= |leaves|
    ensures Recover(sha, m, |leaves|, Shared(sha, leaves, m), SharedSiblings(sha, leaves, m))
            == Roots(Root(sha, leaves[..m]), Root(sha, leaves))
    decreases |leaves|
  {
    var n := |leaves|;
    if m == n {
      assert leaves[..m] == leaves;
    } else {
      var k := Split(n);
      var l, r := leaves[..k], leaves[k..];
      if m <= k {
        assert l[..m] == leaves[..m];
        RecoverHonest(sha, l, m);
        Snoc(SharedSiblings(sha, l, m), Root(sha, r));
      } else {
        RecoverHonest(sha, r, m - k);
        Snoc(SharedSiblings(sha, r, m - k), Root(sha, l));
        RootOfPrefix(sha, leaves, m);
      }
    }
  }

  /** A prefix longer than the split is split in the same place. */
  lemma {:induction false} SplitOfPrefix(m: nat, n: nat)
    requires n > 1 && Split(n) < m <= n
    ensures Split(m) == Split(n)
    decreases n
  {
    if n > 2 {
      SplitOfPrefix((m + 1) / 2, (n + 1) / 2);
    }
  }

  lemma {:induction false} RootOfPrefix(sha: Sha, leaves: seq<Hash>, m: nat)
    requires |leaves| > 1 && Split(|leaves|) < m <= |leaves|
    ensures var k := Split(|leaves|);
            Root(sha, leaves[..m]) == NodeHash(sha, Root(sha, leaves[..k]), Root(sha, leaves[k..][..m - k]))
  {
    var k := Split(|leaves|);
    SplitOfPrefix(m, |leaves|);
    assert leaves[..m][..k] == leaves[..k];
    assert leaves[..m][k..] == leaves[k..][..m - k];
  }

  /** A power of two below `n` is at most the split, and nothing strictly
      between the split and `n` is one. */
  lemma {:induction false} Pow2AtMostSplit(m: nat, n: nat)
    requires 0 < m < n && IsPow2(m)
    ensures m <= Split(n)
    decreases n
  {
    if n > 2 && m > 1 {
      Pow2AtMostSplit(m / 2, (n + 1) / 2);
    }
  }

  /** What the recursive prover emits off the left edge: the shared subtree's
      root, then the siblings. */
  lemma {:induction false} SubproofShape(sha: Sha, leaves: seq<Hash>, m: nat)
    requires 0 < m <= |leaves|
    ensures Subproof(sha, leaves, m, false) == [Shared(sha, leaves, m)] + SharedSiblings(sha, leaves, m)
    decreases |leaves|
  {
    if m < |leaves| {
      var k := Split(|leaves|);
      if m <= k {
        SubproofShape(sha, leaves[..k], m);
      } else {
        SubproofShape(sha, leaves[k..], m - k);
      }
    }
  }

  /** On the left edge the shared root is left out exactly when the old tree is
      complete, and then it is the old root. */
  lemma {:induction false} SubproofShapeStart(sha: Sha, leaves: seq<Hash>, m: nat)
    requires 0 < m <= |leaves|
    requires m == |leaves| ==> IsPow2(m)
    ensures Subproof(sha, leaves, m, true)
            == (if IsPow2(m) then [] else [Shared(sha, leaves, m)]) + SharedSiblings(sha, leaves, m)
    decreases |leaves|
  {
    var n := |leaves|;
    if m < n {
      var k := Split(n);
      if m <= k {
        SplitIsPow2(n);
        SubproofShapeStart(sha, leaves[..k], m);
      } else {
        if IsPow2(m) {
          Pow2AtMostSplit(m, n);
        }
        SubproofShape(sha, leaves[k..], m - k);
      }
    }
  }

  lemma {:induction false} SharedIsOldRoot(sha: Sha, leaves: seq<Hash>, m: nat)
    requires 0 < m <= |leaves| && IsPow2(m)
    ensures Shared(sha, leaves, m) == Root(sha, leaves[..m])
    decreases |leaves|
  {
    if m == |leaves| {
      assert leaves[..m] == leaves;
    } else {
      Pow2AtMostSplit(m, |leaves|);
      var l := leaves[..Split(|leaves|)];
      assert l[..m] == leaves[..m];
      SharedIsOldRoot(sha, l, m);
    }
  }

  lemma {:induction false} SplitIsPow2(n: nat)
    requires n > 1
    ensures IsPow2(Split(n))
  {
    if n > 2 {
      SplitIsPow2((n + 1) / 2);
    }
  }

  /** Every generated proof verifies, for every pair of sizes. */
  lemma {:induction false} ConsistencyComplete(sha: Sha, leaves: seq<Hash>, m: nat)
    requires m <= |leaves|
    ensures Consistent(sha, m, |leaves|, Root(sha, leaves[..m]), Root(sha, leaves), ConsistencyProof(sha, leaves, m))
  {
    if m == |leaves| {
      assert leaves[..m] == leaves;
    } else if m > 0 {
      RecoverHonest(sha, leaves, m);
      SubproofShapeStart(sha, leaves, m);
      if IsPow2(m) {
        SharedIsOldRoot(sha, leaves, m);
      }
      var proof := ConsistencyProof(sha, leaves, m);
      assert Siblings(m, proof) == SharedSiblings(sha, leaves, m);
    }
  }

  // ----------------------------------------------------------------- binding

  /** What is recovered below the top, when the recovered roots are interior
      hashes: the sibling is the other child. */
  lemma {:induction false} RecoveredLeft(
      sha: Sha, q: set<Bytes>, old_: Hash, l: Hash, r: Hash, m: nat, n: nat, seed: Hash, siblings: seq<Hash>)
    requires 0 < m < n && m <= Split(n) && |siblings| == Levels(m, n)
    requires Recover(sha, m, n, seed, siblings) == Roots(old_, NodeHash(sha, l, r))
    requires NodeBytes(l, r) in q && RecoverHashedIn(sha, m, n, seed, siblings, q) && CollisionFree(sha, q)
    ensures Recover(sha, m, Split(n), seed, Init(siblings)) == Roots(old_, l)
    ensures RecoverHashedIn(sha, m, Split(n), seed, Init(siblings), q)
  {
    NodeHashBinds(sha, q, Recover(sha, m, Split(n), seed, Init(siblings)).new_, Last(siblings), l, r);
  }

  /** The right-hand turn: `i` and `j` are the sizes past the split. */
  lemma {:induction false} RecoverUnfold(
      sha: Sha, m: nat, n: nat, k: nat, i: nat, j: nat, seed: Hash, siblings: seq<Hash>)
    requires n > 1 && k == Split(n) && m == k + i && n == k + j && 0 < i < j && |siblings| == Levels(m, n)
    ensures |siblings| == 1 + Levels(i, j)
    ensures var below := Recover(sha, i, j, seed, Init(siblings));
            Recover(sha, m, n, seed, siblings)
            == Roots(NodeHash(sha, Last(siblings), below.old_), NodeHash(sha, Last(siblings), below.new_))
  {
    assert m - k == i && n - k == j;
  }

  lemma {:induction false} RecoverHashedUnfold(
      sha: Sha, q: set<Bytes>, m: nat, n: nat, k: nat, i: nat, j: nat, seed: Hash, siblings: seq<Hash>)
    requires n > 1 && k == Split(n) && m == k + i && n == k + j && 0 < i < j
    requires |siblings| == Levels(m, n) == 1 + Levels(i, j)
    requires RecoverHashedIn(sha, m, n, seed, siblings, q)
    ensures RecoverHashedIn(sha, i, j, seed, Init(siblings), q)
    ensures var below := Recover(sha, i, j, seed, Init(siblings));
            NodeBytes(Last(siblings), below.old_) in q && NodeBytes(Last(siblings), below.new_) in q
  {
    assert m - k == i && n - k == j;
  }

  lemma {:induction false} RecoveredRight(
      sha: Sha, q: set<Bytes>, x: Hash, y: Hash, l: Hash, r: Hash, m: nat, n: nat, k: nat, i: nat, j: nat,
      seed: Hash, siblings: seq<Hash>)
    requires n > 1 && k == Split(n) && m == k + i && n == k + j && 0 < i < j && |siblings| == Levels(m, n)
    requires Recover(sha, m, n, seed, siblings) == Roots(NodeHash(sha, x, y), NodeHash(sha, l, r))
    requires NodeBytes(x, y) in q && NodeBytes(l, r) in q
    requires RecoverHashedIn(sha, m, n, seed, siblings, q) && CollisionFree(sha, q)
    ensures x == l
    ensures |siblings| == 1 + Levels(i, j) && Recover(sha, i, j, seed, Init(siblings)) == Roots(y, r)
    ensures RecoverHashedIn(sha, i, j, seed, Init(siblings), q)
  {
    RecoverUnfold(sha, m, n, k, i, j, seed, siblings);
    RecoverHashedUnfold(sha, q, m, n, k, i, j, seed, siblings);
    var below := Recover(sha, i, j, seed, Init(siblings));
    NodeHashBinds(sha, q, Last(siblings), below.old_, x, y);
    NodeHashBinds(sha, q, Last(siblings), below.new_, l, r);
  }

  /** Recovering both real roots from one path forces the old leaves to be a
      prefix of the new ones. */
  lemma {:induction false} RecoverBinds(
      sha: Sha, q: set<Bytes>, a: seq<Hash>, b: seq<Hash>, m: nat, n: nat, seed: Hash, siblings: seq<Hash>)
    requires 0 < |a| == m <= n == |b| && |siblings| == Levels(m, n)
    requires Recover(sha, m, n, seed, siblings) == Roots(Root(sha, a), Root(sha, b))
    requires RootHashedIn(sha, a, q) && RootHashedIn(sha, b, q)
    requires RecoverHashedIn(sha, m, n, seed, siblings, q) && CollisionFree(sha, q)
    ensures a == b[..m]
    decreases n, 1
  {
    if m == n {
      RootBinding(sha, q, a, b);
    } else {
      var k := Split(n);
      RootHalves(sha, q, b, k);
      if m <= k {
        RecoverBindsLeft(sha, q, a, b[..k], b[k..], m, n, k, seed, siblings);
        assert b[..k][..m] == b[..m];
      } else {
        SplitOfPrefix(m, n);
        RootHalves(sha, q, a, k);
        RecoverBindsHalves(sha, q, a[..k], a[k..], b[..k], b[k..], m, n, k, m - k, n - k, seed, siblings);
        PrefixFromParts(a, b, k);
      }
    }
  }

  lemma {:induction false} RecoverBindsLeft(
      sha: Sha, q: set<Bytes>, a: seq<Hash>, l: seq<Hash>, r: seq<Hash>, m: nat, n: nat, k: nat, seed: Hash,
      siblings: seq<Hash>)
    requires 0 < |a| == m < n && k == Split(n) == |l| && m <= k && |siblings| == Levels(m, n)
    requires Recover(sha, m, n, seed, siblings) == Roots(Root(sha, a), NodeHash(sha, Root(sha, l), Root(sha, r)))
    requires NodeBytes(Root(sha, l), Root(sha, r)) in q && RootHashedIn(sha, a, q) && RootHashedIn(sha, l, q)
    requires RecoverHashedIn(sha, m, n, seed, siblings, q) && CollisionFree(sha, q)
    ensures a == l[..m]
    decreases n, 0
  {
    RecoveredLeft(sha, q, Root(sha, a), Root(sha, l), Root(sha, r), m, n, seed, siblings);
    RecoverBinds(sha, q, a, l, m, k, seed, Init(siblings));
  }

  lemma {:induction false} RecoverBindsHalves(
      sha: Sha, q: set<Bytes>, x: seq<Hash>, y: seq<Hash>, l: seq<Hash>, r: seq<Hash>,
      m: nat, n: nat, k: nat, i: nat, j: nat, seed: Hash, siblings: seq<Hash>)
    requires n > 1 && k == Split(n) && m == k + i && n == k + j && |x| == |l| == k && 0 < |y| == i < j == |r|
    requires |siblings| == Levels(m, n)
    requires Recover(sha, m, n, seed, siblings)
             == Roots(NodeHash(sha, Root(sha, x), Root(sha, y)), NodeHash(sha, Root(sha, l), Root(sha, r)))
    requires NodeBytes(Root(sha, x), Root(sha, y)) in q && NodeBytes(Root(sha, l), Root(sha, r)) in q
    requires RootHashedIn(sha, x, q) && RootHashedIn(sha, y, q) && RootHashedIn(sha, l, q) && RootHashedIn(sha, r, q)
    requires RecoverHashedIn(sha, m, n, seed, siblings, q) && CollisionFree(sha, q)
    ensures x == l && y == r[..i]
    decreases n, 0
  {
    RecoveredRight(sha, q, Root(sha, x), Root(sha, y), Root(sha, l), Root(sha, r), m, n, k, i, j, seed, siblings);
    RootBinding(sha, q, x, l);
    RecoverBinds(sha, q, y, r, i, j, seed, Init(siblings));
  }

  /** Both halves of a real tree hash only strings the whole one does. */
  lemma {:induction false} RootHalves(sha: Sha, q: set<Bytes>, s: seq<Hash>, k: nat)
    requires |s| > 1 && k == Split(|s|) && RootHashedIn(sha, s, q)
    ensures Root(sha, s) == NodeHash(sha, Root(sha, s[..k]), Root(sha, s[k..]))
    ensures NodeBytes(Root(sha, s[..k]), Root(sha, s[k..])) in q
    ensures RootHashedIn(sha, s[..k], q) && RootHashedIn(sha, s[k..], q)
  {
  }

  lemma {:induction false} PrefixFromParts<T>(a: seq<T>, b: seq<T>, k: nat)
    requires k <= |a| <= |b| && a[..k] == b[..k] && a[k..] == b[k..][..|a| - k]
    ensures a == b[..|a|]
  {
    assert a == a[..k] + a[k..] && b[..|a|] == b[..k] + b[k..][..|a| - k];
  }

  /** An accepted proof between two real roots means nothing recorded earlier
      was rewritten: the old leaves are the first of the new. */
  lemma {:induction false} ConsistencyBinding(sha: Sha, q: set<Bytes>, a: seq<Hash>, b: seq<Hash>, proof: seq<Hash>)
    requires Consistent(sha, |a|, |b|, Root(sha, a), Root(sha, b), proof)
    requires RootHashedIn(sha, a, q) && RootHashedIn(sha, b, q) && CollisionFree(sha, q)
    requires 0 < |a| < |b| ==>
               RecoverHashedIn(sha, |a|, |b|, Seed(|a|, Root(sha, a), proof), Siblings(|a|, proof), q)
    ensures a == b[..|a|]
  {
    if |a| == |b| {
      RootBinding(sha, q, a, b);
    } else if |a| > 0 {
      RecoverBinds(sha, q, a, b, |a|, |b|, Seed(|a|, Root(sha, a), proof), Siblings(|a|, proof));
    }
  }
}
