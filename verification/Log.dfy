/** The Merkle log: tree hash, audit paths and their verifier. */
module Log {
  import opened Bits
  import opened Hashing
  import opened Seqs

  /** How many of `n` leaves go to the left. */
  function Split(n: nat): (k: nat)
    requires n > 1
    ensures 0 < k < n <= 2 * k
  {
    if n == 2 then 1 else 2 * Split((n + 1) / 2)
  }

  /** The same number by counting leading zeros, as the verifiers compute it:
      the top bit of `n - 1`, which stays in the word for every `n`. */
  function SplitWord(n: U64): (k: U64)
    requires n > 1
    ensures k == Split(n)
  {
    SplitIsTopBit(n);
    OneShl(BITS - 1 - LeadingZeros(n - 1))
  }

  lemma {:induction false} SplitIsTopBit(n: nat)
    requires n > 1
    ensures BitLen(n - 1) > 0 && Split(n) == Pow2(BitLen(n - 1) - 1)
  {
    if n == 2 {
      assert BitLen(1) == 1 && Pow2(0) == 1;
    } else {
      SplitIsTopBit((n + 1) / 2);
      assert (n + 1) / 2 - 1 == (n - 1) / 2;
    }
  }

  lemma {:induction false} SplitUnique(n: nat, t: nat)
    requires Pow2(t) < n <= 2 * Pow2(t)
    ensures Split(n) == Pow2(t)
    ensures BitLen(n - 1) == t + 1
  {
    BitLenExact(n - 1, t);
    SplitIsTopBit(n);
  }

  // ------------------------------------------------------------------ tree

  /** Merkle tree hash of a sequence of leaf hashes. */
  function Root(sha: Sha, leaves: seq<Hash>): Hash {
    if |leaves| == 0 then EmptyRoot(sha)
    else if |leaves| == 1 then leaves[0]
    else
      var k := Split(|leaves|);
      NodeHash(sha, Root(sha, leaves[..k]), Root(sha, leaves[k..]))
  }

  /** Every string hashed to compute it is in `q`. */
  ghost predicate RootHashedIn(sha: Sha, leaves: seq<Hash>, q: set<Bytes>) {
    if |leaves| == 0 then [] in q
    else if |leaves| == 1 then true
    else
      var k := Split(|leaves|);
      && NodeBytes(Root(sha, leaves[..k]), Root(sha, leaves[k..])) in q
      && RootHashedIn(sha, leaves[..k], q)
      && RootHashedIn(sha, leaves[k..], q)
  }

  /** Audit path from the leaf upward; empty for an index out of range. */
  function InclusionProof(sha: Sha, leaves: seq<Hash>, index: nat): (path: seq<Hash>)
    decreases |leaves|
  {
    var n := |leaves|;
    if index >= n || n == 1 then []
    else
      var k := Split(n);
      if index < k then InclusionProof(sha, leaves[..k], index) + [Root(sha, leaves[k..])]
      else InclusionProof(sha, leaves[k..], index - k) + [Root(sha, leaves[..k])]
  }

  // ------------------------------------------- top-down reading of a path

  /** How many turns lead from the root to leaf `index` of `size`. */
  function Depth(index: nat, size: nat): nat
    requires index < size
    decreases size
  {
    if size == 1 then 0
    else
      var k := Split(size);
      1 + if index < k then Depth(index, k) else Depth(index - k, size - k)
  }

  /** The root a leaf and a path of the right length stand for, read from the
      root down: what the verifier must compute. */
  function Rebuild(sha: Sha, leaf: Hash, index: nat, size: nat, path: seq<Hash>): Hash
    requires index < size && |path| == Depth(index, size)
    decreases size
  {
    if size == 1 then leaf
    else
      var k, top, rest := Split(size), Last(path), Init(path);
      if index < k then NodeHash(sha, Rebuild(sha, leaf, index, k, rest), top)
      else NodeHash(sha, top, Rebuild(sha, leaf, index - k, size - k, rest))
  }

  /** Every string hashed to rebuild it is in `q`. */
  ghost predicate RebuildHashedIn(sha: Sha, leaf: Hash, index: nat, size: nat, path: seq<Hash>, q: set<Bytes>)
    requires index < size && |path| == Depth(index, size)
    decreases size
  {
    if size == 1 then true
    else
      var k, top, rest := Split(size), Last(path), Init(path);
      if index < k then
        && NodeBytes(Rebuild(sha, leaf, index, k, rest), top) in q
        && RebuildHashedIn(sha, leaf, index, k, rest, q)
      else
        && NodeBytes(top, Rebuild(sha, leaf, index - k, size - k, rest)) in q
        && RebuildHashedIn(sha, leaf, index - k, size - k, rest, q)
  }

  /** The verdict on an audit path. */
  ghost predicate Included(sha: Sha, leaf: Hash, index: nat, size: nat, path: seq<Hash>, root: Hash) {
    index < size && |path| == Depth(index, size) && Rebuild(sha, leaf, index, size, path) == root
  }

  // -------------------------------------------------- the iterative verifier

  datatype Side = Left | Right

  /** The turns of the descent, from the root. */
  ghost function Sides(index: nat, size: nat): (s: seq<Side>)
    requires index < size
    ensures |s| == Depth(index, size)
    decreases size
  {
    if size == 1 then []
    else
      var k := Split(size);
      if index < k then [Left] + Sides(index, k) else [Right] + Sides(index - k, size - k)
  }

  /** Folding a path from the leaf up, against the sides in reverse. */
  ghost function Climb(sha: Sha, acc: Hash, path: seq<Hash>, sides: seq<Side>): Hash
    requires |path| == |sides|
    decreases |path|
  {
    if path == [] then acc
    else
      var below, top := Climb(sha, acc, Init(path), sides[1..]), Last(path);
      if sides[0] == Left then NodeHash(sha, below, top) else NodeHash(sha, top, below)
  }

  lemma {:induction false} ClimbIsRebuild(sha: Sha, leaf: Hash, index: nat, size: nat, path: seq<Hash>)
    requires index < size && |path| == Depth(index, size)
    ensures Climb(sha, leaf, path, Sides(index, size)) == Rebuild(sha, leaf, index, size, path)
    decreases size
  {
    if size > 1 {
      var k, rest, s := Split(size), Init(path), Sides(index, size);
      if index < k {
        ClimbIsRebuild(sha, leaf, index, k, rest);
        assert s[1..] == Sides(index, k);
      } else {
        ClimbIsRebuild(sha, leaf, index - k, size - k, rest);
        assert s[1..] == Sides(index - k, size - k);
      }
    }
  }

  /** One step of the fold: the sibling at height `i` joins the accumulator. */
  lemma {:induction false} ClimbStep(sha: Sha, acc: Hash, path: seq<Hash>, sides: seq<Side>, i: nat)
    requires |path| == |sides| && i < |path|
    ensures var below := Climb(sha, acc, path[..i], sides[|sides| - i..]);
            Climb(sha, acc, path[..i + 1], sides[|sides| - i - 1..])
            == if sides[|sides| - 1 - i] == Left then NodeHash(sha, below, path[i]) else NodeHash(sha, path[i], below)
  {
    var p, s := path[..i + 1], sides[|sides| - i - 1..];
    assert Init(p) == path[..i] && s[1..] == sides[|sides| - i..];
  }

  lemma {:induction false} SidesStep(done: seq<Side>, index: nat, size: nat)
    requires index < size && size > 1
    ensures var k := Split(size);
            done + Sides(index, size) == if index < k then (done + [Left]) + Sides(index, k)
                                         else (done + [Right]) + Sides(index - k, size - k)
  {
  }

  /** The descent's loop: the turns from the root to leaf `index` of `size`. */
  method Descend(index: U64, size: U64) returns (sides: seq<Side>)
    requires index < size
    ensures sides == Sides(index, size)
  {
    sides := [];
    var idx, sz := index, size;
    while sz > 1
      invariant idx < sz
      invariant sides + Sides(idx, sz) == Sides(index, size)
      decreases sz
    {
      SidesStep(sides, idx, sz);
      var k := SplitWord(sz);
      if idx < k {
        sides := sides + [Left];
        sz := k;
      } else {
        sides := sides + [Right];
        idx, sz := idx - k, sz - k;
      }
    }
  }

  /** The fold's loop: siblings from the leaf up, against the sides reversed. */
  method Fold(sha: Sha, leaf: Hash, path: seq<Hash>, sides: seq<Side>) returns (computed: Hash)
    requires |path| == |sides|
    ensures computed == Climb(sha, leaf, path, sides)
  {
    computed := leaf;
    for i := 0 to |path|
      invariant computed == Climb(sha, leaf, path[..i], sides[|sides| - i..])
    {
      ClimbStep(sha, leaf, path, sides, i);
      var sibling := path[i];
      computed := match sides[|sides| - 1 - i]
        case Left => NodeHash(sha, computed, sibling)
        case Right => NodeHash(sha, sibling, computed);
    }
    assert path[..|path|] == path && sides[0..] == sides;
  }

  method VerifyInclusion(sha: Sha, leaf: Hash, index: U64, size: U64, path: seq<Hash>, expectedRoot: Hash)
    returns (ok: bool)
    ensures ok <==> Included(sha, leaf, index, size, path, expectedRoot)
  {
    if index >= size || size == 0 {
      return false;
    }
    var sides := Descend(index, size);
    if |sides| != |path| {
      return false;
    }
    var computed := Fold(sha, leaf, path, sides);
    ClimbIsRebuild(sha, leaf, index, size, path);
    ok := computed == expectedRoot;
  }

  // ------------------------------------------------------ inclusion theorems

  /** Every generated path verifies. */
  lemma {:induction false} InclusionComplete(sha: Sha, leaves: seq<Hash>, index: nat)
    requires index < |leaves|
    ensures Included(sha, leaves[index], index, |leaves|, InclusionProof(sha, leaves, index), Root(sha, leaves))
    decreases |leaves|
  {
    var n := |leaves|;
    if n > 1 {
      var k := Split(n);
      if index < k {
        InclusionComplete(sha, leaves[..k], index);
        Snoc(InclusionProof(sha, leaves[..k], index), Root(sha, leaves[k..]));
      } else {
        InclusionComplete(sha, leaves[k..], index - k);
        Snoc(InclusionProof(sha, leaves[k..], index - k), Root(sha, leaves[..k]));
      }
    }
  }

  /** A path is no longer than the logarithm of the size, rounded up. */
  lemma {:induction false} DepthBounded(index: nat, size: nat)
    requires index < size
    ensures Depth(index, size) <= BitLen(size - 1)
  {
    BitLenBounds(size - 1);
    DepthFits(index, size, BitLen(size - 1));
  }

  lemma {:induction false} DepthFits(index: nat, size: nat, t: nat)
    requires index < size <= Pow2(t)
    ensures Depth(index, size) <= t
    decreases t
  {
    if size > 1 {
      var k := Split(size);
      SplitFits(size, t);
      if index < k {
        DepthFits(index, k, t - 1);
      } else {
        DepthFits(index - k, size - k, t - 1);
      }
    }
  }

  lemma {:induction false} SplitFits(n: nat, t: nat)
    requires 1 < n <= Pow2(t)
    ensures t > 0 && Split(n) <= Pow2(t - 1)
    decreases t
  {
    if n > 2 {
      SplitFits((n + 1) / 2, t - 1);
    }
  }

  /** A path accepted against an interior hash has the sibling on top, and what
      is below is accepted against the side the leaf is on. */
  lemma {:induction false} IncludedLeft(
      sha: Sha, q: set<Bytes>, l: Hash, r: Hash, leaf: Hash, index: nat, size: nat, path: seq<Hash>)
    requires size > 1 && index < Split(size)
    requires Included(sha, leaf, index, size, path, NodeHash(sha, l, r))
    requires NodeBytes(l, r) in q && RebuildHashedIn(sha, leaf, index, size, path, q) && CollisionFree(sha, q)
    ensures Last(path) == r && Included(sha, leaf, index, Split(size), Init(path), l)
    ensures RebuildHashedIn(sha, leaf, index, Split(size), Init(path), q)
  {
    NodeHashBinds(sha, q, Rebuild(sha, leaf, index, Split(size), Init(path)), Last(path), l, r);
  }

  lemma {:induction false} IncludedRight(
      sha: Sha, q: set<Bytes>, l: Hash, r: Hash, leaf: Hash, index: nat, size: nat, path: seq<Hash>)
    requires size > 1 && Split(size) <= index
    requires Included(sha, leaf, index, size, path, NodeHash(sha, l, r))
    requires NodeBytes(l, r) in q && RebuildHashedIn(sha, leaf, index, size, path, q) && CollisionFree(sha, q)
    ensures Last(path) == l && Included(sha, leaf, index - Split(size), size - Split(size), Init(path), r)
    ensures RebuildHashedIn(sha, leaf, index - Split(size), size - Split(size), Init(path), q)
  {
    NodeHashBinds(sha, q, Last(path), Rebuild(sha, leaf, index - Split(size), size - Split(size), Init(path)), l, r);
  }

  /** Accepted against a real root at its true size, a path is the generated
      one and the leaf is the one at that position. */
  lemma {:induction false} InclusionBinding(
      sha: Sha, q: set<Bytes>, leaves: seq<Hash>, leaf: Hash, index: nat, path: seq<Hash>)
    requires Included(sha, leaf, index, |leaves|, path, Root(sha, leaves))
    requires RootHashedIn(sha, leaves, q) && RebuildHashedIn(sha, leaf, index, |leaves|, path, q)
    requires CollisionFree(sha, q)
    ensures leaf == leaves[index]
    ensures path == InclusionProof(sha, leaves, index)
    decreases |leaves|
  {
    var n := |leaves|;
    if n > 1 {
      var k := Split(n);
      var l, r := leaves[..k], leaves[k..];
      Unsnoc(path);
      if index < k {
        IncludedLeft(sha, q, Root(sha, l), Root(sha, r), leaf, index, n, path);
        InclusionBinding(sha, q, l, leaf, index, Init(path));
      } else {
        IncludedRight(sha, q, Root(sha, l), Root(sha, r), leaf, index, n, path);
        InclusionBinding(sha, q, r, leaf, index - k, Init(path));
      }
    }
  }

  // ------------------------------------------------------------ root binding

  /** Equal roots at one size have equal leaves. */
  lemma {:induction false} RootBinding(sha: Sha, q: set<Bytes>, a: seq<Hash>, b: seq<Hash>)
    requires |a| == |b| && Root(sha, a) == Root(sha, b)
    requires RootHashedIn(sha, a, q) && RootHashedIn(sha, b, q) && CollisionFree(sha, q)
    ensures a == b
    decreases |a|
  {
    if |a| > 1 {
      var k := Split(|a|);
      NodeHashBinds(sha, q, Root(sha, a[..k]), Root(sha, a[k..]), Root(sha, b[..k]), Root(sha, b[k..]));
      RootBinding(sha, q, a[..k], b[..k]);
      RootBinding(sha, q, a[k..], b[k..]);
      assert a == a[..k] + a[k..] && b == b[..k] + b[k..];
    }
  }

  function LeafHashes(sha: Sha, entries: seq<Bytes>): (leaves: seq<Hash>)
    ensures |leaves| == |entries|
  {
    seq(|entries|, i requires 0 <= i < |entries| => LeafHash(sha, entries[i]))
  }

  /** Every string hashed to commit to a sequence of entries is in `q`. */
  ghost predicate EntriesHashedIn(sha: Sha, entries: seq<Bytes>, q: set<Bytes>) {
    && (forall i :: 0 <= i < |entries| ==> LeafBytes(entries[i]) in q)
    && RootHashedIn(sha, LeafHashes(sha, entries), q)
  }

  /** Leaf hashing commutes with cutting the entries at the split. */
  lemma {:induction false} LeafHashesSplit(sha: Sha, entries: seq<Bytes>, k: nat)
    requires k <= |entries|
    ensures LeafHashes(sha, entries)[..k] == LeafHashes(sha, entries[..k])
    ensures LeafHashes(sha, entries)[k..] == LeafHashes(sha, entries[k..])
  {
  }

  /** The two halves of a commitment hash only strings the whole one did. */
  lemma {:induction false} EntryHalves(sha: Sha, q: set<Bytes>, entries: seq<Bytes>)
    requires |entries| > 1 && EntriesHashedIn(sha, entries, q)
    ensures EntriesHashedIn(sha, entries[..Split(|entries|)], q)
    ensures EntriesHashedIn(sha, entries[Split(|entries|)..], q)
  {
    LeafHashesSplit(sha, entries, Split(|entries|));
  }

  /** A root commits to its entries and to how many there are: no sequence of
      another length has the same root. */
  lemma {:induction false} EntriesBinding(sha: Sha, q: set<Bytes>, a: seq<Bytes>, b: seq<Bytes>)
    requires Root(sha, LeafHashes(sha, a)) == Root(sha, LeafHashes(sha, b))
    requires EntriesHashedIn(sha, a, q) && EntriesHashedIn(sha, b, q) && CollisionFree(sha, q)
    ensures a == b
    decreases |a|
  {
    if |a| == 0 && |b| == 0 {
    } else if |a| <= 1 || |b| <= 1 {
      RootKind(sha, q, a);
      RootKind(sha, q, b);
      assert Separates(sha, RootBytes(sha, a), RootBytes(sha, b));
      RootBytesKind(sha, a, b);
    } else {
      var j, k := Split(|a|), Split(|b|);
      EntryHalves(sha, q, a);
      EntryHalves(sha, q, b);
      LeafHashesSplit(sha, a, j);
      LeafHashesSplit(sha, b, k);
      var x, y := LeafHashes(sha, a), LeafHashes(sha, b);
      NodeHashBinds(sha, q, Root(sha, x[..j]), Root(sha, x[j..]), Root(sha, y[..k]), Root(sha, y[k..]));
      EntriesBinding(sha, q, a[..j], b[..k]);
      EntriesBinding(sha, q, a[j..], b[k..]);
      assert a == a[..j] + a[j..] && b == b[..k] + b[k..];
    }
  }

  /** The string whose digest is the root. */
  ghost function RootBytes(sha: Sha, entries: seq<Bytes>): Bytes {
    if |entries| == 0 then []
    else if |entries| == 1 then LeafBytes(entries[0])
    else
      var x, k := LeafHashes(sha, entries), Split(|entries|);
      NodeBytes(Root(sha, x[..k]), Root(sha, x[k..]))
  }

  lemma {:induction false} RootKind(sha: Sha, q: set<Bytes>, entries: seq<Bytes>)
    requires EntriesHashedIn(sha, entries, q)
    ensures Root(sha, LeafHashes(sha, entries)) == sha(RootBytes(sha, entries))
    ensures RootBytes(sha, entries) in q
  {
  }

  /** The first byte tells how many entries a root commits to: none, one, more. */
  ghost function Tag(s: Bytes): int {
    if s == [] then -1 else s[0]
  }

  lemma {:induction false} RootTag(sha: Sha, entries: seq<Bytes>)
    ensures Tag(RootBytes(sha, entries)) == if |entries| == 0 then -1 else if |entries| == 1 then 0 else 1
  {
  }

  lemma {:induction false} RootBytesKind(sha: Sha, a: seq<Bytes>, b: seq<Bytes>)
    requires RootBytes(sha, a) == RootBytes(sha, b)
    requires |a| <= 1 || |b| <= 1
    ensures a == b
  {
    RootTag(sha, a);
    RootTag(sha, b);
    if |a| == 1 {
      LeafBytesInjective(a[0], b[0]);
    }
  }
}
