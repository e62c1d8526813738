/** The verifier that never descends: a path's turns are read off the bits of
    an index and a size, and both roots of a consistency proof are folded in
    two straight passes.  Here it is shown to compute what the descent does. */
module ClosedForm {
  import opened Bits
  import opened Hashing
  import opened Seqs
  import opened Log
  import opened Consistency

  /** How many levels of a path turn, and how many above them only fold right. */
  datatype Parts = Parts(inner: nat, border: nat)

  function Decompose(index: U64, size: U64): (p: Parts)
    requires index < size
    ensures p.inner == BitLen(Xor(index, size - 1)) <= BITS
    ensures p.border == CountOnes(Drop(index, p.inner))
  {
    WordXor(index, size - 1);
    var inner := BITS - LeadingZeros(Xor(index, size - 1));
    Parts(inner, CountOnes(CheckedShr(index, inner)))
  }

  lemma {:induction false} WordXor(a: U64, b: U64)
    ensures Xor(a, b) < 0x1_0000_0000_0000_0000
  {
    Pow2At64();
    XorFits(a, b, 64);
  }

  // --------------------------------------------------------------- the folds

  ghost function ChainInner(sha: Sha, seed: Hash, path: seq<Hash>, index: nat): Hash
    decreases |path|
  {
    if path == [] then seed
    else
      var below := ChainInner(sha, seed, Init(path), index);
      if Drop(index, |path| - 1) % 2 == 0 then NodeHash(sha, below, Last(path)) else NodeHash(sha, Last(path), below)
  }

  ghost function ChainInnerRight(sha: Sha, seed: Hash, path: seq<Hash>, index: nat): Hash
    decreases |path|
  {
    if path == [] then seed
    else
      var below := ChainInnerRight(sha, seed, Init(path), index);
      if Drop(index, |path| - 1) % 2 == 1 then NodeHash(sha, Last(path), below) else below
  }

  ghost function ChainBorderRight(sha: Sha, seed: Hash, path: seq<Hash>): Hash
    decreases |path|
  {
    if path == [] then seed else NodeHash(sha, Last(path), ChainBorderRight(sha, seed, Init(path)))
  }

  method FoldInner(sha: Sha, seed: Hash, path: seq<Hash>, index: U64) returns (acc: Hash)
    requires |path| <= BITS
    ensures acc == ChainInner(sha, seed, path, index)
  {
    acc := seed;
    for i := 0 to |path|
      invariant acc == ChainInner(sha, seed, path[..i], index)
    {
      assert Init(path[..i + 1]) == path[..i];
      acc := if Shr(index, i) % 2 == 0 then NodeHash(sha, acc, path[i]) else NodeHash(sha, path[i], acc);
    }
    assert path[..|path|] == path;
  }

  method FoldInnerRight(sha: Sha, seed: Hash, path: seq<Hash>, index: U64) returns (acc: Hash)
    requires |path| <= BITS
    ensures acc == ChainInnerRight(sha, seed, path, index)
  {
    acc := seed;
    for i := 0 to |path|
      invariant acc == ChainInnerRight(sha, seed, path[..i], index)
    {
      assert Init(path[..i + 1]) == path[..i];
      if Shr(index, i) % 2 == 1 {
        acc := NodeHash(sha, path[i], acc);
      }
    }
    assert path[..|path|] == path;
  }

  method FoldBorderRight(sha: Sha, seed: Hash, path: seq<Hash>) returns (acc: Hash)
    ensures acc == ChainBorderRight(sha, seed, path)
  {
    acc := seed;
    for i := 0 to |path|
      invariant acc == ChainBorderRight(sha, seed, path[..i])
    {
      assert Init(path[..i + 1]) == path[..i];
      acc := NodeHash(sha, path[i], acc);
    }
    assert path[..|path|] == path;
  }

  // -------------------------------------------- bits that a fold cannot see

  /** A fold over `|path|` siblings ignores the bits from that height up. */
  lemma {:induction false} ChainInnerIgnoresTop(sha: Sha, seed: Hash, path: seq<Hash>, index: nat, e: nat)
    requires |path| <= e
    ensures ChainInner(sha, seed, path, index + Pow2(e)) == ChainInner(sha, seed, path, index)
    ensures ChainInnerRight(sha, seed, path, index + Pow2(e)) == ChainInnerRight(sha, seed, path, index)
    decreases |path|
  {
    if path != [] {
      ChainInnerIgnoresTop(sha, seed, Init(path), index, e);
      BitBelow(index, e, |path| - 1);
    }
  }

  lemma {:induction false} BitBelow(index: nat, e: nat, i: nat)
    requires i < e
    ensures Drop(index + Pow2(e), i) % 2 == Drop(index, i) % 2
  {
    DropTop(index, e, i);
    assert Pow2(e - i) == 2 * Pow2(e - i - 1);
  }

  /** The fold's last step at height `e`, when that is the top bit and it is
      clear. */
  lemma {:induction false} ChainTopClear(sha: Sha, seed: Hash, path: seq<Hash>, low: nat, e: nat)
    requires |path| == e + 1 && low < Pow2(e)
    ensures ChainInner(sha, seed, path, low) == NodeHash(sha, ChainInner(sha, seed, Init(path), low), Last(path))
    ensures ChainInnerRight(sha, seed, path, low) == ChainInnerRight(sha, seed, Init(path), low)
  {
    DropSmall(low, e);
  }

  /** The same step when that bit is set. */
  lemma {:induction false} ChainTopSet(sha: Sha, seed: Hash, path: seq<Hash>, index: nat, low: nat, e: nat)
    requires |path| == e + 1 && low < Pow2(e) && index == low + Pow2(e)
    ensures ChainInner(sha, seed, path, index) == NodeHash(sha, Last(path), ChainInner(sha, seed, Init(path), low))
    ensures ChainInnerRight(sha, seed, path, index)
            == NodeHash(sha, Last(path), ChainInnerRight(sha, seed, Init(path), low))
  {
    DropTop(low, e, e);
    DropSmall(low, e);
    ChainInnerIgnoresTop(sha, seed, Init(path), low, e);
  }

  /** A sibling past the cut is the border fold's last step. */
  lemma {:induction false} BorderTop(sha: Sha, seed: Hash, path: seq<Hash>, cut: nat)
    requires cut < |path|
    ensures path[..cut] == Init(path)[..cut]
    ensures ChainBorderRight(sha, seed, path[cut..])
            == NodeHash(sha, Last(path), ChainBorderRight(sha, seed, Init(path)[cut..]))
  {
    assert Init(path[cut..]) == Init(path)[cut..] && Last(path[cut..]) == Last(path);
  }

  // ------------------------------------------------------- the turns, by size

  /** At a split whose left half holds the index, every level is inner. */
  lemma {:induction false} TurnsLeft(index: nat, size: nat, t: nat)
    requires index < Pow2(t) < size <= 2 * Pow2(t)
    ensures BitLen(Xor(index, size - 1)) == t + 1
    ensures CountOnes(Drop(index, t + 1)) == 0
  {
    var b := size - 1 - Pow2(t);
    XorTopOne(index, b, t);
    XorFits(index, b, t);
    BitLenExact(Xor(index, b) + Pow2(t), t);
    DropSmall(index, t + 1);
  }

  /** At a split whose right half holds it, there is one more border level. */
  lemma {:induction false} TurnsRight(index: nat, rest: nat, t: nat)
    requires index < rest <= Pow2(t)
    ensures Xor(index + Pow2(t), rest - 1 + Pow2(t)) == Xor(index, rest - 1)
    ensures BitLen(Xor(index, rest - 1)) <= t
    ensures var inner := BitLen(Xor(index, rest - 1));
            CountOnes(Drop(index + Pow2(t), inner)) == CountOnes(Drop(index, inner)) + 1
  {
    XorTopBoth(index, rest - 1, t);
    XorFits(index, rest - 1, t);
    BitLenFits(Xor(index, rest - 1), t);
    var inner := BitLen(Xor(index, rest - 1));
    DropTop(index, t, inner);
    DropFits(index, t, inner);
    CountOnesTop(Drop(index, inner), t - inner);
  }

  lemma {:induction false} SplitExponent(n: nat) returns (t: nat)
    requires n > 1
    ensures Split(n) == Pow2(t)
  {
    SplitIsTopBit(n);
    t := BitLen(n - 1) - 1;
  }

  lemma {:induction false} SplitOfPow2(t: nat)
    requires t > 0
    ensures Split(Pow2(t)) == Pow2(t - 1)
  {
    SplitUnique(Pow2(t), t - 1);
  }

  // ------------------------------------------------- inclusion: fold = descent

  /** In a complete tree every level turns, on the bits of the index. */
  lemma {:induction false} CompleteRebuild(sha: Sha, leaf: Hash, index: nat, t: nat, path: seq<Hash>)
    requires index < Pow2(t) && |path| == Depth(index, Pow2(t))
    ensures |path| == t
    ensures Rebuild(sha, leaf, index, Pow2(t), path) == ChainInner(sha, leaf, path, index)
    decreases t
  {
    if t > 0 {
      SplitOfPow2(t);
      var k := Pow2(t - 1);
      if index < k {
        CompleteRebuild(sha, leaf, index, t - 1, Init(path));
        ChainTopClear(sha, leaf, path, index, t - 1);
      } else {
        assert Pow2(t) - k == k;
        CompleteRebuild(sha, leaf, index - k, t - 1, Init(path));
        ChainTopSet(sha, leaf, path, index, index - k, t - 1);
      }
    }
  }

  /** The closed form counts exactly the turns of the descent, and folding by
      the bits computes the root the descent does. */
  lemma {:induction false} FoldIsDescent(sha: Sha, leaf: Hash, index: nat, size: nat, path: seq<Hash>, inner: nat)
    requires index < size && |path| == Depth(index, size) && inner == BitLen(Xor(index, size - 1))
    ensures Depth(index, size) == inner + CountOnes(Drop(index, inner))
    ensures Rebuild(sha, leaf, index, size, path)
            == ChainBorderRight(sha, ChainInner(sha, leaf, path[..inner], index), path[inner..])
    decreases size
  {
    if size == 1 {
      assert index == 0 && Xor(0, 0) == 0;
    } else {
      var t := SplitExponent(size);
      var k := Split(size);
      if index < k {
        TurnsLeft(index, size, t);
        CompleteRebuild(sha, leaf, index, t, Init(path));
        ChainTopClear(sha, leaf, path, index, t);
        assert path[..inner] == path;
      } else {
        FoldIsDescentRight(sha, leaf, index, size, index - k, size - k, t, path, inner);
      }
    }
  }

  /** For every word, `decompose` counts the turns of the descent, and folding by
      the index bits and then only right is folding by the recorded sides. */
  lemma {:induction false} ClosedFormIsDescent(sha: Sha, leaf: Hash, index: U64, size: U64, path: seq<Hash>)
    requires index < size
    ensures var p := Decompose(index, size); |Sides(index, size)| == p.inner + p.border
    ensures var p := Decompose(index, size); |path| == p.inner + p.border ==>
      Climb(sha, leaf, path, Sides(index, size))
      == ChainBorderRight(sha, ChainInner(sha, leaf, path[..p.inner], index), path[p.inner..])
  {
    var p := Decompose(index, size);
    var any := seq(Depth(index, size), _ => leaf);
    FoldIsDescent(sha, leaf, index, size, any, p.inner);
    if |path| == Depth(index, size) {
      FoldIsDescent(sha, leaf, index, size, path, p.inner);
      ClimbIsRebuild(sha, leaf, index, size, path);
    }
  }

  /** The right-hand turn: `i` of `j` is what lies past the split. */
  lemma {:induction false} RebuildUnfold(
      sha: Sha, leaf: Hash, index: nat, size: nat, i: nat, j: nat, k: nat, path: seq<Hash>)
    requires size > 1 && k == Split(size) && index == k + i && size == k + j && i < j && |path| == Depth(index, size)
    ensures |path| == 1 + Depth(i, j)
    ensures Rebuild(sha, leaf, index, size, path) == NodeHash(sha, Last(path), Rebuild(sha, leaf, i, j, Init(path)))
  {
    assert index - k == i && size - k == j;
  }

  lemma {:induction false} FoldIsDescentRight(
      sha: Sha, leaf: Hash, index: nat, size: nat, i: nat, j: nat, t: nat, path: seq<Hash>, inner: nat)
    requires i < j && size > 1 && Split(size) == Pow2(t) && index == i + Pow2(t) && size == j + Pow2(t)
    requires |path| == Depth(index, size) && inner == BitLen(Xor(index, size - 1))
    ensures Depth(index, size) == inner + CountOnes(Drop(index, inner))
    ensures Rebuild(sha, leaf, index, size, path)
            == ChainBorderRight(sha, ChainInner(sha, leaf, path[..inner], index), path[inner..])
    decreases size, 0
  {
    RebuildUnfold(sha, leaf, index, size, i, j, Pow2(t), path);
    TurnsRight(i, j, t);
    var rest := Init(path);
    FoldIsDescent(sha, leaf, i, j, rest, inner);
    ChainInnerIgnoresTop(sha, leaf, rest[..inner], i, t);
    BorderTop(sha, ChainInner(sha, leaf, rest[..inner], i), path, inner);
  }

  // ----------------------------------------------- consistency: fold = descent

  lemma {:induction false} IsPow2ByShift(n: nat)
    requires n > 0
    ensures IsPow2(n) <==> n == Pow2(TrailingZeros(n))
  {
    if n % 2 == 0 {
      IsPow2ByShift(n / 2);
    }
  }

  /** In a complete tree, above the old tree's shared subtree every level turns
      on the bits of `m - 1`, past those the subtree itself takes up. */
  lemma {:induction false} CompleteRecover(sha: Sha, m: nat, t: nat, z: nat, seed: Hash, siblings: seq<Hash>)
    requires 0 < m <= Pow2(t) && z == TrailingZeros(m) && |siblings| == Levels(m, Pow2(t))
    ensures z <= t && |siblings| == t - z
    ensures var mask := Drop(m - 1, z);
            Recover(sha, m, Pow2(t), seed, siblings)
            == Roots(ChainInnerRight(sha, seed, siblings, mask), ChainInner(sha, seed, siblings, mask))
    decreases t, 1
  {
    if m == Pow2(t) {
      TrailingZerosPow2(t);
    } else {
      SplitOfPow2(t);
      var k := Pow2(t - 1);
      if m <= k {
        CompleteRecoverLeft(sha, m, Pow2(t), k, t - 1, z, Drop(m - 1, z), seed, siblings);
      } else {
        MaskPastSplit(m, m - k, t - 1, z);
        CompleteRecoverRight(sha, m, Pow2(t), m - k, k, t - 1, z, Drop(m - 1, z), Drop(m - k - 1, z), seed, siblings);
      }
    }
  }

  lemma {:induction false} CompleteRecoverLeft(
      sha: Sha, m: nat, n: nat, k: nat, e: nat, z: nat, mask: nat, seed: Hash, siblings: seq<Hash>)
    requires 0 < m <= k == Pow2(e) && n == k + k && Split(n) == k && |siblings| == Levels(m, n)
    requires z == TrailingZeros(m) && mask == Drop(m - 1, z)
    ensures z <= e && |siblings| == e + 1 - z
    ensures Recover(sha, m, n, seed, siblings)
            == Roots(ChainInnerRight(sha, seed, siblings, mask), ChainInner(sha, seed, siblings, mask))
    decreases e, 2
  {
    CompleteRecover(sha, m, e, z, seed, Init(siblings));
    DropFits(m - 1, e, z);
    ChainTopClear(sha, seed, siblings, mask, e - z);
  }

  lemma {:induction false} CompleteRecoverRight(
      sha: Sha, m: nat, n: nat, i: nat, k: nat, e: nat, z: nat, mask: nat, low: nat, seed: Hash, siblings: seq<Hash>)
    requires m == i + k && 0 < i < k == Pow2(e) && n == k + k && Split(n) == k && |siblings| == Levels(m, n)
    requires z == TrailingZeros(i) <= e && low == Drop(i - 1, z) < Pow2(e - z) && mask == low + Pow2(e - z)
    ensures |siblings| == e + 1 - z
    ensures Recover(sha, m, n, seed, siblings)
            == Roots(ChainInnerRight(sha, seed, siblings, mask), ChainInner(sha, seed, siblings, mask))
    decreases e, 2
  {
    RecoverUnfold(sha, m, n, k, i, k, seed, siblings);
    CompleteRecover(sha, i, e, z, seed, Init(siblings));
    ChainTopSet(sha, seed, siblings, mask, low, e - z);
  }

  /** Past the split the same low digits are zero, and the mask loses one bit. */
  lemma {:induction false} MaskPastSplit(m: nat, i: nat, t: nat, z: nat)
    requires m == i + Pow2(t) && 0 < i < Pow2(t) && z == TrailingZeros(m)
    ensures z == TrailingZeros(i) < t
    ensures Drop(m - 1, z) == Drop(i - 1, z) + Pow2(t - z)
    ensures Drop(i - 1, z) < Pow2(t - z)
  {
    TrailingZerosTop(i, t);
    DropTop(i - 1, t, z);
    DropFits(i - 1, t, z);
  }

  /** The verifier's count of siblings never goes below zero and is the number
      the descent meets. */
  lemma {:induction false} LevelsByBits(m: nat, n: nat, z: nat, inner: nat)
    requires 0 < m < n && z == TrailingZeros(m) && inner == BitLen(Xor(m - 1, n - 1))
    ensures z < inner
    ensures Levels(m, n) == inner - z + CountOnes(Drop(m - 1, inner))
    decreases n, 1
  {
    var t := SplitExponent(n);
    if m <= Split(n) {
      LevelsLeft(m, n, t, z, inner);
    } else {
      LevelsRight(m, n, m - Split(n), n - Split(n), t, z, inner);
    }
  }

  lemma {:induction false} LevelsLeft(m: nat, n: nat, t: nat, z: nat, inner: nat)
    requires 0 < m <= Pow2(t) < n && n > 1 && Split(n) == Pow2(t)
    requires z == TrailingZeros(m) && inner == BitLen(Xor(m - 1, n - 1))
    ensures z < inner
    ensures Levels(m, n) == inner - z + CountOnes(Drop(m - 1, inner))
  {
    TurnsLeft(m - 1, n, t);
    LevelsInComplete(m, t, z);
  }

  lemma {:induction false} LevelsRight(m: nat, n: nat, i: nat, j: nat, t: nat, z: nat, inner: nat)
    requires 0 < i < j <= Pow2(t) && n > 1 && Split(n) == Pow2(t) && m == i + Pow2(t) && n == j + Pow2(t)
    requires z == TrailingZeros(m) && inner == BitLen(Xor(m - 1, n - 1))
    ensures z < inner
    ensures Levels(m, n) == inner - z + CountOnes(Drop(m - 1, inner))
    decreases n, 0
  {
    TurnsPastSplit(m, n, i, j, t, z, inner);
    LevelsByBits(i, j, z, inner);
    LevelsUnfold(m, n, i, j, Pow2(t));
  }

  lemma {:induction false} LevelsUnfold(m: nat, n: nat, i: nat, j: nat, k: nat)
    requires 0 < i < j && n > 1 && Split(n) == k && m == i + k && n == j + k
    ensures Levels(m, n) == 1 + Levels(i, j)
  {
    assert m - k == i && n - k == j;
  }

  /** Past the split the turning levels are the same, and the border is one
      shorter. */
  lemma {:induction false} TurnsPastSplit(m: nat, n: nat, i: nat, j: nat, t: nat, z: nat, inner: nat)
    requires m == i + Pow2(t) && n == j + Pow2(t) && 0 < i < j <= Pow2(t)
    requires z == TrailingZeros(m) && inner == BitLen(Xor(m - 1, n - 1))
    ensures z == TrailingZeros(i) && inner == BitLen(Xor(i - 1, j - 1)) <= t
    ensures CountOnes(Drop(m - 1, inner)) == CountOnes(Drop(i - 1, inner)) + 1
  {
    TrailingZerosTop(i, t);
    assert m - 1 == i - 1 + Pow2(t) && n - 1 == j - 1 + Pow2(t);
    TurnsRight(i - 1, j, t);
  }

  lemma {:induction false} LevelsInComplete(m: nat, t: nat, z: nat)
    requires 0 < m <= Pow2(t) && z == TrailingZeros(m)
    ensures z <= t && Levels(m, Pow2(t)) == t - z
    decreases t
  {
    if m == Pow2(t) {
      TrailingZerosPow2(t);
    } else {
      SplitOfPow2(t);
      var k := Pow2(t - 1);
      if m <= k {
        LevelsInComplete(m, t - 1, z);
      } else {
        TrailingZerosTop(m - k, t - 1);
        LevelsInComplete(m - k, t - 1, z);
      }
    }
  }

  lemma {:induction false} PartsPastSplit(m: nat, n: nat, i: nat, j: nat, t: nat, z: nat, inner: nat)
    requires m == i + Pow2(t) && n == j + Pow2(t) && 0 < i < j <= Pow2(t)
    requires z == TrailingZeros(m) && inner == BitLen(Xor(m - 1, n - 1))
    ensures z == TrailingZeros(i) && inner == BitLen(Xor(i - 1, j - 1)) && z <= inner <= t
    ensures inner - z <= Levels(i, j)
    ensures Drop(m - 1, z) == Drop(i - 1, z) + Pow2(t - z)
  {
    TurnsPastSplit(m, n, i, j, t, z, inner);
    MaskPastSplit(m, i, t, z);
    LevelsByBits(i, j, z, inner);
  }

  /** Both roots in two straight passes: the first `cut` siblings by the bits of
      the mask, the rest always on the left. */
  ghost function FoldBoth(sha: Sha, seed: Hash, siblings: seq<Hash>, cut: nat, mask: nat): Roots
    requires cut <= |siblings|
  {
    Roots(ChainBorderRight(sha, ChainInnerRight(sha, seed, siblings[..cut], mask), siblings[cut..]),
          ChainBorderRight(sha, ChainInner(sha, seed, siblings[..cut], mask), siblings[cut..]))
  }

  /** Folding the two parts gives both roots the descent recovers. */
  lemma {:induction false} FoldIsRecover(
      sha: Sha, m: nat, n: nat, z: nat, inner: nat, cut: nat, mask: nat, seed: Hash, siblings: seq<Hash>)
    requires 0 < m < n && z == TrailingZeros(m) && inner == BitLen(Xor(m - 1, n - 1)) && inner == z + cut
    requires mask == Drop(m - 1, z) && |siblings| == Levels(m, n) && cut <= |siblings|
    ensures Recover(sha, m, n, seed, siblings) == FoldBoth(sha, seed, siblings, cut, mask)
    decreases n, 1
  {
    var t := SplitExponent(n);
    if m <= Split(n) {
      FoldIsRecoverLeft(sha, m, n, t, z, inner, cut, mask, seed, siblings);
    } else {
      FoldIsRecoverPast(sha, m, n, m - Split(n), n - Split(n), t, z, inner, cut, mask, seed, siblings);
    }
  }

  lemma {:induction false} FoldIsRecoverPast(
      sha: Sha, m: nat, n: nat, i: nat, j: nat, t: nat, z: nat, inner: nat, cut: nat, mask: nat, seed: Hash,
      siblings: seq<Hash>)
    requires 0 < i < j <= Pow2(t) && n > 1 && Split(n) == Pow2(t) && m == i + Pow2(t) && n == j + Pow2(t)
    requires z == TrailingZeros(m) && inner == BitLen(Xor(m - 1, n - 1)) && inner == z + cut
    requires mask == Drop(m - 1, z) && |siblings| == Levels(m, n)
    ensures cut <= |siblings|
    ensures Recover(sha, m, n, seed, siblings) == FoldBoth(sha, seed, siblings, cut, mask)
    decreases n, 0, 1
  {
    PartsPastSplit(m, n, i, j, t, z, inner);
    FoldIsRecoverRight(sha, m, n, i, j, Pow2(t), z, inner, cut, mask, Drop(i - 1, z), t - z, seed, siblings);
  }

  lemma {:induction false} FoldIsRecoverLeft(
      sha: Sha, m: nat, n: nat, t: nat, z: nat, inner: nat, cut: nat, mask: nat, seed: Hash, siblings: seq<Hash>)
    requires 0 < m <= Pow2(t) < n && Split(n) == Pow2(t) && z == TrailingZeros(m)
    requires inner == BitLen(Xor(m - 1, n - 1)) && inner == z + cut
    requires mask == Drop(m - 1, z) && |siblings| == Levels(m, n) && cut <= |siblings|
    ensures Recover(sha, m, n, seed, siblings) == FoldBoth(sha, seed, siblings, cut, mask)
  {
    TurnsLeft(m - 1, n, t);
    CompleteRecover(sha, m, t, z, seed, Init(siblings));
    DropFits(m - 1, t, z);
    ChainTopClear(sha, seed, siblings, mask, t - z);
    assert siblings[..cut] == siblings;
  }

  lemma {:induction false} FoldIsRecoverRight(
      sha: Sha, m: nat, n: nat, i: nat, j: nat, k: nat, z: nat, inner: nat, cut: nat, mask: nat, low: nat, e: nat,
      seed: Hash, siblings: seq<Hash>)
    requires 0 < i < j && n > 1 && Split(n) == k > 0 && m == i + k && n == j + k && |siblings| == Levels(m, n)
    requires z == TrailingZeros(i) && inner == BitLen(Xor(i - 1, j - 1)) == z + cut && cut <= Levels(i, j)
    requires low == Drop(i - 1, z) && mask == low + Pow2(e) && cut <= e
    ensures cut <= |siblings|
    ensures Recover(sha, m, n, seed, siblings) == FoldBoth(sha, seed, siblings, cut, mask)
    decreases n, 0, 0
  {
    RecoverUnfold(sha, m, n, k, i, j, seed, siblings);
    FoldIsRecover(sha, i, j, z, inner, cut, low, seed, Init(siblings));
    FoldPastSplit(sha, seed, siblings, cut, mask, low, e);
  }

  /** Both folds over the parts gain the sibling on top as their last step. */
  lemma {:induction false} FoldPastSplit(
      sha: Sha, seed: Hash, siblings: seq<Hash>, cut: nat, mask: nat, low: nat, e: nat)
    requires cut < |siblings| && cut <= e && mask == low + Pow2(e)
    ensures var below := FoldBoth(sha, seed, Init(siblings), cut, low);
            FoldBoth(sha, seed, siblings, cut, mask)
            == Roots(NodeHash(sha, Last(siblings), below.old_), NodeHash(sha, Last(siblings), below.new_))
  {
    var rest := Init(siblings);
    ChainInnerIgnoresTop(sha, seed, rest[..cut], low, e);
    BorderTop(sha, ChainInnerRight(sha, seed, rest[..cut], low), siblings, cut);
    BorderTop(sha, ChainInner(sha, seed, rest[..cut], low), siblings, cut);
  }

  // -------------------------------------------------------------- the verifier

  method VerifyConsistency(sha: Sha, m: U64, n: U64, oldRoot: Hash, newRoot: Hash, proof: seq<Hash>)
    returns (ok: bool)
    ensures ok <==> Consistent(sha, m, n, oldRoot, newRoot, proof)
  {
    if m > n {
      return false;
    }
    if m == n {
      return proof == [] && oldRoot == newRoot;
    }
    if m == 0 {
      return proof == [];
    }
    if proof == [] {
      LevelsByBits(m, n, TrailingZeros(m), BitLen(Xor(m - 1, n - 1)));
      return false;
    }
    var Parts(all, border) := Decompose(m - 1, n);
    var shift := TrailingZeros(m);
    LevelsByBits(m, n, shift, all);
    var inner := all - shift;
    IsPow2ByShift(m);
    var seed, start := oldRoot, 0;
    if m != OneShl(shift) {
      seed, start := proof[0], 1;
    }
    if |proof| != start + inner + border {
      return false;
    }
    var rest := proof[start..];
    var innerPart, borderPart := rest[..inner], rest[inner..];
    var mask := Shr(m - 1, shift);
    FoldIsRecover(sha, m, n, shift, all, inner, mask, seed, rest);
    var oldInner := FoldInnerRight(sha, seed, innerPart, mask);
    var recomputedOld := FoldBorderRight(sha, oldInner, borderPart);
    var newInner := FoldInner(sha, seed, innerPart, mask);
    var recomputedNew := FoldBorderRight(sha, newInner, borderPart);
    ok := recomputedOld == oldRoot && recomputedNew == newRoot;
  }
}
