/** The log as RFC 6962 section 2.1 writes it: which bytes are hashed, which
    siblings a path holds and in what order, and the verdicts these lead to. */
module LogBytes {
  import opened Bits
  import opened Hashing
  import opened Seqs
  import opened Log
  import opened Consistency

  // ------------------------------------------------------------------ tree hash

  /** Of no entry the digest of nothing, of one the digest of a zero and it. */
  lemma {:induction false} RootOfFew(sha: Sha, entry: Bytes)
    ensures Root(sha, LeafHashes(sha, [])) == sha([])
    ensures Root(sha, LeafHashes(sha, [entry])) == sha([0] + entry)
  {
    assert LeafHashes(sha, [entry]) == [LeafHash(sha, entry)];
  }

  lemma {:induction false} RootOfTwo(sha: Sha, a: Hash, b: Hash)
    ensures Root(sha, [a, b]) == sha([1] + a + b)
  {
    assert Split(2) == 1;
    assert [a, b][..1] == [a] && [a, b][1..] == [b];
  }

  /** Of more the digest of a one, the root of the first `Pow2(t)` and the root of
      the rest, where that is the largest power of two below their number. */
  lemma {:induction false} RootAtPower(sha: Sha, leaves: seq<Hash>, t: nat)
    requires Pow2(t) < |leaves| <= 2 * Pow2(t)
    ensures Root(sha, leaves) == sha([1] + Root(sha, leaves[..Pow2(t)]) + Root(sha, leaves[Pow2(t)..]))
  {
    SplitUnique(|leaves|, t);
  }

  // ------------------------------------------------------------------- inclusion

  /** The verdict on the two leaves of a tree of two. */
  lemma {:induction false} VerdictOfTwo(sha: Sha, a: Hash, b: Hash, root: Hash)
    ensures Included(sha, a, 0, 2, [b], root) <==> sha([1] + a + b) == root
    ensures Included(sha, b, 1, 2, [a], root) <==> sha([1] + a + b) == root
  {
    assert Split(2) == 1 && Depth(0, 1) == 0 && Depth(0, 2) == 1 && Depth(1, 2) == 1;
    assert Init([b]) == [] && Init([a]) == [];
    assert Rebuild(sha, a, 0, 1, []) == a && Rebuild(sha, b, 0, 1, []) == b;
    assert Rebuild(sha, a, 0, 2, [b]) == NodeHash(sha, a, b);
    assert Rebuild(sha, b, 1, 2, [a]) == NodeHash(sha, a, b);
  }

  /** Over a left part of `k` leaves, the last of the path is the right part's root. */
  ghost predicate BelowLeft(sha: Sha, leaf: Hash, index: nat, path: seq<Hash>, root: Hash, k: nat)
    requires path != []
  {
    exists l: Hash :: Included(sha, leaf, index, k, Init(path), l) && sha([1] + l + Last(path)) == root
  }

  /** And over the right part it is the left part's. */
  ghost predicate BelowRight(sha: Sha, leaf: Hash, index: nat, size: nat, path: seq<Hash>, root: Hash, k: nat)
    requires path != [] && k <= index && k <= size
  {
    exists r: Hash :: Included(sha, leaf, index - k, size - k, Init(path), r) && sha([1] + Last(path) + r) == root
  }

  /** A path below `Pow2(t)` ends in the root of the right part, one from there on in
      the root of the left; what comes before it is a path in the leaf's own part. */
  lemma {:induction false} VerdictAtPower(
      sha: Sha, leaf: Hash, index: nat, size: nat, path: seq<Hash>, root: Hash, t: nat)
    requires Pow2(t) < size <= 2 * Pow2(t)
    ensures index < Pow2(t) ==>
      (Included(sha, leaf, index, size, path, root) <==> path != [] && BelowLeft(sha, leaf, index, path, root, Pow2(t)))
    ensures Pow2(t) <= index ==>
      (Included(sha, leaf, index, size, path, root) <==>
       path != [] && BelowRight(sha, leaf, index, size, path, root, Pow2(t)))
  {
    SplitUnique(size, t);
    var k := Pow2(t);
    if index < k && path != [] && |path| == Depth(index, size) {
      assert Included(sha, leaf, index, k, Init(path), Rebuild(sha, leaf, index, k, Init(path)));
    }
    if k <= index < size && path != [] && |path| == Depth(index, size) {
      assert Included(sha, leaf, index - k, size - k, Init(path), Rebuild(sha, leaf, index - k, size - k, Init(path)));
    }
  }

  /** An index past the end has no path and is in no tree. */
  lemma {:induction false} PastTheEnd(sha: Sha, leaves: seq<Hash>, leaf: Hash, index: nat, path: seq<Hash>, root: Hash)
    requires |leaves| <= index
    ensures InclusionProof(sha, leaves, index) == [] && !Included(sha, leaf, index, |leaves|, path, root)
  {
  }

  // ----------------------------------------------------------------- consistency

  /** The verdicts that need no tree: sizes out of order, equal, or from nothing. */
  lemma {:induction false} VerdictAtEnds(sha: Sha, m: nat, n: nat, oldRoot: Hash, newRoot: Hash, proof: seq<Hash>)
    ensures n < m ==> !Consistent(sha, m, n, oldRoot, newRoot, proof)
    ensures Consistent(sha, n, n, oldRoot, newRoot, proof) <==> proof == [] && oldRoot == newRoot
    ensures 0 < n ==> (Consistent(sha, 0, n, oldRoot, newRoot, proof) <==> proof == [])
  {
  }

  /** From one leaf to two the proof is the second. */
  lemma {:induction false} VerdictOneToTwo(sha: Sha, oldRoot: Hash, newRoot: Hash, b: Hash)
    ensures Consistent(sha, 1, 2, oldRoot, newRoot, [b]) <==> sha([1] + oldRoot + b) == newRoot
  {
    assert Split(2) == 1 && Levels(1, 1) == 0 && Levels(1, 2) == 1;
    assert Init([b]) == [];
    assert Recover(sha, 1, 1, oldRoot, []) == Roots(oldRoot, oldRoot);
    assert Recover(sha, 1, 2, oldRoot, [b]) == Roots(oldRoot, NodeHash(sha, oldRoot, b));
  }

  /** From two to three it is the third; from three to four it is the third leaf,
      which both trees share, the fourth, and the root of the first two. */
  lemma {:induction false} VerdictOfFew(sha: Sha, oldRoot: Hash, newRoot: Hash, c: Hash, d: Hash, g: Hash)
    ensures Consistent(sha, 2, 3, oldRoot, newRoot, [c]) <==> sha([1] + oldRoot + c) == newRoot
    ensures Consistent(sha, 3, 4, oldRoot, newRoot, [c, d, g]) <==>
            sha([1] + g + c) == oldRoot && sha([1] + g + sha([1] + c + d)) == newRoot
  {
    assert Split(2) == 1 && Split(3) == 2 && Split(4) == 2;
    assert Levels(2, 2) == 0 && Levels(2, 3) == 1 && Levels(1, 1) == 0 && Levels(1, 2) == 1 && Levels(3, 4) == 2;
    assert Init([c]) == [] && Recover(sha, 2, 2, oldRoot, []) == Roots(oldRoot, oldRoot);
    assert Recover(sha, 2, 3, oldRoot, [c]) == Roots(oldRoot, NodeHash(sha, oldRoot, c));
    assert !IsPow2(3) && IsPow2(2) && [c, d, g][1..] == [d, g];
    assert Init([d, g]) == [d] && Init([d]) == [];
    assert Recover(sha, 1, 1, c, []) == Roots(c, c);
    assert Recover(sha, 1, 2, c, [d]) == Roots(c, NodeHash(sha, c, d));
    assert Recover(sha, 3, 4, c, [d, g]) == Roots(NodeHash(sha, g, c), NodeHash(sha, g, NodeHash(sha, c, d)));
  }

  // -------------------------------------------------- the example of section 2.1.3

  /** Its seven leaves, and the nodes above them by the letters it gives them. */
  datatype Example = Example(a: Hash, b: Hash, c: Hash, d: Hash, e: Hash, f: Hash, j: Hash)

  function Leaves(x: Example): seq<Hash> {
    [x.a, x.b, x.c, x.d, x.e, x.f, x.j]
  }

  lemma {:induction false} Halves(sha: Sha, x: Example)
    ensures Split(7) == 4 && Split(4) == 2 && Split(3) == 2 && Split(2) == 1
    ensures Leaves(x)[..4] == [x.a, x.b, x.c, x.d] && Leaves(x)[4..] == [x.e, x.f, x.j]
    ensures [x.a, x.b, x.c, x.d][..2] == [x.a, x.b] && [x.a, x.b, x.c, x.d][2..] == [x.c, x.d]
    ensures [x.e, x.f, x.j][..2] == [x.e, x.f] && [x.e, x.f, x.j][2..] == [x.j]
  {
  }

  lemma {:induction false} ExampleRoots(sha: Sha, x: Example)
    ensures var g, h, i := sha([1] + x.a + x.b), sha([1] + x.c + x.d), sha([1] + x.e + x.f);
      var k, l := sha([1] + g + h), sha([1] + i + x.j);
      && Root(sha, [x.a, x.b, x.c, x.d]) == k
      && Root(sha, [x.e, x.f, x.j]) == l
      && Root(sha, Leaves(x)) == sha([1] + k + l)
  {
    Halves(sha, x);
    RootOfTwo(sha, x.a, x.b);
    RootOfTwo(sha, x.c, x.d);
    RootOfTwo(sha, x.e, x.f);
  }

  lemma {:induction false} PathsOfTwo(sha: Sha, a: Hash, b: Hash)
    ensures InclusionProof(sha, [a, b], 0) == [b] && InclusionProof(sha, [a, b], 1) == [a]
  {
    assert Split(2) == 1 && [a, b][..1] == [a] && [a, b][1..] == [b];
    assert InclusionProof(sha, [a], 0) == [] && InclusionProof(sha, [b], 0) == [];
  }

  lemma {:induction false} PathsOfFour(sha: Sha, a: Hash, b: Hash, c: Hash, d: Hash)
    ensures InclusionProof(sha, [a, b, c, d], 0) == [b, sha([1] + c + d)]
    ensures InclusionProof(sha, [a, b, c, d], 3) == [c, sha([1] + a + b)]
  {
    assert Split(4) == 2 && [a, b, c, d][..2] == [a, b] && [a, b, c, d][2..] == [c, d];
    RootOfTwo(sha, a, b);
    RootOfTwo(sha, c, d);
    PathsOfTwo(sha, a, b);
    PathsOfTwo(sha, c, d);
  }

  lemma {:induction false} PathsOfThree(sha: Sha, e: Hash, f: Hash, j: Hash)
    ensures InclusionProof(sha, [e, f, j], 0) == [f, j]
    ensures InclusionProof(sha, [e, f, j], 2) == [sha([1] + e + f)]
  {
    assert Split(3) == 2 && [e, f, j][..2] == [e, f] && [e, f, j][2..] == [j];
    RootOfTwo(sha, e, f);
    PathsOfTwo(sha, e, f);
    assert InclusionProof(sha, [j], 0) == [];
  }

  /** The audit paths it lists. */
  lemma {:induction false} ExamplePaths(sha: Sha, x: Example)
    ensures var g, h, i := sha([1] + x.a + x.b), sha([1] + x.c + x.d), sha([1] + x.e + x.f);
      var k, l := sha([1] + g + h), sha([1] + i + x.j);
      && InclusionProof(sha, Leaves(x), 0) == [x.b, h, l]
      && InclusionProof(sha, Leaves(x), 3) == [x.c, g, l]
      && InclusionProof(sha, Leaves(x), 4) == [x.f, x.j, k]
      && InclusionProof(sha, Leaves(x), 6) == [i, k]
  {
    Halves(sha, x);
    ExampleRoots(sha, x);
    PathsOfFour(sha, x.a, x.b, x.c, x.d);
    PathsOfThree(sha, x.e, x.f, x.j);
  }

  lemma {:induction false} SubproofsOfTwo(sha: Sha, a: Hash, b: Hash, start: bool)
    ensures Subproof(sha, [a, b], 1, start) == (if start then [] else [a]) + [b]
  {
    assert Split(2) == 1 && [a, b][..1] == [a] && [a, b][1..] == [b];
  }

  /** The consistency proofs it lists. */
  lemma {:induction false} ExampleConsistency(sha: Sha, x: Example)
    ensures var g, h, i := sha([1] + x.a + x.b), sha([1] + x.c + x.d), sha([1] + x.e + x.f);
      var k, l := sha([1] + g + h), sha([1] + i + x.j);
      && ConsistencyProof(sha, Leaves(x), 3) == [x.c, x.d, g, l]
      && ConsistencyProof(sha, Leaves(x), 4) == [l]
      && ConsistencyProof(sha, Leaves(x), 6) == [i, x.j, k]
  {
    Halves(sha, x);
    ExampleRoots(sha, x);
    RootOfTwo(sha, x.a, x.b);
    RootOfTwo(sha, x.e, x.f);
    SubproofsOfTwo(sha, x.c, x.d, false);
    assert Subproof(sha, [x.a, x.b, x.c, x.d], 3, true) == [x.c, x.d] + [Root(sha, [x.a, x.b])];
    assert Subproof(sha, [x.a, x.b, x.c, x.d], 4, true) == [];
    assert Subproof(sha, [x.e, x.f], 2, false) == [Root(sha, [x.e, x.f])];
    assert Subproof(sha, [x.e, x.f, x.j], 2, false) == [Root(sha, [x.e, x.f])] + [x.j];
  }

  /** Nothing is proved of a tree of nothing, of the tree itself, or of a larger one. */
  lemma {:induction false} NothingToProve(sha: Sha, leaves: seq<Hash>, m: nat)
    requires m == 0 || |leaves| <= m
    ensures ConsistencyProof(sha, leaves, m) == []
  {
  }
}
