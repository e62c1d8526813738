/** Sorted membership with proofs of presence and of absence.

    A proof carries its own claim of how many members there are, which no root
    commits to; everything below holds whatever that claim is. */
module Membership {
  import opened Bits
  import opened Hashing
  import opened Seqs
  import opened Ordering
  import opened Log
  import opened Wrappers

  /** A generation's members, in sorted order. */
  datatype Membership = Membership(members: seq<Bytes>)

  ghost predicate Valid(m: Membership) {
    Increasing(m.members)
  }

  /** A present member shown beside an absent one. */
  datatype Neighbour = Neighbour(index: U64, value: Bytes, path: seq<Hash>)

  datatype Proof =
    | Present(index: U64, size: U64, path: seq<Hash>)
    | Absent(before: Option<Neighbour>, after: Option<Neighbour>, size: U64)

  function New(items: seq<Bytes>): (m: Membership)
    ensures Valid(m)
    ensures forall x :: x in m.members <==> x in items
  {
    SortSorts(items);
    DedupDistinct(Sort(items));
    Membership(Dedup(Sort(items)))
  }

  function MembershipRoot(sha: Sha, m: Membership): Hash {
    Root(sha, LeafHashes(sha, m.members))
  }

  /** Every string hashed for the root is in `q`. */
  ghost predicate MembershipHashedIn(sha: Sha, m: Membership, q: set<Bytes>) {
    EntriesHashedIn(sha, m.members, q)
  }

  // ------------------------------------------------------------------- prover

  /** Where `x` is, or where it would be inserted. */
  datatype Position = Found(index: nat) | Insertion(index: nat)

  function Search(s: seq<Bytes>, x: Bytes): (p: Position)
    requires Increasing(s)
    ensures p.Found? ==> p.index < |s| && s[p.index] == x
    ensures p.Insertion? ==> p.index <= |s| && x !in s
    ensures p.Insertion? ==> forall i :: 0 <= i < p.index ==> Less(s[i], x)
    ensures p.Insertion? ==> forall i :: p.index <= i < |s| ==> Less(x, s[i])
  {
    if s == [] then Insertion(0)
    else if s[0] == x then Found(0)
    else if Less(x, s[0]) then
      BelowAll(s, x);
      Insertion(0)
    else
      LessTotal(s[0], x);
      assert s == [s[0]] + s[1..];
      match Search(s[1..], x)
      case Found(i) => Found(i + 1)
      case Insertion(i) => Insertion(i + 1)
  }

  lemma {:induction false} BelowAll(s: seq<Bytes>, x: Bytes)
    requires Increasing(s) && s != [] && Less(x, s[0])
    ensures forall i :: 0 <= i < |s| ==> Less(x, s[i])
    ensures x !in s
  {
    forall i | 0 <= i < |s| ensures Less(x, s[i]) && x != s[i] {
      if i > 0 {
        LessTransitive(x, s[0], s[i]);
      }
      LessAsymmetric(x, s[i]);
    }
  }

  function Shown(sha: Sha, m: Membership, index: nat): Neighbour
    requires index < |m.members| < 0x1_0000_0000_0000_0000
  {
    Neighbour(index, m.members[index], InclusionProof(sha, LeafHashes(sha, m.members), index))
  }

  function Prove(sha: Sha, m: Membership, member: Bytes): Proof
    requires Valid(m) && |m.members| < 0x1_0000_0000_0000_0000
  {
    match Search(m.members, member)
    case Found(index) =>
      Present(index, |m.members|, InclusionProof(sha, LeafHashes(sha, m.members), index))
    case Insertion(i) =>
      Absent(if i > 0 then Some(Shown(sha, m, i - 1)) else None,
             if i < |m.members| then Some(Shown(sha, m, i)) else None,
             |m.members|)
  }

  // ----------------------------------------------------------------- verifier

  ghost predicate EntryIncluded(sha: Sha, value: Bytes, index: nat, size: nat, path: seq<Hash>, root: Hash) {
    Included(sha, LeafHash(sha, value), index, size, path, root)
  }

  ghost predicate Shows(sha: Sha, entry: Option<Neighbour>, size: nat, root: Hash) {
    entry.Some? ==> EntryIncluded(sha, entry.value.value, entry.value.index, size, entry.value.path, root)
  }

  /** The neighbours are adjacent and the value lies strictly between them. */
  ghost predicate Brackets(before: Option<Neighbour>, after: Option<Neighbour>, size: nat, member: Bytes) {
    match (before, after)
    case (Some(b), Some(a)) => a.index == b.index + 1 && Less(b.value, member) && Less(member, a.value)
    case (None, Some(a)) => a.index == 0 && Less(member, a.value)
    case (Some(b), None) => b.index + 1 == size && Less(b.value, member)
    case (None, None) => false
  }

  ghost predicate Accepts(sha: Sha, member: Bytes, proof: Proof, root: Hash) {
    match proof
    case Present(index, size, path) => EntryIncluded(sha, member, index, size, path, root)
    case Absent(before, after, size) =>
      if size == 0 then before == None && after == None && root == EmptyRoot(sha)
      else Shows(sha, before, size, root) && Shows(sha, after, size, root) && Brackets(before, after, size, member)
  }

  method Check(sha: Sha, entry: Option<Neighbour>, size: U64, expectedRoot: Hash) returns (ok: bool)
    ensures ok <==> Shows(sha, entry, size, expectedRoot)
  {
    match entry
    case None => ok := true;
    case Some(e) => ok := VerifyInclusion(sha, LeafHash(sha, e.value), e.index, size, e.path, expectedRoot);
  }

  method Verify(sha: Sha, member: Bytes, proof: Proof, expectedRoot: Hash) returns (ok: bool)
    ensures ok <==> Accepts(sha, member, proof, expectedRoot)
  {
    match proof
    case Present(index, size, path) =>
      ok := VerifyInclusion(sha, LeafHash(sha, member), index, size, path, expectedRoot);
    case Absent(before, after, size) =>
      if size == 0 {
        return before == None && after == None && expectedRoot == EmptyRoot(sha);
      }
      var first := Check(sha, before, size, expectedRoot);
      var second := Check(sha, after, size, expectedRoot);
      if !first || !second {
        return false;
      }
      match (before, after) {
        case (Some(b), Some(a)) => ok := a.index == b.index + 1 && Less(b.value, member) && Less(member, a.value);
        case (None, Some(a)) => ok := a.index == 0 && Less(member, a.value);
        case (Some(b), None) => ok := b.index + 1 == size && Less(b.value, member);
        case (None, None) => ok := false;
      }
  }

  // -------------------------------------------------------------- completeness

  lemma {:induction false} ShownIncluded(sha: Sha, m: Membership, index: nat)
    requires index < |m.members| < 0x1_0000_0000_0000_0000
    ensures Shows(sha, Some(Shown(sha, m, index)), |m.members|, MembershipRoot(sha, m))
  {
    InclusionComplete(sha, LeafHashes(sha, m.members), index);
  }

  /** Every proof the prover makes is accepted, and it proves presence exactly
      for members. */
  lemma {:induction false} ProveAccepted(sha: Sha, m: Membership, member: Bytes)
    requires Valid(m) && |m.members| < 0x1_0000_0000_0000_0000
    ensures Accepts(sha, member, Prove(sha, m, member), MembershipRoot(sha, m))
    ensures Prove(sha, m, member).Present? <==> member in m.members
  {
    match Search(m.members, member) {
      case Found(index) =>
        ShownIncluded(sha, m, index);
      case Insertion(i) =>
        if i > 0 {
          ShownIncluded(sha, m, i - 1);
        }
        if i < |m.members| {
          ShownIncluded(sha, m, i);
        }
    }
  }

  // ----------------------------------------- what a path says of a real tree

  /** A real tree whose root is an interior hash has two halves under it. */
  lemma {:induction false} UnderNode(sha: Sha, q: set<Bytes>, entries: seq<Bytes>, l: Hash, r: Hash)
    requires Root(sha, LeafHashes(sha, entries)) == NodeHash(sha, l, r)
    requires NodeBytes(l, r) in q && EntriesHashedIn(sha, entries, q) && CollisionFree(sha, q)
    ensures |entries| > 1
    ensures var k := Split(|entries|);
            && l == Root(sha, LeafHashes(sha, entries[..k])) && r == Root(sha, LeafHashes(sha, entries[k..]))
            && EntriesHashedIn(sha, entries[..k], q) && EntriesHashedIn(sha, entries[k..], q)
  {
    RootKind(sha, q, entries);
    RootTag(sha, entries);
    assert Separates(sha, RootBytes(sha, entries), NodeBytes(l, r));
    assert Tag(NodeBytes(l, r)) == 1;
    var k := Split(|entries|);
    EntryHalves(sha, q, entries);
    LeafHashesSplit(sha, entries, k);
    NodeBytesInjective(l, r, Root(sha, LeafHashes(sha, entries[..k])), Root(sha, LeafHashes(sha, entries[k..])));
  }

  /** A real tree whose root is a leaf hash is that one leaf. */
  lemma {:induction false} UnderLeaf(sha: Sha, q: set<Bytes>, entries: seq<Bytes>, value: Bytes)
    requires Root(sha, LeafHashes(sha, entries)) == LeafHash(sha, value)
    requires LeafBytes(value) in q && EntriesHashedIn(sha, entries, q) && CollisionFree(sha, q)
    ensures entries == [value]
  {
    RootKind(sha, q, entries);
    RootTag(sha, entries);
    assert Separates(sha, RootBytes(sha, entries), LeafBytes(value));
    assert Tag(LeafBytes(value)) == 0;
    LeafBytesInjective(value, entries[0]);
  }

  /** Every string hashed to check the entry is in `q`. */
  ghost predicate EntryHashedIn(sha: Sha, value: Bytes, index: nat, size: nat, path: seq<Hash>, q: set<Bytes>) {
    && LeafBytes(value) in q
    && (index < size && |path| == Depth(index, size)
        ==> RebuildHashedIn(sha, LeafHash(sha, value), index, size, path, q))
  }

  /** A claimed position in a tree of any claimed size, against a real root. */
  ghost predicate Claim(
      sha: Sha, q: set<Bytes>, entries: seq<Bytes>, value: Bytes, index: nat, size: nat, path: seq<Hash>) {
    && EntryIncluded(sha, value, index, size, path, Root(sha, LeafHashes(sha, entries)))
    && EntryHashedIn(sha, value, index, size, path, q)
    && EntriesHashedIn(sha, entries, q)
  }

  /** One turn of the claimed descent is one turn in the real tree. */
  lemma {:induction false} ClaimLeft(
      sha: Sha, q: set<Bytes>, entries: seq<Bytes>, value: Bytes, index: nat, size: nat, k: nat, path: seq<Hash>)
    requires CollisionFree(sha, q) && Claim(sha, q, entries, value, index, size, path)
    requires size > 1 && k == Split(size) && index < k
    ensures |entries| > 1
    ensures Claim(sha, q, entries[..Split(|entries|)], value, index, k, Init(path))
    ensures Last(path) == Root(sha, LeafHashes(sha, entries[Split(|entries|)..]))
  {
    var leaf := LeafHash(sha, value);
    var l := Rebuild(sha, leaf, index, k, Init(path));
    UnderNode(sha, q, entries, l, Last(path));
  }

  lemma {:induction false} ClaimRight(
      sha: Sha, q: set<Bytes>, entries: seq<Bytes>, value: Bytes, index: nat, size: nat, k: nat, i: nat,
      j: nat, path: seq<Hash>)
    requires CollisionFree(sha, q) && Claim(sha, q, entries, value, index, size, path)
    requires size > 1 && k == Split(size) && index == k + i && size == k + j
    ensures |entries| > 1
    ensures Claim(sha, q, entries[Split(|entries|)..], value, i, j, Init(path))
    ensures Last(path) == Root(sha, LeafHashes(sha, entries[..Split(|entries|)]))
  {
    assert index - k == i && size - k == j;
    var leaf := LeafHash(sha, value);
    var r := Rebuild(sha, leaf, i, j, Init(path));
    UnderNode(sha, q, entries, Last(path), r);
  }

  /** The generated path for a real position. */
  ghost function PathTo(sha: Sha, entries: seq<Bytes>, at: nat): seq<Hash> {
    InclusionProof(sha, LeafHashes(sha, entries), at)
  }

  /** An accepted entry is a real member with its real path, whatever index and
      size it claims: the member reached by the same turns. */
  lemma {:induction false} ClaimPosition(
      sha: Sha, q: set<Bytes>, entries: seq<Bytes>, value: Bytes, index: nat, size: nat, path: seq<Hash>)
    returns (at: nat)
    requires CollisionFree(sha, q) && Claim(sha, q, entries, value, index, size, path)
    ensures at < |entries| && entries[at] == value && Sides(at, |entries|) == Sides(index, size)
    ensures path == PathTo(sha, entries, at)
    decreases size, 1
  {
    if size == 1 {
      UnderLeaf(sha, q, entries, value);
      at := 0;
    } else if index < Split(size) {
      at := ClaimPositionLeft(sha, q, entries, value, index, size, Split(size), path);
    } else {
      at := ClaimPositionRight(sha, q, entries, value, index, size, Split(size), index - Split(size),
        size - Split(size), path);
    }
  }

  lemma {:induction false} ClaimPositionLeft(
      sha: Sha, q: set<Bytes>, entries: seq<Bytes>, value: Bytes, index: nat, size: nat, k: nat, path: seq<Hash>)
    returns (at: nat)
    requires CollisionFree(sha, q) && Claim(sha, q, entries, value, index, size, path)
    requires size > 1 && k == Split(size) && index < k
    ensures at < |entries| && entries[at] == value && Sides(at, |entries|) == Sides(index, size)
    ensures path == PathTo(sha, entries, at)
    decreases size, 0
  {
    ClaimLeft(sha, q, entries, value, index, size, k, path);
    at := ClaimPosition(sha, q, entries[..Split(|entries|)], value, index, k, Init(path));
    Unsnoc(path);
    LeafHashesSplit(sha, entries, Split(|entries|));
  }

  lemma {:induction false} ClaimPositionRight(
      sha: Sha, q: set<Bytes>, entries: seq<Bytes>, value: Bytes, index: nat, size: nat, k: nat, i: nat,
      j: nat, path: seq<Hash>)
    returns (at: nat)
    requires CollisionFree(sha, q) && Claim(sha, q, entries, value, index, size, path)
    requires size > 1 && k == Split(size) && index == k + i && size == k + j
    ensures at < |entries| && entries[at] == value && Sides(at, |entries|) == Sides(index, size)
    ensures path == PathTo(sha, entries, at)
    decreases size, 0
  {
    ClaimRight(sha, q, entries, value, index, size, k, i, j, path);
    var l := Split(|entries|);
    var below := ClaimPosition(sha, q, entries[l..], value, i, j, Init(path));
    at := l + below;
    SidesRight(at, |entries|, below, |entries| - l);
    SidesRight(index, size, i, j);
    Unsnoc(path);
    LeafHashesSplit(sha, entries, l);
    PathRight(sha, entries, at, below, l);
  }

  lemma {:induction false} PathRight(sha: Sha, entries: seq<Bytes>, at: nat, below: nat, l: nat)
    requires |entries| > 1 && l == Split(|entries|) && at == l + below < |entries|
    ensures PathTo(sha, entries, at) == PathTo(sha, entries[l..], below) + [Root(sha, LeafHashes(sha, entries[..l]))]
  {
    LeafHashesSplit(sha, entries, l);
    assert at - l == below;
  }

  lemma {:induction false} SidesRight(index: nat, size: nat, i: nat, j: nat)
    requires size > 1 && i < j && index == Split(size) + i && size == Split(size) + j
    ensures Sides(index, size) == [Right] + Sides(i, j)
  {
    assert index - Split(size) == i && size - Split(size) == j;
  }

  /** The first position of any claimed size is the first real position. */
  lemma {:induction false} ClaimFirst(
      sha: Sha, q: set<Bytes>, entries: seq<Bytes>, value: Bytes, size: nat, path: seq<Hash>)
    requires CollisionFree(sha, q) && Claim(sha, q, entries, value, 0, size, path)
    ensures entries != [] && entries[0] == value
    decreases size
  {
    if size == 1 {
      UnderLeaf(sha, q, entries, value);
    } else {
      ClaimLeft(sha, q, entries, value, 0, size, Split(size), path);
      ClaimFirst(sha, q, entries[..Split(|entries|)], value, Split(size), Init(path));
    }
  }

  /** The last position of any claimed size is the last real position. */
  lemma {:induction false} ClaimLast(
      sha: Sha, q: set<Bytes>, entries: seq<Bytes>, value: Bytes, index: nat, size: nat, path: seq<Hash>)
    requires CollisionFree(sha, q) && index + 1 == size && Claim(sha, q, entries, value, index, size, path)
    ensures entries != [] && Last(entries) == value
    decreases size
  {
    if size == 1 {
      UnderLeaf(sha, q, entries, value);
    } else {
      var k := Split(size);
      ClaimRight(sha, q, entries, value, index, size, k, index - k, size - k, path);
      ClaimLast(sha, q, entries[Split(|entries|)..], value, index - k, size - k, Init(path));
    }
  }

  /** Neighbouring claimed positions are neighbouring real positions: below
      their last common turn one path runs down the right edge of the left
      subtree and the other down the left edge of the right subtree. */
  lemma {:induction false} ClaimAdjacent(
      sha: Sha, q: set<Bytes>, entries: seq<Bytes>, lower: Bytes, upper: Bytes, i: nat, j: nat, size: nat,
      p1: seq<Hash>, p2: seq<Hash>)
    returns (at: nat)
    requires CollisionFree(sha, q) && j == i + 1
    requires Claim(sha, q, entries, lower, i, size, p1) && Claim(sha, q, entries, upper, j, size, p2)
    ensures at + 1 < |entries| && entries[at] == lower && entries[at + 1] == upper
    decreases size, 1
  {
    var k := Split(size);
    if j < k {
      ClaimLeft(sha, q, entries, lower, i, size, k, p1);
      ClaimLeft(sha, q, entries, upper, j, size, k, p2);
      at := ClaimAdjacent(sha, q, entries[..Split(|entries|)], lower, upper, i, j, k, Init(p1), Init(p2));
    } else if k <= i {
      at := ClaimAdjacentRight(sha, q, entries, lower, upper, i, j, size, k, i - k, j - k, size - k, p1, p2);
    } else {
      at := ClaimAdjacentAcross(sha, q, entries, lower, upper, i, j, size, size - j, p1, p2);
    }
  }

  lemma {:induction false} ClaimAdjacentRight(
      sha: Sha, q: set<Bytes>, entries: seq<Bytes>, lower: Bytes, upper: Bytes, i: nat, j: nat, size: nat, k: nat,
      i': nat, j': nat, rest: nat, p1: seq<Hash>, p2: seq<Hash>)
    returns (at: nat)
    requires CollisionFree(sha, q) && j' == i' + 1 && size > 1 && k == Split(size)
    requires i == k + i' && j == k + j' && size == k + rest
    requires Claim(sha, q, entries, lower, i, size, p1) && Claim(sha, q, entries, upper, j, size, p2)
    ensures at + 1 < |entries| && entries[at] == lower && entries[at + 1] == upper
    decreases size, 0
  {
    ClaimRight(sha, q, entries, lower, i, size, k, i', rest, p1);
    ClaimRight(sha, q, entries, upper, j, size, k, j', rest, p2);
    at := ClaimAdjacent(sha, q, entries[Split(|entries|)..], lower, upper, i', j', rest, Init(p1), Init(p2));
    at := at + Split(|entries|);
  }

  lemma {:induction false} ClaimAdjacentAcross(
      sha: Sha, q: set<Bytes>, entries: seq<Bytes>, lower: Bytes, upper: Bytes, i: nat, k: nat, size: nat, rest: nat,
      p1: seq<Hash>, p2: seq<Hash>)
    returns (at: nat)
    requires CollisionFree(sha, q) && size > 1 && k == Split(size) == i + 1 && size == k + rest
    requires Claim(sha, q, entries, lower, i, size, p1) && Claim(sha, q, entries, upper, k, size, p2)
    ensures at + 1 < |entries| && entries[at] == lower && entries[at + 1] == upper
  {
    ClaimLeft(sha, q, entries, lower, i, size, k, p1);
    ClaimRight(sha, q, entries, upper, k, size, k, 0, rest, p2);
    ClaimLast(sha, q, entries[..Split(|entries|)], lower, i, k, Init(p1));
    ClaimFirst(sha, q, entries[Split(|entries|)..], upper, rest, Init(p2));
    at := Split(|entries|) - 1;
  }

  // ----------------------------------------------------------------- soundness

  /** Every string hashed to check the proof is in `q`. */
  ghost predicate ProofHashedIn(sha: Sha, member: Bytes, proof: Proof, q: set<Bytes>) {
    match proof
    case Present(index, size, path) => EntryHashedIn(sha, member, index, size, path, q)
    case Absent(before, after, size) =>
      && (size == 0 ==> [] in q)
      && (before.Some? ==> EntryHashedIn(sha, before.value.value, before.value.index, size, before.value.path, q))
      && (after.Some? ==> EntryHashedIn(sha, after.value.value, after.value.index, size, after.value.path, q))
  }

  lemma {:induction false} PresenceSound(sha: Sha, q: set<Bytes>, m: Membership, member: Bytes, proof: Proof)
    requires proof.Present? && Accepts(sha, member, proof, MembershipRoot(sha, m))
    requires MembershipHashedIn(sha, m, q) && ProofHashedIn(sha, member, proof, q) && CollisionFree(sha, q)
    ensures member in m.members
  {
    var at := ClaimPosition(sha, q, m.members, member, proof.index, proof.size, proof.path);
  }

  /** Between adjacent members there is none. */
  lemma {:induction false} NothingBetween(s: seq<Bytes>, at: nat, x: Bytes)
    requires Increasing(s) && at + 1 < |s| && Less(s[at], x) && Less(x, s[at + 1])
    ensures x !in s
  {
    forall i | 0 <= i < |s| ensures s[i] != x {
      LessAsymmetric(s[at], x);
      LessAsymmetric(x, s[at + 1]);
      if i < at {
        LessAsymmetric(s[i], s[at]);
      } else if i > at + 1 {
        LessAsymmetric(s[at + 1], s[i]);
      }
    }
  }

  lemma {:induction false} NothingAbove(s: seq<Bytes>, x: Bytes)
    requires Increasing(s) && s != [] && Less(Last(s), x)
    ensures x !in s
  {
    forall i | 0 <= i < |s| ensures s[i] != x {
      LessAsymmetric(Last(s), x);
      if i < |s| - 1 {
        LessAsymmetric(s[i], Last(s));
      }
    }
  }

  /** An accepted proof of absence is true, whatever size it claims. */
  lemma {:induction false} AbsenceSound(sha: Sha, q: set<Bytes>, m: Membership, member: Bytes, proof: Proof)
    requires Valid(m) && proof.Absent? && Accepts(sha, member, proof, MembershipRoot(sha, m))
    requires MembershipHashedIn(sha, m, q) && ProofHashedIn(sha, member, proof, q) && CollisionFree(sha, q)
    ensures member !in m.members
  {
    var s := m.members;
    if proof.size == 0 {
      RootKind(sha, q, s);
      RootTag(sha, s);
      assert Separates(sha, RootBytes(sha, s), []);
      assert Tag([]) == -1;
    } else {
      match (proof.before, proof.after) {
        case (Some(b), Some(a)) =>
          var at := ClaimAdjacent(sha, q, s, b.value, a.value, b.index, a.index, proof.size, b.path, a.path);
          NothingBetween(s, at, member);
        case (None, Some(a)) =>
          ClaimFirst(sha, q, s, a.value, proof.size, a.path);
          BelowAll(s, member);
        case (Some(b), None) =>
          ClaimLast(sha, q, s, b.value, b.index, proof.size, b.path);
          NothingAbove(s, member);
        case (None, None) =>
      }
    }
  }

  /** No value has both an accepted proof of presence and one of absence. */
  lemma {:induction false} NeverBoth(
      sha: Sha, q: set<Bytes>, m: Membership, member: Bytes, present: Proof, absent: Proof)
    requires Valid(m) && present.Present? && absent.Absent?
    requires Accepts(sha, member, present, MembershipRoot(sha, m))
    requires MembershipHashedIn(sha, m, q) && CollisionFree(sha, q)
    requires ProofHashedIn(sha, member, present, q) && ProofHashedIn(sha, member, absent, q)
    ensures !Accepts(sha, member, absent, MembershipRoot(sha, m))
  {
    PresenceSound(sha, q, m, member, present);
    if Accepts(sha, member, absent, MembershipRoot(sha, m)) {
      AbsenceSound(sha, q, m, member, absent);
    }
  }

  /** Equal roots are equal memberships. */
  lemma {:induction false} MembershipBinding(sha: Sha, q: set<Bytes>, a: Membership, b: Membership)
    requires MembershipRoot(sha, a) == MembershipRoot(sha, b)
    requires MembershipHashedIn(sha, a, q) && MembershipHashedIn(sha, b, q) && CollisionFree(sha, q)
    ensures a == b
  {
    EntriesBinding(sha, q, a.members, b.members);
  }

  /** Only what is listed matters, not its order or repeats. */
  lemma {:induction false} NewIsCanonical(a: seq<Bytes>, b: seq<Bytes>)
    ensures New(a) == New(b) <==> (forall x :: x in a <==> x in b)
  {
    if forall x :: x in a <==> x in b {
      IncreasingUnique(New(a).members, New(b).members);
    }
    forall x ensures New(a) == New(b) ==> (x in a <==> x in b) {
      assert (x in New(a).members <==> x in a) && (x in New(b).members <==> x in b);
    }
  }

  // --------------------------------------------------- what an index commits to

  lemma {:induction false} SidesInjective(i: nat, j: nat, size: nat)
    requires i < size && j < size && Sides(i, size) == Sides(j, size)
    ensures i == j
    decreases size
  {
    if size > 1 {
      var k, s, t := Split(size), Sides(i, size), Sides(j, size);
      assert s[0] == t[0] && s[1..] == t[1..];
      if i < k {
        assert s[1..] == Sides(i, k) && t[1..] == Sides(j, k);
        SidesInjective(i, j, k);
      } else {
        assert s[1..] == Sides(i - k, size - k) && t[1..] == Sides(j - k, size - k);
        SidesInjective(i - k, j - k, size - k);
      }
    }
  }

  /** The path and the turns decide; the numbers they come from do not. */
  lemma {:induction false} SameTurnsSameVerdict(
      sha: Sha, leaf: Hash, i: nat, m: nat, j: nat, n: nat, path: seq<Hash>, root: Hash)
    requires i < m && j < n && Sides(i, m) == Sides(j, n)
    ensures Included(sha, leaf, i, m, path, root) <==> Included(sha, leaf, j, n, path, root)
  {
    if |path| == Depth(i, m) {
      ClimbIsRebuild(sha, leaf, i, m, path);
      ClimbIsRebuild(sha, leaf, j, n, path);
    }
  }

  /** A claimed position of a real member: reached by the same turns as the member's
      own, and shown by the member's own path. */
  ghost predicate Stands(sha: Sha, m: Membership, value: Bytes, index: nat, size: nat, path: seq<Hash>) {
    exists at ::
      && 0 <= at < |m.members| && m.members[at] == value
      && index < size && Sides(at, |m.members|) == Sides(index, size)
      && path == InclusionProof(sha, LeafHashes(sha, m.members), at)
  }

  lemma {:induction false} EntryExact(
      sha: Sha, q: set<Bytes>, m: Membership, value: Bytes, index: nat, size: nat, path: seq<Hash>)
    requires MembershipHashedIn(sha, m, q) && EntryHashedIn(sha, value, index, size, path, q) && CollisionFree(sha, q)
    ensures EntryIncluded(sha, value, index, size, path, MembershipRoot(sha, m))
            <==> Stands(sha, m, value, index, size, path)
  {
    var leaves, leaf, n := LeafHashes(sha, m.members), LeafHash(sha, value), |m.members|;
    if EntryIncluded(sha, value, index, size, path, MembershipRoot(sha, m)) {
      var at := ClaimPosition(sha, q, m.members, value, index, size, path);
    }
    forall at | 0 <= at < n && m.members[at] == value && index < size
                && Sides(at, n) == Sides(index, size) && path == InclusionProof(sha, leaves, at)
      ensures EntryIncluded(sha, value, index, size, path, MembershipRoot(sha, m))
    {
      InclusionComplete(sha, leaves, at);
      SameTurnsSameVerdict(sha, leaf, index, size, at, n, path, Root(sha, leaves));
    }
  }

  /** Exactly which proofs of presence are accepted: those of a real member, with
      its own path, at any claimed position reached by the same turns. */
  lemma {:induction false} PresenceExact(sha: Sha, q: set<Bytes>, m: Membership, member: Bytes, proof: Proof)
    requires proof.Present?
    requires MembershipHashedIn(sha, m, q) && ProofHashedIn(sha, member, proof, q) && CollisionFree(sha, q)
    ensures Accepts(sha, member, proof, MembershipRoot(sha, m))
            <==> Stands(sha, m, member, proof.index, proof.size, proof.path)
  {
    EntryExact(sha, q, m, member, proof.index, proof.size, proof.path);
  }

  ghost predicate NeighbourStands(sha: Sha, m: Membership, entry: Option<Neighbour>, size: nat) {
    entry.Some? ==> Stands(sha, m, entry.value.value, entry.value.index, size, entry.value.path)
  }

  /** And which of absence: nothing shown of an empty membership said to be empty;
      or one real member claimed first and above the value, one claimed last and
      below it, or two claimed side by side with the value between them. */
  lemma {:induction false} AbsenceExact(
      sha: Sha, q: set<Bytes>, m: Membership, member: Bytes, before: Option<Neighbour>,
      after: Option<Neighbour>, size: U64)
    requires MembershipHashedIn(sha, m, q) && ProofHashedIn(sha, member, Absent(before, after, size), q)
    requires CollisionFree(sha, q)
    ensures size == 0 ==>
      (Accepts(sha, member, Absent(before, after, size), MembershipRoot(sha, m)) <==>
       before == None && after == None && m.members == [])
    ensures size > 0 ==>
      (Accepts(sha, member, Absent(before, after, size), MembershipRoot(sha, m)) <==>
       && NeighbourStands(sha, m, before, size) && NeighbourStands(sha, m, after, size)
       && (before.Some? || after.Some?)
       && (before.Some? ==> Less(before.value.value, member))
       && (after.Some? ==> Less(member, after.value.value))
       && (before.None? ==> after.value.index == 0)
       && (after.None? ==> before.value.index == size - 1)
       && (before.Some? && after.Some? ==> after.value.index == before.value.index + 1))
  {
    if size == 0 {
      RootKind(sha, q, m.members);
      RootTag(sha, m.members);
      assert Separates(sha, RootBytes(sha, m.members), []);
      assert Tag([]) == -1;
    }
    if before.Some? {
      EntryExact(sha, q, m, before.value.value, before.value.index, size, before.value.path);
    }
    if after.Some? {
      EntryExact(sha, q, m, after.value.value, after.value.index, size, after.value.path);
    }
  }

  /** What the prover makes: the member's own place and path, or the members to each
      side of where the value would be, and always the true number. */
  lemma {:induction false} ProveIs(sha: Sha, m: Membership, member: Bytes, i: nat)
    requires Valid(m) && |m.members| < 0x1_0000_0000_0000_0000 && i <= |m.members|
    requires forall j :: 0 <= j < i ==> Less(m.members[j], member)
    requires forall j :: i <= j < |m.members| ==> m.members[j] == member || Less(member, m.members[j])
    ensures var leaves, n := LeafHashes(sha, m.members), |m.members|;
      if i < n && m.members[i] == member then
        Prove(sha, m, member) == Present(i, n, InclusionProof(sha, leaves, i))
      else
        Prove(sha, m, member) ==
        Absent(if i == 0 then None else Some(Neighbour(i - 1, m.members[i - 1], InclusionProof(sha, leaves, i - 1))),
               if i == n then None else Some(Neighbour(i, m.members[i], InclusionProof(sha, leaves, i))), n)
  {
    SearchIs(m.members, member, i);
    if i < |m.members| && m.members[i] == member {
      FoundProves(sha, m, member, i);
    } else {
      InsertionProves(sha, m, member, i);
    }
  }

  lemma {:induction false} FoundProves(sha: Sha, m: Membership, member: Bytes, i: nat)
    requires Valid(m) && |m.members| < 0x1_0000_0000_0000_0000 && Search(m.members, member) == Found(i)
    ensures Prove(sha, m, member) == Present(i, |m.members|, InclusionProof(sha, LeafHashes(sha, m.members), i))
  {
  }

  lemma {:induction false} InsertionProves(sha: Sha, m: Membership, member: Bytes, i: nat)
    requires Valid(m) && |m.members| < 0x1_0000_0000_0000_0000 && Search(m.members, member) == Insertion(i)
    ensures var leaves, n := LeafHashes(sha, m.members), |m.members|;
      Prove(sha, m, member) ==
      Absent(if i == 0 then None else Some(Neighbour(i - 1, m.members[i - 1], InclusionProof(sha, leaves, i - 1))),
             if i == n then None else Some(Neighbour(i, m.members[i], InclusionProof(sha, leaves, i))), n)
  {
  }

  lemma {:induction false} SearchIs(s: seq<Bytes>, x: Bytes, i: nat)
    requires Increasing(s) && i <= |s| && forall j :: 0 <= j < i ==> Less(s[j], x)
    requires forall j :: i <= j < |s| ==> s[j] == x || Less(x, s[j])
    ensures Search(s, x) == if i < |s| && s[i] == x then Found(i) else Insertion(i)
  {
    var p := Search(s, x);
    if p.index < i {
      LessAsymmetric(s[p.index], x);
    } else if i < p.index {
      if p.Found? {
        LessAsymmetric(s[i], s[p.index]);
      } else {
        LessAsymmetric(s[i], x);
      }
    }
    if i < |s| && s[i] == x {
      assert x in s;
    }
  }

  /** So an accepted proof states the member's true position exactly when the
      turns to the index it claims are the same in the true number of members:
      no root commits to the size, and the claimed one may be wrong. */
  lemma {:induction false} PresentIndexExact(sha: Sha, q: set<Bytes>, m: Membership, member: Bytes, proof: Proof)
    requires Valid(m) && proof.Present? && Accepts(sha, member, proof, MembershipRoot(sha, m))
    requires MembershipHashedIn(sha, m, q) && ProofHashedIn(sha, member, proof, q) && CollisionFree(sha, q)
    ensures (proof.index < |m.members| && m.members[proof.index] == member)
            <==> (proof.index < |m.members| && Sides(proof.index, |m.members|) == Sides(proof.index, proof.size))
  {
    var at := ClaimPosition(sha, q, m.members, member, proof.index, proof.size, proof.path);
    if proof.index < |m.members| {
      if m.members[proof.index] == member {
        if at < proof.index {
          LessAsymmetric(m.members[at], m.members[proof.index]);
        } else if proof.index < at {
          LessAsymmetric(m.members[proof.index], m.members[at]);
        }
      } else if Sides(proof.index, |m.members|) == Sides(proof.index, proof.size) {
        SidesInjective(proof.index, at, |m.members|);
      }
    }
  }

  /** A wrong position that is accepted: the last of three members, whose place is
      the third, is also shown as the second of two. */
  lemma {:induction false} PresentIndexFree(sha: Sha, a: Bytes, b: Bytes, c: Bytes)
    requires Less(a, b) && Less(b, c)
    ensures var m := Membership([a, b, c]);
            && Valid(m) && m.members[2] == c && m.members[1] != c
            && Accepts(sha, c, Present(1, 2, [Root(sha, LeafHashes(sha, [a, b]))]), MembershipRoot(sha, m))
  {
    LessTransitive(a, b, c);
    LessIrreflexive(c);
    var leaves := LeafHashes(sha, [a, b, c]);
    var path := [Root(sha, LeafHashes(sha, [a, b]))];
    assert Split(3) == 2 && Split(2) == 1;
    assert leaves[..2] == LeafHashes(sha, [a, b]) && leaves[2..] == [LeafHash(sha, c)];
    assert |leaves| == 3 && Root(sha, leaves) == NodeHash(sha, Root(sha, leaves[..2]), Root(sha, leaves[2..]));
    assert Depth(1, 2) == 1 + Depth(0, 1) == 1;
    assert Rebuild(sha, LeafHash(sha, c), 1, 2, path) == NodeHash(sha, path[0], LeafHash(sha, c));
  }
}
