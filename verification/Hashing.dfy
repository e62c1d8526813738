/** The digest every tree here is built from, left uninterpreted.

    A digest function is a parameter `sha: Bytes -> Hash`.  It has collisions,
    since its range is finite, so "or a collision exists" would say nothing.  A
    binding theorem instead names a finite set `q` of strings that were hashed
    and assumes only that `sha` is injective on `q`: were the conclusion false,
    `q` would hold two different strings with one digest. */
module Hashing {

  type Byte = b: int | 0 <= b < 256

  type Bytes = seq<Byte>

  /** Text in ASCII, as bytes. */
  function Ascii(s: string): (b: Bytes)
    requires forall i :: 0 <= i < |s| ==> s[i] as int < 128
    ensures |b| == |s| && forall i :: 0 <= i < |s| ==> b[i] == s[i] as int
  {
    seq(|s|, i requires 0 <= i < |s| => s[i] as int)
  }

  type Hash = h: Bytes | |h| == 32 witness seq(32, _ => 0)

  type Sha = Bytes -> Hash

  /** `x` and `y` are no collision of `sha`. */
  ghost predicate Separates(sha: Sha, x: Bytes, y: Bytes) {
    sha(x) == sha(y) ==> x == y
  }

  /** `sha` has no collision among the strings in `q`. */
  ghost predicate CollisionFree(sha: Sha, q: set<Bytes>) {
    forall x, y {:trigger Separates(sha, x, y)} :: x in q && y in q ==> Separates(sha, x, y)
  }

  /** What is hashed for a leaf, and for an interior node. */
  function LeafBytes(leaf: Bytes): Bytes {
    [0x00] + leaf
  }

  function NodeBytes(left: Hash, right: Hash): Bytes {
    [0x01] + left + right
  }

  function EmptyRoot(sha: Sha): Hash {
    sha([])
  }

  function LeafHash(sha: Sha, leaf: Bytes): Hash {
    sha(LeafBytes(leaf))
  }

  function NodeHash(sha: Sha, left: Hash, right: Hash): Hash {
    sha(NodeBytes(left, right))
  }

  /** What is hashed is uniquely decodable. */
  lemma {:induction false} NodeBytesInjective(a: Hash, b: Hash, c: Hash, d: Hash)
    requires NodeBytes(a, b) == NodeBytes(c, d)
    ensures a == c && b == d
  {
    assert NodeBytes(a, b)[1..33] == a && NodeBytes(a, b)[33..] == b;
    assert NodeBytes(c, d)[1..33] == c && NodeBytes(c, d)[33..] == d;
  }

  lemma {:induction false} LeafBytesInjective(a: Bytes, b: Bytes)
    requires LeafBytes(a) == LeafBytes(b)
    ensures a == b
  {
    assert LeafBytes(a)[1..] == a && LeafBytes(b)[1..] == b;
  }

  /** Equal interior hashes have equal children, on collision-free strings. */
  lemma {:induction false} NodeHashBinds(sha: Sha, q: set<Bytes>, a: Hash, b: Hash, c: Hash, d: Hash)
    requires CollisionFree(sha, q)
    requires NodeBytes(a, b) in q && NodeBytes(c, d) in q
    requires NodeHash(sha, a, b) == NodeHash(sha, c, d)
    ensures a == c && b == d
  {
    assert Separates(sha, NodeBytes(a, b), NodeBytes(c, d));
    NodeBytesInjective(a, b, c, d);
  }
}
