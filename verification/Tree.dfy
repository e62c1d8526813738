/** Trees of named, nested content, each level committing to all beneath it. */
module Tree {
  import opened Hashing
  import opened Seqs
  import opened Ordering
  import opened Wrappers

  datatype Node = Leaf(content: Bytes) | Branch(header: Bytes, children: map<Bytes, Node>)

  const BRANCH_TAG: Byte := 2

  /** The low `k` bytes of `n`, lowest first. */
  function LittleEndian(n: nat, k: nat): (r: Bytes)
    ensures |r| == k
    decreases k, n
  {
    if k == 0 then [] else [n % 256] + LittleEndian(n / 256, k - 1)
  }

  /** `n` is below 256 to the `k`. */
  predicate Fits(n: nat, k: nat)
    decreases k
  {
    if k == 0 then n == 0 else Fits(n / 256, k - 1)
  }

  lemma {:induction false} LittleEndianInjective(m: nat, n: nat, k: nat)
    requires Fits(m, k) && Fits(n, k) && LittleEndian(m, k) == LittleEndian(n, k)
    ensures m == n
    decreases k
  {
    if k > 0 {
      var a, b := LittleEndian(m, k), LittleEndian(n, k);
      assert a[0] == b[0] && a[1..] == b[1..];
      LittleEndianInjective(m / 256, n / 256, k - 1);
    }
  }

  /** Lengths are written as 64-bit words. */
  lemma {:induction false} WordsFit(n: nat)
    ensures Fits(n, 8) <==> n < 0x1_0000_0000_0000_0000
  {
    var a := n / 256;
    var b := a / 256;
    var c := b / 256;
    var d := c / 256;
    assert Fits(n, 8) == Fits(d, 4);
    assert Fits(d, 4) == (d / 256 / 256 / 256 / 256 == 0);
  }

  /** A length as 64 bits, the number of bytes not spelled out. */
  const WORD_BYTES: nat := 8

  function Word(n: nat): (r: Bytes)
    ensures |r| == 8
  {
    LittleEndian(n, WORD_BYTES)
  }

  lemma {:induction false} WordInjective(m: nat, n: nat)
    requires Fits(m, WORD_BYTES) && Fits(n, WORD_BYTES) && Word(m) == Word(n)
    ensures m == n
  {
    LittleEndianInjective(m, n, WORD_BYTES);
  }

  function Prefixed(s: Bytes): (r: Bytes)
    ensures |r| == 8 + |s|
  {
    Word(|s|) + s
  }

  // -------------------------------------------------------------------- the hash

  function TreeHash(sha: Sha, n: Node): Hash
    decreases n, 1
  {
    match n
    case Leaf(content) => LeafHash(sha, content)
    case Branch(_, _) => LeafHash(sha, Buffer(sha, n))
  }

  /** What a branch hashes: its header and each child's name and hash, in order. */
  function Buffer(sha: Sha, n: Node): (r: Bytes)
    requires n.Branch?
    ensures r != [] && r[0] == BRANCH_TAG
    decreases n, 0
  {
    [BRANCH_TAG] + Prefixed(n.header) + Entries(sha, n, Listing(n.children.Keys))
  }

  function Entries(sha: Sha, n: Node, keys: seq<Bytes>): Bytes
    requires n.Branch? && forall k :: k in keys ==> k in n.children
    decreases n, 0, |keys|
  {
    if keys == [] then []
    else
      assert keys[0] in keys;
      Prefixed(keys[0]) + TreeHash(sha, n.children[keys[0]]) + Entries(sha, n, keys[1..])
  }

  lemma {:induction false} EntriesSnoc(sha: Sha, n: Node, keys: seq<Bytes>, k: Bytes)
    requires n.Branch? && (forall j :: j in keys ==> j in n.children) && k in n.children
    ensures Entries(sha, n, keys + [k]) == Entries(sha, n, keys) + (Prefixed(k) + TreeHash(sha, n.children[k]))
    decreases |keys|
  {
    if keys == [] {
      assert keys + [k] == [k] && Entries(sha, n, [k][1..]) == [];
    } else {
      assert (keys + [k])[1..] == keys[1..] + [k];
      EntriesSnoc(sha, n, keys[1..], k);
    }
  }

  lemma {:induction false} EntriesNext(sha: Sha, n: Node, keys: seq<Bytes>, i: nat)
    requires n.Branch? && (forall k :: k in keys ==> k in n.children) && i < |keys|
    ensures keys[i] in n.children
    ensures Entries(sha, n, keys[..i + 1])
            == Entries(sha, n, keys[..i]) + (Prefixed(keys[i]) + TreeHash(sha, n.children[keys[i]]))
  {
    assert keys[i] in keys && keys[..i + 1] == keys[..i] + [keys[i]];
    EntriesSnoc(sha, n, keys[..i], keys[i]);
  }

  /** One child more of the buffer. */
  lemma {:induction false} BufferGrows(sha: Sha, n: Node, start: Bytes, keys: seq<Bytes>, i: nat, buf: Bytes)
    requires n.Branch? && (forall k :: k in keys ==> k in n.children) && i < |keys|
    requires buf == start + Entries(sha, n, keys[..i])
    ensures keys[i] in n.children
    ensures buf + Word(|keys[i]|) + keys[i] + TreeHash(sha, n.children[keys[i]])
            == start + Entries(sha, n, keys[..i + 1])
  {
    EntriesNext(sha, n, keys, i);
    var name := keys[i];
    Reassociate(start, Entries(sha, n, keys[..i]), Word(|name|), name, TreeHash(sha, n.children[name]));
  }

  lemma {:induction false} Reassociate(s: Bytes, e: Bytes, a: Bytes, b: Bytes, c: Bytes)
    ensures s + e + a + b + c == s + (e + (a + b + c))
  {
  }

  method Commit(sha: Sha, n: Node) returns (h: Hash)
    ensures h == TreeHash(sha, n)
    decreases n
  {
    match n
    case Leaf(content) => h := LeafHash(sha, content);
    case Branch(header, children) =>
      var start: Bytes := [BRANCH_TAG] + Prefixed(header);
      var buf := start;
      var keys := Listing(children.Keys);
      assert buf == start + Entries(sha, n, keys[..0]);
      for i := 0 to |keys|
        invariant buf == start + Entries(sha, n, keys[..i])
      {
        BufferGrows(sha, n, start, keys, i, buf);
        var child := Commit(sha, children[keys[i]]);
        buf := buf + Word(|keys[i]|) + keys[i] + child;
      }
      assert keys[..|keys|] == keys;
      h := LeafHash(sha, buf);
  }

  // ---------------------------------------------------------------------- binding

  /** Every length in the tree fits the word it is written in. */
  ghost predicate Measured(n: Node) {
    match n
    case Leaf(_) => true
    case Branch(header, children) =>
      Fits(|header|, WORD_BYTES) && forall k :: k in children ==> Fits(|k|, WORD_BYTES) && Measured(children[k])
  }

  /** Every string hashed for the tree is in `q`. */
  ghost predicate TreeHashedIn(sha: Sha, n: Node, q: set<Bytes>)
    decreases n
  {
    match n
    case Leaf(content) => LeafBytes(content) in q
    case Branch(_, children) =>
      LeafBytes(Buffer(sha, n)) in q && forall k :: k in children ==> TreeHashedIn(sha, children[k], q)
  }

  lemma {:induction false} SameHead(a: Bytes, b: Bytes, x: Bytes, y: Bytes)
    requires |a| == |b| && a + x == b + y
    ensures a == b && x == y
  {
    assert (a + x)[..|a|] == a && (b + y)[..|a|] == b;
    assert (a + x)[|a|..] == x && (b + y)[|a|..] == y;
  }

  lemma {:induction false} PrefixedSplits(a: Bytes, b: Bytes, x: Bytes, y: Bytes)
    requires Fits(|a|, WORD_BYTES) && Fits(|b|, WORD_BYTES) && Prefixed(a) + x == Prefixed(b) + y
    ensures a == b && x == y
  {
    Regroup(Word(|a|), a, x);
    Regroup(Word(|b|), b, y);
    SameHead(Word(|a|), Word(|b|), a + x, b + y);
    WordInjective(|a|, |b|);
    SameHead(a, b, x, y);
  }

  lemma {:induction false} EntriesFirst(sha: Sha, n: Node, keys: seq<Bytes>)
    requires n.Branch? && (forall k :: k in keys ==> k in n.children) && keys != []
    ensures keys[0] in n.children
    ensures Entries(sha, n, keys)
            == Prefixed(keys[0]) + (TreeHash(sha, n.children[keys[0]]) + Entries(sha, n, keys[1..]))
  {
    assert keys[0] in keys;
    Regroup(Prefixed(keys[0]), TreeHash(sha, n.children[keys[0]]), Entries(sha, n, keys[1..]));
  }

  lemma {:induction false} EntrySplits(j: Bytes, k: Bytes, g: Hash, h: Hash, x: Bytes, y: Bytes)
    requires Fits(|j|, WORD_BYTES) && Fits(|k|, WORD_BYTES) && Prefixed(j) + (g + x) == Prefixed(k) + (h + y)
    ensures j == k && g == h && x == y
  {
    PrefixedSplits(j, k, g + x, h + y);
    SameHead(g, h, x, y);
  }

  lemma {:induction false} EntriesStep(sha: Sha, a: Node, b: Node, ka: seq<Bytes>, kb: seq<Bytes>)
    requires a.Branch? && b.Branch? && ka != [] && kb != []
    requires forall k :: k in ka ==> k in a.children && Fits(|k|, WORD_BYTES)
    requires forall k :: k in kb ==> k in b.children && Fits(|k|, WORD_BYTES)
    requires Entries(sha, a, ka) == Entries(sha, b, kb)
    ensures ka[0] == kb[0] && ka[0] in a.children && ka[0] in b.children
    ensures TreeHash(sha, a.children[ka[0]]) == TreeHash(sha, b.children[ka[0]])
    ensures Entries(sha, a, ka[1..]) == Entries(sha, b, kb[1..])
  {
    EntriesFirst(sha, a, ka);
    EntriesFirst(sha, b, kb);
    var j, k := ka[0], kb[0];
    assert j in ka && k in kb;
    EntrySplits(j, k, TreeHash(sha, a.children[j]), TreeHash(sha, b.children[k]),
                Entries(sha, a, ka[1..]), Entries(sha, b, kb[1..]));
  }

  /** Equal entries list equal names with equal hashes. */
  lemma {:induction false} EntriesDecode(sha: Sha, a: Node, b: Node, ka: seq<Bytes>, kb: seq<Bytes>)
    requires a.Branch? && b.Branch?
    requires forall k :: k in ka ==> k in a.children && Fits(|k|, WORD_BYTES)
    requires forall k :: k in kb ==> k in b.children && Fits(|k|, WORD_BYTES)
    requires Entries(sha, a, ka) == Entries(sha, b, kb)
    ensures ka == kb && SameHashes(sha, a, b, ka)
    decreases |ka|
  {
    EntriesLong(sha, a, ka);
    EntriesLong(sha, b, kb);
    if ka != [] && kb != [] {
      EntriesStep(sha, a, b, ka, kb);
      EntriesDecode(sha, a, b, ka[1..], kb[1..]);
      SameHashesCons(sha, a, b, ka, kb);
    }
  }

  ghost predicate SameHashes(sha: Sha, a: Node, b: Node, keys: seq<Bytes>)
    requires a.Branch? && b.Branch?
  {
    forall k :: k in keys ==>
      k in a.children && k in b.children && TreeHash(sha, a.children[k]) == TreeHash(sha, b.children[k])
  }

  lemma {:induction false} SameHashesCons(sha: Sha, a: Node, b: Node, ka: seq<Bytes>, kb: seq<Bytes>)
    requires a.Branch? && b.Branch? && ka != [] && kb != [] && ka[0] == kb[0] && ka[1..] == kb[1..]
    requires SameHashes(sha, a, b, [ka[0]]) && SameHashes(sha, a, b, ka[1..])
    ensures ka == kb && SameHashes(sha, a, b, ka)
  {
    assert ka == [ka[0]] + ka[1..] && kb == [kb[0]] + kb[1..];
    assert ka[0] in [ka[0]];
  }

  lemma {:induction false} EntriesLong(sha: Sha, n: Node, keys: seq<Bytes>)
    requires n.Branch? && forall k :: k in keys ==> k in n.children
    ensures |Entries(sha, n, keys)| >= |keys|
    decreases |keys|
  {
    if keys != [] {
      assert keys[0] in keys;
      EntriesLong(sha, n, keys[1..]);
    }
  }

  lemma {:induction false} BufferSplits(sha: Sha, a: Node, b: Node)
    requires a.Branch? && b.Branch? && Fits(|a.header|, WORD_BYTES) && Fits(|b.header|, WORD_BYTES)
    requires Buffer(sha, a) == Buffer(sha, b)
    ensures a.header == b.header
    ensures Entries(sha, a, Listing(a.children.Keys)) == Entries(sha, b, Listing(b.children.Keys))
  {
    var x, y := Entries(sha, a, Listing(a.children.Keys)), Entries(sha, b, Listing(b.children.Keys));
    Regroup([BRANCH_TAG], Prefixed(a.header), x);
    Regroup([BRANCH_TAG], Prefixed(b.header), y);
    SameHead([BRANCH_TAG], [BRANCH_TAG], Prefixed(a.header) + x, Prefixed(b.header) + y);
    PrefixedSplits(a.header, b.header, x, y);
  }

  /** The buffer is uniquely decodable. */
  lemma {:induction false} BufferDecodes(sha: Sha, a: Node, b: Node)
    requires a.Branch? && b.Branch? && Measured(a) && Measured(b) && Buffer(sha, a) == Buffer(sha, b)
    ensures a.header == b.header && a.children.Keys == b.children.Keys
    ensures forall k :: k in a.children ==> TreeHash(sha, a.children[k]) == TreeHash(sha, b.children[k])
  {
    var ka, kb := Listing(a.children.Keys), Listing(b.children.Keys);
    BufferSplits(sha, a, b);
    EntriesDecode(sha, a, b, ka, kb);
    forall k ensures k in a.children <==> k in b.children {
      assert k in ka <==> k in kb;
    }
  }

  /** The same tree, but that somewhere a leaf may hold the very buffer of the
      branch in its place. */
  ghost predicate Alike(sha: Sha, a: Node, b: Node)
    decreases a
  {
    match (a, b)
    case (Leaf(x), Leaf(y)) => x == y
    case (Leaf(x), Branch(_, _)) => x == Buffer(sha, b)
    case (Branch(_, _), Leaf(y)) => Buffer(sha, a) == y
    case (Branch(h, c), Branch(i, d)) => h == i && c.Keys == d.Keys && forall k :: k in c ==> Alike(sha, c[k], d[k])
  }

  lemma {:induction false} AlikeHashes(sha: Sha, a: Node, b: Node)
    requires Alike(sha, a, b)
    ensures TreeHash(sha, a) == TreeHash(sha, b)
    decreases a
  {
    if a.Branch? && b.Branch? {
      forall k | k in a.children ensures TreeHash(sha, a.children[k]) == TreeHash(sha, b.children[k]) {
        AlikeHashes(sha, a.children[k], b.children[k]);
      }
      SameEntries(sha, a, b, Listing(a.children.Keys));
    }
  }

  lemma {:induction false} SameEntries(sha: Sha, a: Node, b: Node, keys: seq<Bytes>)
    requires a.Branch? && b.Branch? && SameHashes(sha, a, b, keys)
    ensures Entries(sha, a, keys) == Entries(sha, b, keys)
    decreases |keys|
  {
    if keys != [] {
      assert keys[0] in keys;
      SameEntries(sha, a, b, keys[1..]);
    }
  }

  /** Exactly alike trees share a hash, where no two hashed strings collide. */
  lemma {:induction false} TreeBinding(sha: Sha, q: set<Bytes>, a: Node, b: Node)
    requires CollisionFree(sha, q) && TreeHashedIn(sha, a, q) && TreeHashedIn(sha, b, q) && Measured(a) && Measured(b)
    ensures TreeHash(sha, a) == TreeHash(sha, b) <==> Alike(sha, a, b)
    decreases a
  {
    if Alike(sha, a, b) {
      AlikeHashes(sha, a, b);
    }
    if TreeHash(sha, a) == TreeHash(sha, b) {
      var x := if a.Leaf? then a.content else Buffer(sha, a);
      var y := if b.Leaf? then b.content else Buffer(sha, b);
      assert Separates(sha, LeafBytes(x), LeafBytes(y));
      LeafBytesInjective(x, y);
      if a.Branch? && b.Branch? {
        BufferDecodes(sha, a, b);
        forall k | k in a.children ensures Alike(sha, a.children[k], b.children[k]) {
          TreeBinding(sha, q, a.children[k], b.children[k]);
        }
      }
    }
  }

  /** No leaf begins as a branch's buffer does. */
  ghost predicate Unmistakable(n: Node) {
    match n
    case Leaf(content) => content == [] || content[0] != BRANCH_TAG
    case Branch(_, children) => forall k :: k in children ==> Unmistakable(children[k])
  }

  lemma {:induction false} AlikeIsEqual(sha: Sha, a: Node, b: Node)
    requires Alike(sha, a, b) && Unmistakable(a) && Unmistakable(b)
    ensures a == b
    decreases a
  {
    if a.Branch? && b.Branch? {
      forall k | k in a.children ensures a.children[k] == b.children[k] {
        AlikeIsEqual(sha, a.children[k], b.children[k]);
      }
      assert a.children == b.children;
    }
  }

  /** For trees of such leaves, equal hashes are equal trees. */
  lemma {:induction false} TreeHashCommits(sha: Sha, q: set<Bytes>, a: Node, b: Node)
    requires CollisionFree(sha, q) && TreeHashedIn(sha, a, q) && TreeHashedIn(sha, b, q) && Measured(a) && Measured(b)
    requires Unmistakable(a) && Unmistakable(b) && TreeHash(sha, a) == TreeHash(sha, b)
    ensures a == b
  {
    TreeBinding(sha, q, a, b);
    AlikeIsEqual(sha, a, b);
  }

  /** Otherwise a branch has a double, whatever the digest. */
  lemma {:induction false} LeafPosesAsBranch(sha: Sha, n: Node) returns (leaf: Node)
    requires n.Branch?
    ensures leaf != n && TreeHash(sha, leaf) == TreeHash(sha, n) && !Unmistakable(leaf)
  {
    leaf := Leaf(Buffer(sha, n));
  }

  // ----------------------------------------------------------------- paths and leaves

  const SLASH: Byte := 0x2f

  /** The text before the first slash, and after it. */
  function SplitOnce(path: Bytes): (r: (Bytes, Bytes))
    ensures path != [] ==> |r.1| < |path|
  {
    if path == [] then ([], [])
    else if path[0] == SLASH then ([], path[1..])
    else
      var (head, rest) := SplitOnce(path[1..]);
      ([path[0]] + head, rest)
  }

  function Find(n: Node, path: Bytes): Option<Node>
    decreases |path|
  {
    if path == [] then Some(n)
    else
      var (head, rest) := SplitOnce(path);
      if n.Branch? && head in n.children then Find(n.children[head], rest) else None
  }

  /** The node under a list of names. */
  function Under(n: Node, names: seq<Bytes>): Option<Node> {
    if names == [] then Some(n)
    else if n.Branch? && names[0] in n.children then Under(n.children[names[0]], names[1..])
    else None
  }

  function Join(names: seq<Bytes>): Bytes {
    if names == [] then []
    else if |names| == 1 then names[0]
    else names[0] + [SLASH] + Join(names[1..])
  }

  predicate Component(name: Bytes) {
    name != [] && SLASH !in name
  }

  ghost predicate WellNamed(n: Node) {
    n.Branch? ==> forall k :: k in n.children ==> Component(k) && WellNamed(n.children[k])
  }

  lemma {:induction false} SplitJoined(name: Bytes, rest: Bytes)
    requires SLASH !in name
    ensures SplitOnce(name) == (name, [])
    ensures SplitOnce(name + [SLASH] + rest) == (name, rest)
    decreases |name|
  {
    if name == [] {
      assert (name + [SLASH] + rest)[1..] == rest;
    } else {
      SplitJoined(name[1..], rest);
      assert (name + [SLASH] + rest)[1..] == name[1..] + [SLASH] + rest;
      assert name == [name[0]] + name[1..];
    }
  }

  /** A joined path finds what its names lead to. */
  lemma {:induction false} FindJoined(n: Node, names: seq<Bytes>)
    requires forall i :: 0 <= i < |names| ==> Component(names[i])
    ensures Find(n, Join(names)) == Under(n, names)
    decreases |names|
  {
    if names != [] {
      var rest := names[1..];
      SplitJoined(names[0], Join(rest));
      assert Join(names) != [];
      assert SplitOnce(Join(names)) == (names[0], Join(rest));
      if n.Branch? && names[0] in n.children {
        FindJoined(n.children[names[0]], rest);
      }
    }
  }

  lemma {:induction false} JoinInjective(p: seq<Bytes>, q: seq<Bytes>)
    requires (forall i :: 0 <= i < |p| ==> Component(p[i])) && forall i :: 0 <= i < |q| ==> Component(q[i])
    requires Join(p) == Join(q)
    ensures p == q
    decreases |p|
  {
    if p != [] && q != [] {
      SplitJoined(p[0], Join(p[1..]));
      SplitJoined(q[0], Join(q[1..]));
      assert SplitOnce(Join(p)) == (p[0], Join(p[1..])) && SplitOnce(Join(q)) == (q[0], Join(q[1..]));
      JoinInjective(p[1..], q[1..]);
      assert p == [p[0]] + p[1..] && q == [q[0]] + q[1..];
    }
  }

  /** A child's path, under the path so far. */
  function Extend(prefix: Bytes, name: Bytes): Bytes {
    if prefix == [] then name else prefix + [SLASH] + name
  }

  /** Every leaf's path and hash, child by child. */
  function Listed(sha: Sha, n: Node, prefix: Bytes): seq<(Bytes, Hash)>
    decreases n, 1
  {
    match n
    case Leaf(_) => [(prefix, TreeHash(sha, n))]
    case Branch(_, children) => ListedUnder(sha, n, prefix, Listing(children.Keys))
  }

  function ListedUnder(sha: Sha, n: Node, prefix: Bytes, keys: seq<Bytes>): seq<(Bytes, Hash)>
    requires n.Branch? && forall k :: k in keys ==> k in n.children
    decreases n, 0, |keys|
  {
    if keys == [] then []
    else
      Unsnoc(keys);
      ListedUnder(sha, n, prefix, Init(keys)) + Listed(sha, n.children[Last(keys)], Extend(prefix, Last(keys)))
  }

  lemma {:induction false} ListedNext(
      sha: Sha, n: Node, prefix: Bytes, keys: seq<Bytes>, i: nat, before: seq<(Bytes, Hash)>)
    requires n.Branch? && (forall k :: k in keys ==> k in n.children) && i < |keys|
    ensures keys[i] in n.children
    ensures before + ListedUnder(sha, n, prefix, keys[..i]) + Listed(sha, n.children[keys[i]], Extend(prefix, keys[i]))
            == before + ListedUnder(sha, n, prefix, keys[..i + 1])
  {
    assert keys[i] in keys && Init(keys[..i + 1]) == keys[..i];
    Regroup(before, ListedUnder(sha, n, prefix, keys[..i]), Listed(sha, n.children[keys[i]], Extend(prefix, keys[i])));
  }

  method CollectLeaves(sha: Sha, n: Node, prefix: Bytes, before: seq<(Bytes, Hash)>) returns (out: seq<(Bytes, Hash)>)
    ensures out == before + Listed(sha, n, prefix)
    decreases n
  {
    out := before;
    match n
    case Leaf(_) =>
      var h := Commit(sha, n);
      out := out + [(prefix, h)];
    case Branch(_, children) =>
      var keys := Listing(children.Keys);
      for i := 0 to |keys|
        invariant out == before + ListedUnder(sha, n, prefix, keys[..i])
      {
        ListedNext(sha, n, prefix, keys, i, before);
        out := CollectLeaves(sha, children[keys[i]], Extend(prefix, keys[i]), out);
      }
      assert keys[..|keys|] == keys;
  }

  /** Every leaf's names from the root, child by child. */
  function LeafPaths(n: Node): seq<seq<Bytes>>
    decreases n, 1
  {
    match n
    case Leaf(_) => [[]]
    case Branch(_, children) => PathsUnder(n, Listing(children.Keys))
  }

  function PathsUnder(n: Node, keys: seq<Bytes>): seq<seq<Bytes>>
    requires n.Branch? && forall k :: k in keys ==> k in n.children
    decreases n, 0, |keys|
  {
    if keys == [] then []
    else
      Unsnoc(keys);
      PathsUnder(n, Init(keys)) + Prepend(Last(keys), LeafPaths(n.children[Last(keys)]))
  }

  // ---------------------------------------------------------- what the listing says

  /** Components in turn, the shorter first. */
  predicate PathLess(p: seq<Bytes>, q: seq<Bytes>) {
    if p == [] then q != []
    else q != [] && (Less(p[0], q[0]) || (p[0] == q[0] && PathLess(p[1..], q[1..])))
  }

  ghost predicate InPathOrder(paths: seq<seq<Bytes>>) {
    forall i, j {:trigger PathLess(paths[i], paths[j])} :: 0 <= i < j < |paths| ==> PathLess(paths[i], paths[j])
  }

  lemma {:induction false} PathLessIrreflexive(p: seq<Bytes>)
    ensures !PathLess(p, p)
  {
    if p != [] {
      LessIrreflexive(p[0]);
      PathLessIrreflexive(p[1..]);
    }
  }

  lemma {:induction false} PrependOrdered(k: Bytes, paths: seq<seq<Bytes>>)
    requires InPathOrder(paths)
    ensures InPathOrder(Prepend(k, paths))
  {
    var r := Prepend(k, paths);
    forall i, j | 0 <= i < j < |r| ensures PathLess(r[i], r[j]) {
      assert r[i][1..] == paths[i] && r[j][1..] == paths[j] && PathLess(paths[i], paths[j]);
    }
  }

  lemma {:induction false} ConcatOrdered(a: seq<seq<Bytes>>, b: seq<seq<Bytes>>)
    requires InPathOrder(a) && InPathOrder(b) && forall i, j :: 0 <= i < |a| && 0 <= j < |b| ==> PathLess(a[i], b[j])
    ensures InPathOrder(a + b)
  {
    var r := a + b;
    forall i, j | 0 <= i < j < |r| ensures PathLess(r[i], r[j]) {
      if j < |a| {
        assert PathLess(a[i], a[j]);
      } else if i < |a| {
        assert PathLess(a[i], b[j - |a|]);
      } else {
        assert PathLess(b[i - |a|], b[j - |a|]);
      }
    }
  }

  /** Leaves come in the order of their names, component by component. */
  lemma {:induction false} LeavesInOrder(n: Node)
    ensures InPathOrder(LeafPaths(n))
    decreases n, 1
  {
    if n.Branch? {
      PathsInOrder(n, Listing(n.children.Keys));
    }
  }

  lemma {:induction false} PathsInOrder(n: Node, keys: seq<Bytes>)
    requires n.Branch? && Increasing(keys) && forall k :: k in keys ==> k in n.children
    ensures InPathOrder(PathsUnder(n, keys))
    ensures forall i :: 0 <= i < |PathsUnder(n, keys)| ==>
           PathsUnder(n, keys)[i] != [] && PathsUnder(n, keys)[i][0] in keys
    decreases n, 0, |keys|
  {
    if keys != [] {
      Unsnoc(keys);
      var k := Last(keys);
      PathsInOrder(n, Init(keys));
      LeavesInOrder(n.children[k]);
      var a, b := PathsUnder(n, Init(keys)), Prepend(k, LeafPaths(n.children[k]));
      PrependOrdered(k, LeafPaths(n.children[k]));
      forall i, j | 0 <= i < |a| && 0 <= j < |b| ensures PathLess(a[i], b[j]) {
        var at :| 0 <= at < |Init(keys)| && Init(keys)[at] == a[i][0];
        assert Less(keys[at], keys[|keys| - 1]);
      }
      ConcatOrdered(a, b);
    }
  }

  /** The listing holds exactly the paths at which there is a leaf, each once. */
  lemma {:induction false} LeafPathsExact(n: Node, p: seq<Bytes>)
    ensures p in LeafPaths(n) <==> Under(n, p).Some? && Under(n, p).value.Leaf?
    decreases n, 1
  {
    if n.Branch? {
      PathsUnderExact(n, Listing(n.children.Keys), p);
    } else if p in LeafPaths(n) {
      assert p == [];
    } else {
      assert LeafPaths(n)[0] == [];
    }
  }

  lemma {:induction false} PathsUnderExact(n: Node, keys: seq<Bytes>, p: seq<Bytes>)
    requires n.Branch? && forall k :: k in keys ==> k in n.children
    ensures p in PathsUnder(n, keys) <==> p != [] && p[0] in keys && Under(n, p).Some? && Under(n, p).value.Leaf?
    decreases n, 0, |keys|
  {
    if keys != [] {
      Unsnoc(keys);
      var k := Last(keys);
      PathsUnderExact(n, Init(keys), p);
      if p != [] && p[0] == k {
        LeafPathsExact(n.children[k], p[1..]);
      }
      PrependHolds(k, LeafPaths(n.children[k]), p);
    }
  }

  lemma {:induction false} LeafPathsDistinct(n: Node, i: nat, j: nat)
    requires i < j < |LeafPaths(n)|
    ensures LeafPaths(n)[i] != LeafPaths(n)[j]
  {
    LeavesInOrder(n);
    PathLessIrreflexive(LeafPaths(n)[i]);
    assert PathLess(LeafPaths(n)[i], LeafPaths(n)[j]);
  }

  /** A row of the listing. */
  ghost predicate IsRow(sha: Sha, n: Node, before: seq<Bytes>, p: seq<Bytes>, row: (Bytes, Hash)) {
    row.0 == Join(before + p) && Under(n, p).Some? && row.1 == TreeHash(sha, Under(n, p).value)
  }

  ghost predicate AreRows(sha: Sha, n: Node, before: seq<Bytes>, paths: seq<seq<Bytes>>, rows: seq<(Bytes, Hash)>) {
    |rows| == |paths| && forall i :: 0 <= i < |paths| ==> IsRow(sha, n, before, paths[i], rows[i])
  }

  lemma {:induction false} JoinExtends(before: seq<Bytes>, k: Bytes)
    requires forall i :: 0 <= i < |before| ==> Component(before[i])
    ensures Join(before + [k]) == Extend(Join(before), k)
    ensures before != [] ==> Join(before) != []
  {
    if |before| > 0 {
      assert (before + [k])[1..] == before[1..] + [k];
      JoinExtends(before[1..], k);
      if |before| > 1 {
        Regroup(before[0] + [SLASH], Join(before[1..]), [SLASH] + k);
        Regroup(Join(before[1..]), [SLASH], k);
        Regroup(Join(before), [SLASH], k);
      }
    }
  }

  lemma {:induction false} ListedRows(sha: Sha, n: Node, before: seq<Bytes>)
    requires WellNamed(n) && forall i :: 0 <= i < |before| ==> Component(before[i])
    ensures AreRows(sha, n, before, LeafPaths(n), Listed(sha, n, Join(before)))
    decreases n, 1
  {
    if n.Branch? {
      UnderRows(sha, n, before, Listing(n.children.Keys));
    } else {
      assert before + [] == before;
    }
  }

  lemma {:induction false} UnderRows(sha: Sha, n: Node, before: seq<Bytes>, keys: seq<Bytes>)
    requires n.Branch? && WellNamed(n) && forall i :: 0 <= i < |before| ==> Component(before[i])
    requires forall k :: k in keys ==> k in n.children
    ensures AreRows(sha, n, before, PathsUnder(n, keys), ListedUnder(sha, n, Join(before), keys))
    decreases n, 0, |keys|
  {
    if keys != [] {
      Unsnoc(keys);
      var k := Last(keys);
      UnderRows(sha, n, before, Init(keys));
      JoinExtends(before, k);
      ListedRows(sha, n.children[k], before + [k]);
      RowsPrepend(sha, n, before, k, LeafPaths(n.children[k]), Listed(sha, n.children[k], Extend(Join(before), k)));
    }
  }

  lemma {:induction false} RowsPrepend(
      sha: Sha, n: Node, before: seq<Bytes>, k: Bytes, paths: seq<seq<Bytes>>, rows: seq<(Bytes, Hash)>)
    requires n.Branch? && k in n.children && AreRows(sha, n.children[k], before + [k], paths, rows)
    ensures AreRows(sha, n, before, Prepend(k, paths), rows)
  {
    forall i | 0 <= i < |paths| ensures IsRow(sha, n, before, Prepend(k, paths)[i], rows[i]) {
      assert IsRow(sha, n.children[k], before + [k], paths[i], rows[i]);
      assert before + [k] + paths[i] == before + ([k] + paths[i]);
      assert ([k] + paths[i])[1..] == paths[i];
    }
  }

  lemma {:induction false} UnderNamed(n: Node, p: seq<Bytes>)
    requires WellNamed(n) && Under(n, p).Some?
    ensures forall i :: 0 <= i < |p| ==> Component(p[i])
    decreases |p|
  {
    if p != [] {
      UnderNamed(n.children[p[0]], p[1..]);
    }
  }

  /** Each listed path finds its leaf, and the hash listed is that leaf's. */
  lemma {:induction false} LeavesAreFound(sha: Sha, n: Node, i: nat)
    requires WellNamed(n) && i < |Listed(sha, n, [])|
    ensures var row := Listed(sha, n, [])[i];
      && Find(n, row.0).Some? && Find(n, row.0).value.Leaf?
      && row.1 == LeafHash(sha, Find(n, row.0).value.content)
  {
    ListedRows(sha, n, []);
    var p := LeafPaths(n)[i];
    assert [] + p == p && IsRow(sha, n, [], p, Listed(sha, n, [])[i]);
    UnderNamed(n, p);
    FindJoined(n, p);
    LeafPathsExact(n, p);
  }

  /** No two rows have one text. */
  lemma {:induction false} ListedTextsDistinct(sha: Sha, n: Node, i: nat, j: nat)
    requires WellNamed(n) && i < j < |Listed(sha, n, [])|
    ensures Listed(sha, n, [])[i].0 != Listed(sha, n, [])[j].0
  {
    ListedRows(sha, n, []);
    var p, q := LeafPaths(n)[i], LeafPaths(n)[j];
    assert [] + p == p && IsRow(sha, n, [], p, Listed(sha, n, [])[i]);
    assert [] + q == q && IsRow(sha, n, [], q, Listed(sha, n, [])[j]);
    UnderNamed(n, p);
    UnderNamed(n, q);
    LeafPathsDistinct(n, i, j);
    if Join(p) == Join(q) {
      JoinInjective(p, q);
    }
  }

  /** The order is not that of the joined paths: a name may sort below a slash. */
  lemma {:induction false} NotInTextOrder(sha: Sha) returns (n: Node, rows: seq<(Bytes, Hash)>)
    ensures WellNamed(n) && rows == Listed(sha, n, []) && |rows| == 2 && Less(rows[1].0, rows[0].0)
  {
    var a: Bytes, dashed: Bytes := [0x61], [0x61, 0x2d];
    var inner := Branch([], map[a := Leaf([])]);
    n := Branch([], map[a := inner, dashed := Leaf([])]);
    SingleListing(a);
    PairListing(a, dashed);
    rows := [([0x61, SLASH, 0x61], LeafHash(sha, [])), (dashed, LeafHash(sha, []))];
    assert n.children.Keys == {a, dashed} && inner.children.Keys == {a};
    assert Init([a]) == [] && Init([a, dashed]) == [a];
    assert inner.children[a] == Leaf([]) && Extend(a, a) == [0x61, SLASH, 0x61];
    assert ListedUnder(sha, inner, a, [a]) == Listed(sha, inner.children[a], Extend(a, a));
    assert Listed(sha, inner, a) == ListedUnder(sha, inner, a, [a]);
    assert n.children[a] == inner && n.children[dashed] == Leaf([]);
    assert ListedUnder(sha, n, [], [a]) == Listed(sha, inner, a);
    assert ListedUnder(sha, n, [], [a, dashed]) == ListedUnder(sha, n, [], [a]) + Listed(sha, Leaf([]), dashed);
    assert Listed(sha, n, []) == ListedUnder(sha, n, [], [a, dashed]);
  }

  lemma {:induction false} SingleListing(a: Bytes)
    ensures Listing({a}) == [a]
  {
    IncreasingUnique(Listing({a}), [a]);
  }

  lemma {:induction false} PairListing(a: Bytes, b: Bytes)
    requires Less(a, b)
    ensures Listing({a, b}) == [a, b]
  {
    IncreasingUnique(Listing({a, b}), [a, b]);
  }
}
