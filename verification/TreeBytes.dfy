/** What a tree's hash is of, byte by byte, and what its paths are. */
module TreeBytes {
  import opened Hashing
  import opened Seqs
  import opened Ordering
  import opened Bits
  import opened Tree

  // --------------------------------------------------------------------- lengths

  /** Eight bytes, the lowest first: byte `i` counts how often 256 to the `i` goes in. */
  lemma {:induction false} WordAt(n: nat, i: nat)
    requires i < 8
    ensures Pow2(8 * i) > 0 && Word(n)[i] == n / Pow2(8 * i) % 256
  {
    LowAt(n, 8, i);
  }

  lemma {:induction false} LowAt(n: nat, k: nat, i: nat)
    requires i < k
    ensures Pow2(8 * i) > 0 && LittleEndian(n, k)[i] == n / Pow2(8 * i) % 256
    decreases i
  {
    if i == 0 {
      assert Pow2(0) == 1;
    } else {
      LowAt(n / 256, k - 1, i - 1);
      assert 8 * i == 8 * (i - 1) + 8;
      Pow2Add(8 * (i - 1), 8);
      assert Pow2(4) == 16;
      Pow2Add(4, 4);
      var q := n / 256 / Pow2(8 * (i - 1));
      DivTwice(n, 256, Pow2(8 * (i - 1)), Pow2(8 * i));
    }
  }

  lemma {:induction false} DivTwice(n: nat, a: nat, b: nat, c: nat)
    requires a > 0 && b > 0 && c == b * a
    ensures n / a / b == n / c
  {
    var h := n / a;
    var q, r := h / b, h % b;
    Nested(n, a, b, c, h, q, r, n % a);
    LessScaled(a, r, b, n % a);
    QuotientIs(n, c, q, a * r + n % a);
  }

  lemma {:induction false} Nested(n: nat, a: nat, b: nat, c: nat, h: nat, q: nat, r: nat, s: nat)
    requires n == a * h + s && h == b * q + r && c == b * a
    ensures n == c * q + (a * r + s)
  {
    assert a * (b * q + r) == a * (b * q) + a * r;
    assert a * (b * q) == (b * a) * q;
  }

  lemma {:induction false} LessScaled(a: nat, r: nat, b: nat, rest: nat)
    requires r < b && rest < a
    ensures a * r + rest < b * a
  {
    assert b * a == a * (b - r - 1) + a * r + a;
    assert a * (b - r - 1) >= 0;
  }

  /** A length below 256 is itself and seven zeros. */
  lemma {:induction false} ShortLength(n: nat)
    requires n < 256
    ensures Word(n) == [n, 0, 0, 0, 0, 0, 0, 0]
  {
    ZeroLow(7);
    assert n / 256 == 0 && n % 256 == n;
  }

  lemma {:induction false} ZeroLow(k: nat)
    ensures LittleEndian(0, k) == seq(k, _ => 0)
  {
    if k > 0 {
      ZeroLow(k - 1);
      assert [0] + seq(k - 1, _ => 0) == seq(k, _ => 0);
    }
  }

  // ------------------------------------------------------------------------ the hash

  lemma {:induction false} LeafHashed(sha: Sha, content: Bytes)
    ensures TreeHash(sha, Leaf(content)) == sha([0] + content)
  {
  }

  /** A child's line: how long its name is, the name, and its hash. */
  ghost predicate IsLine(sha: Sha, n: Node, name: Bytes, line: Bytes) {
    n.Branch? && name in n.children && line == Word(|name|) + name + TreeHash(sha, n.children[name])
  }

  ghost function Joined(lines: seq<Bytes>): Bytes
    decreases |lines|
  {
    if lines == [] then [] else Joined(Init(lines)) + Last(lines)
  }

  lemma {:induction false} EntriesAreLines(sha: Sha, n: Node, names: seq<Bytes>, lines: seq<Bytes>)
    requires n.Branch? && (forall k :: k in names ==> k in n.children) && |lines| == |names|
    requires forall i :: 0 <= i < |names| ==> IsLine(sha, n, names[i], lines[i])
    ensures Entries(sha, n, names) == Joined(lines)
    decreases |names|
  {
    if names != [] {
      Unsnoc(names);
      assert forall k :: k in Init(names) ==> k in n.children;
      EntriesAreLines(sha, n, Init(names), Init(lines));
      EntriesSnoc(sha, n, Init(names), Last(names));
      assert IsLine(sha, n, names[|names| - 1], lines[|lines| - 1]);
    }
  }

  /** A branch is hashed as a leaf of this content: a two, how long the header is, the
      header, and each child's line, in the order of their names. */
  lemma {:induction false} BranchHashed(sha: Sha, n: Node, names: seq<Bytes>, lines: seq<Bytes>)
    requires n.Branch? && Increasing(names) && (forall k :: k in names <==> k in n.children) && |lines| == |names|
    requires forall i :: 0 <= i < |names| ==> IsLine(sha, n, names[i], lines[i])
    ensures TreeHash(sha, n) == sha([0] + ([2] + (Word(|n.header|) + n.header) + Joined(lines)))
  {
    IncreasingUnique(names, Listing(n.children.Keys));
    EntriesAreLines(sha, n, names, lines);
  }

  /** For instance, of two children. */
  lemma {:induction false} TwoChildren(sha: Sha, header: Bytes, j: Bytes, k: Bytes, a: Node, b: Node)
    requires Less(j, k)
    ensures TreeHash(sha, Branch(header, map[j := a, k := b])) ==
            sha([0, 2] + Word(|header|) + header + Word(|j|) + j + TreeHash(sha, a) + Word(|k|) + k + TreeHash(sha, b))
  {
    LessAsymmetric(j, k);
    var n := Branch(header, map[j := a, k := b]);
    var first, second := Word(|j|) + j + TreeHash(sha, a), Word(|k|) + k + TreeHash(sha, b);
    var lines := [first, second];
    assert IsLine(sha, n, j, first) && IsLine(sha, n, k, second);
    BranchHashed(sha, n, [j, k], lines);
    JoinedTwo(first, second);
    Flatten(Word(|header|), header, Word(|j|), j, TreeHash(sha, a), Word(|k|), k, TreeHash(sha, b));
  }

  lemma {:induction false} JoinedTwo(a: Bytes, b: Bytes)
    ensures Joined([a, b]) == a + b
  {
    assert Init([a, b]) == [a] && Init([a]) == [];
    assert Joined([a]) == [] + a == a;
  }

  lemma {:induction false} Flatten(a: Bytes, b: Bytes, c: Bytes, d: Bytes, e: Bytes, f: Bytes, g: Bytes, h: Bytes)
    ensures [0] + ([2] + (a + b) + ((c + d + e) + (f + g + h))) == [0, 2] + a + b + c + d + e + f + g + h
  {
  }

  // -------------------------------------------------------------------------- paths

  /** A path is its names with a slash between each two. */
  lemma {:induction false} JoinIs(name: Bytes, next: Bytes, rest: seq<Bytes>)
    ensures Join([]) == [] && Join([name]) == name
    ensures Join([name, next] + rest) == name + [0x2f] + Join([next] + rest)
  {
    assert ([name, next] + rest)[1..] == [next] + rest;
  }

  /** A slash at the end makes no difference. */
  lemma {:induction false} FindTrailing(n: Node, names: seq<Bytes>)
    requires names != [] && forall i :: 0 <= i < |names| ==> Component(names[i])
    ensures Find(n, Join(names) + [0x2f]) == Under(n, names)
    decreases |names|
  {
    var name, rest := names[0], names[1..];
    if rest == [] {
      SplitJoined(name, []);
      assert Join(names) + [0x2f] == name + [SLASH] + [];
    } else {
      SplitJoined(name, Join(rest) + [0x2f]);
      assert Join(names) + [0x2f] == name + [SLASH] + (Join(rest) + [0x2f]);
      if n.Branch? && name in n.children {
        FindTrailing(n.children[name], rest);
      }
    }
  }
}
