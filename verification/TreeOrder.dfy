/** When the listing of a tree's leaves is in the order of their paths as text. */
module TreeOrder {
  import opened Hashing
  import opened Ordering
  import opened Tree

  /** `k` goes on where `j` ends, with a byte that sorts below a slash: so `j`'s own
      descendants sort after `k`. */
  predicate Overtakes(j: Bytes, k: Bytes) {
    |j| < |k| && k[..|j|] == j && k[|j|] < SLASH
  }

  /** There is a leaf in it: not so for a branch of empty branches. */
  ghost predicate HasLeaf(n: Node) {
    n.Leaf? || exists k :: k in n.children && HasLeaf(n.children[k])
  }

  /** No child is overtaken by another where both list something. */
  ghost predicate NoneOvertaken(n: Node) {
    n.Branch? ==> forall j, k :: j in n.children && k in n.children && Overtakes(j, k) ==>
      !(n.children[j].Branch? && HasLeaf(n.children[j]) && HasLeaf(n.children[k]))
  }

  ghost predicate Straight(n: Node) {
    NoneOvertaken(n) && (n.Branch? ==> forall k :: k in n.children ==> Straight(n.children[k]))
  }

  // ------------------------------------------------------------------ two siblings

  /** Empty, or what a slash begins. */
  predicate IsTail(x: Bytes) {
    x == [] || x[0] == SLASH
  }

  /** The order of two children carries over to all that is under them, unless the
      first has something under it and the second overtakes it. */
  lemma {:induction false} SiblingsInOrder(j: Bytes, k: Bytes, x: Bytes, y: Bytes)
    requires Less(j, k) && SLASH !in j && SLASH !in k && IsTail(x) && IsTail(y)
    ensures Less(j + x, k + y) <==> !(Overtakes(j, k) && x != [])
    decreases |j|
  {
    if j == [] {
      assert j + x == x && (k + y)[0] == k[0] && k[0] in k;
      assert k[..|j|] == j;
    } else {
      assert (j + x)[0] == j[0] && (k + y)[0] == k[0];
      assert (j + x)[1..] == j[1..] + x && (k + y)[1..] == k[1..] + y;
      assert |j| < |k| ==> k[..|j|][0] == k[0];
      if j[0] == k[0] {
        SiblingsInOrder(j[1..], k[1..], x, y);
        OvertakesRest(j, k);
      }
    }
  }

  lemma {:induction false} OvertakesRest(j: Bytes, k: Bytes)
    requires j != [] && k != [] && j[0] == k[0]
    ensures Overtakes(j, k) <==> Overtakes(j[1..], k[1..])
  {
    if |j| < |k| {
      assert k[1..][..|j| - 1] == k[..|j|][1..] && k[1..][|j| - 1] == k[|j|];
      assert j == [j[0]] + j[1..] && k[..|j|] == [k[0]] + k[..|j|][1..];
    }
  }

  lemma {:induction false} OvertakesIsLess(j: Bytes, k: Bytes)
    requires Overtakes(j, k)
    ensures Less(j, k)
    decreases |j|
  {
    if j != [] {
      assert k[..|j|][0] == j[0];
      OvertakesRest(j, k);
      OvertakesIsLess(j[1..], k[1..]);
    }
  }

  // -------------------------------------------------------------------- whole paths

  /** What follows a path's first name. */
  function Tail(p: seq<Bytes>): (r: Bytes)
    ensures IsTail(r) && (r == [] <==> p == [])
  {
    if p == [] then [] else [SLASH] + Join(p)
  }

  lemma {:induction false} JoinFirst(k: Bytes, p: seq<Bytes>)
    ensures Join([k] + p) == k + Tail(p)
  {
    assert ([k] + p)[1..] == p;
    if p != [] {
      assert k + [SLASH] + Join(p) == k + ([SLASH] + Join(p));
    }
  }

  lemma {:induction false} LessUnder(k: Bytes, x: Bytes, y: Bytes)
    ensures Less(k + x, k + y) <==> Less(x, y)
    decreases |k|
  {
    if k == [] {
      assert k + x == x && k + y == y;
    } else {
      assert (k + x)[1..] == k[1..] + x && (k + y)[1..] == k[1..] + y;
      LessUnder(k[1..], x, y);
    }
  }

  /** Under one child the order is that of the rest of the paths. */
  lemma {:induction false} SameChild(k: Bytes, a: seq<Bytes>, b: seq<Bytes>)
    requires a != [] && b != []
    ensures Less(Join([k] + a), Join([k] + b)) <==> Less(Join(a), Join(b))
  {
    JoinFirst(k, a);
    JoinFirst(k, b);
    LessUnder(k, Tail(a), Tail(b));
    LessUnder([SLASH], Join(a), Join(b));
  }

  ghost predicate TextOrder(n: Node) {
    forall p, q :: p in LeafPaths(n) && q in LeafPaths(n) && PathLess(p, q) ==> Less(Join(p), Join(q))
  }

  lemma {:induction false} LeafUnder(n: Node, p: seq<Bytes>)
    requires n.Branch?
    ensures p in LeafPaths(n) <==> p != [] && p[0] in n.children && p[1..] in LeafPaths(n.children[p[0]])
  {
    LeafPathsExact(n, p);
    if p != [] && p[0] in n.children {
      LeafPathsExact(n.children[p[0]], p[1..]);
    }
  }

  /** A leaf lists itself, by the empty path, and nothing else. */
  lemma {:induction false} EmptyPath(n: Node, p: seq<Bytes>)
    requires p in LeafPaths(n)
    ensures p == [] <==> n.Leaf?
  {
    if n.Branch? {
      LeafUnder(n, p);
    }
  }

  lemma {:induction false} LeafExists(n: Node) returns (p: seq<Bytes>)
    requires HasLeaf(n)
    ensures p in LeafPaths(n)
    decreases n
  {
    if n.Leaf? {
      p := [];
      assert LeafPaths(n)[0] == [];
    } else {
      var k :| k in n.children && HasLeaf(n.children[k]);
      var q := LeafExists(n.children[k]);
      p := [k] + q;
      assert p[1..] == q;
      LeafUnder(n, p);
    }
  }

  lemma {:induction false} PathHasLeaf(n: Node, p: seq<Bytes>)
    requires p in LeafPaths(n)
    ensures HasLeaf(n)
    decreases n
  {
    if n.Branch? {
      LeafUnder(n, p);
      PathHasLeaf(n.children[p[0]], p[1..]);
    }
  }

  /** Two leaves of a straight branch. */
  lemma {:induction false} StraightPair(n: Node, p: seq<Bytes>, q: seq<Bytes>)
    requires WellNamed(n) && Straight(n) && p in LeafPaths(n) && q in LeafPaths(n) && PathLess(p, q)
    ensures Less(Join(p), Join(q))
    decreases n
  {
    EmptyPath(n, p);
    EmptyPath(n, q);
    if n.Branch? {
      LeafUnder(n, p);
      LeafUnder(n, q);
      var j, k, a, b := p[0], q[0], p[1..], q[1..];
      assert p == [j] + a && q == [k] + b;
      EmptyPath(n.children[j], a);
      if j == k {
        LessIrreflexive(j);
        EmptyPath(n.children[k], b);
        StraightPair(n.children[j], a, b);
        SameChild(j, a, b);
      } else {
        PathHasLeaf(n.children[j], a);
        PathHasLeaf(n.children[k], b);
        JoinFirst(j, a);
        JoinFirst(k, b);
        SiblingsInOrder(j, k, Tail(a), Tail(b));
      }
    }
  }

  /** Where one child overtakes another, two leaves are out of order. */
  lemma {:induction false} OvertakenPair(n: Node, j: Bytes, k: Bytes) returns (p: seq<Bytes>, q: seq<Bytes>)
    requires WellNamed(n) && n.Branch? && j in n.children && k in n.children && Overtakes(j, k)
    requires n.children[j].Branch? && HasLeaf(n.children[j]) && HasLeaf(n.children[k])
    ensures p in LeafPaths(n) && q in LeafPaths(n) && PathLess(p, q) && !Less(Join(p), Join(q))
  {
    var a := LeafExists(n.children[j]);
    var b := LeafExists(n.children[k]);
    EmptyPath(n.children[j], a);
    p, q := [j] + a, [k] + b;
    assert p[1..] == a && q[1..] == b;
    LeafUnder(n, p);
    LeafUnder(n, q);
    OvertakesIsLess(j, k);
    JoinFirst(j, a);
    JoinFirst(k, b);
    SiblingsInOrder(j, k, Tail(a), Tail(b));
  }

  lemma {:induction false} ChildInTextOrder(n: Node, k: Bytes)
    requires n.Branch? && k in n.children && TextOrder(n)
    ensures TextOrder(n.children[k])
  {
    forall a, b | a in LeafPaths(n.children[k]) && b in LeafPaths(n.children[k]) && PathLess(a, b)
      ensures Less(Join(a), Join(b))
    {
      var p, q := [k] + a, [k] + b;
      assert p[1..] == a && q[1..] == b;
      LeafUnder(n, p);
      LeafUnder(n, q);
      assert PathLess(p, q);
      EmptyPath(n.children[k], a);
      EmptyPath(n.children[k], b);
      SameChild(k, a, b);
    }
  }

  lemma {:induction false} TextOrderIsStraight(n: Node)
    requires WellNamed(n) && TextOrder(n)
    ensures Straight(n)
    decreases n
  {
    if n.Branch? {
      forall j, k | j in n.children && k in n.children && Overtakes(j, k)
        ensures !(n.children[j].Branch? && HasLeaf(n.children[j]) && HasLeaf(n.children[k]))
      {
        if n.children[j].Branch? && HasLeaf(n.children[j]) && HasLeaf(n.children[k]) {
          var p, q := OvertakenPair(n, j, k);
        }
      }
      forall k | k in n.children ensures Straight(n.children[k]) {
        ChildInTextOrder(n, k);
        TextOrderIsStraight(n.children[k]);
      }
    }
  }

  // -------------------------------------------------------------------- the listing

  lemma {:induction false} PathLessAsymmetric(p: seq<Bytes>, q: seq<Bytes>)
    requires PathLess(p, q)
    ensures !PathLess(q, p)
  {
    if p != [] {
      if p[0] == q[0] {
        LessIrreflexive(p[0]);
        PathLessAsymmetric(p[1..], q[1..]);
      } else {
        LessAsymmetric(p[0], q[0]);
      }
    }
  }

  ghost predicate ListedInOrder(rows: seq<(Bytes, Hash)>) {
    forall a, b :: 0 <= a < b < |rows| ==> Less(rows[a].0, rows[b].0)
  }

  lemma {:induction false} RowText(sha: Sha, n: Node, i: nat)
    requires WellNamed(n) && i < |Listed(sha, n, [])|
    ensures i < |LeafPaths(n)| && Listed(sha, n, [])[i].0 == Join(LeafPaths(n)[i])
    ensures |Listed(sha, n, [])| == |LeafPaths(n)|
  {
    ListedRows(sha, n, []);
    assert IsRow(sha, n, [], LeafPaths(n)[i], Listed(sha, n, [])[i]);
    assert [] + LeafPaths(n)[i] == LeafPaths(n)[i];
  }

  lemma {:induction false} PlacesFollowPaths(n: Node, i: nat, j: nat)
    requires i < |LeafPaths(n)| && j < |LeafPaths(n)| && PathLess(LeafPaths(n)[i], LeafPaths(n)[j])
    ensures i < j
  {
    PathLessIrreflexive(LeafPaths(n)[i]);
    PathLessAsymmetric(LeafPaths(n)[i], LeafPaths(n)[j]);
    if j < i {
      PathsAt(n, j, i);
    }
  }

  lemma {:induction false} PathsAt(n: Node, i: nat, j: nat)
    requires i < j < |LeafPaths(n)|
    ensures PathLess(LeafPaths(n)[i], LeafPaths(n)[j])
  {
    LeavesInOrder(n);
  }

  /** The listing is in the order of the joined paths if and only if no branch with
      a leaf under it is overtaken by a sibling with one. */
  lemma {:induction false} InTextOrderExactly(sha: Sha, n: Node)
    requires WellNamed(n)
    ensures ListedInOrder(Listed(sha, n, [])) <==> Straight(n)
  {
    var rows, paths := Listed(sha, n, []), LeafPaths(n);
    ListedRows(sha, n, []);
    if Straight(n) {
      forall a, b | 0 <= a < b < |rows| ensures Less(rows[a].0, rows[b].0) {
        PathsAt(n, a, b);
        RowText(sha, n, a);
        RowText(sha, n, b);
        StraightPair(n, paths[a], paths[b]);
      }
    }
    if ListedInOrder(rows) {
      forall p, q | p in paths && q in paths && PathLess(p, q) ensures Less(Join(p), Join(q)) {
        var a :| 0 <= a < |paths| && paths[a] == p;
        var b :| 0 <= b < |paths| && paths[b] == q;
        PlacesFollowPaths(n, a, b);
        RowText(sha, n, a);
        RowText(sha, n, b);
      }
      TextOrderIsStraight(n);
    }
  }
}
