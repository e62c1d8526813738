/** Walks over a directed graph given by its neighbours.

    `next` lists a node's neighbours in order.  `nodes` is a finite set closed
    under it, which is all that is assumed: a walk over an infinite graph does
    not end. */
module Graph {
  import opened Hashing
  import opened Seqs
  import opened Wrappers

  type Id = Bytes

  type Next = Id -> seq<Id>

  ghost predicate Closed(next: Next, nodes: set<Id>) {
    forall v, w :: v in nodes && w in next(v) ==> w in nodes
  }

  // ------------------------------------------------------------------- paths

  predicate Linked(next: Next, p: seq<Id>) {
    forall i :: 0 <= i < |p| - 1 ==> p[i + 1] in next(p[i])
  }

  ghost predicate IsPath(next: Next, p: seq<Id>, a: Id, b: Id) {
    p != [] && p[0] == a && Last(p) == b && Linked(next, p)
  }

  /** `b` can be reached from `a`; every node reaches itself. */
  ghost predicate Reaches(next: Next, a: Id, b: Id) {
    exists p :: IsPath(next, p, a, b)
  }

  lemma {:induction false} ReachesSelf(next: Next, a: Id)
    ensures Reaches(next, a, a)
  {
    assert IsPath(next, [a], a, a);
  }

  lemma {:induction false} ReachesStep(next: Next, a: Id, b: Id, c: Id)
    requires Reaches(next, a, b) && c in next(b)
    ensures Reaches(next, a, c)
  {
    var p :| IsPath(next, p, a, b);
    assert IsPath(next, p + [c], a, c);
  }

  lemma {:induction false} ReachesTransitive(next: Next, a: Id, b: Id, c: Id)
    requires Reaches(next, a, b) && Reaches(next, b, c)
    ensures Reaches(next, a, c)
  {
    var p, q :| IsPath(next, p, a, b) && IsPath(next, q, b, c);
    var r := Init(p) + q;
    forall i | 0 <= i < |r| - 1 ensures r[i + 1] in next(r[i]) {
      if i + 1 < |p| {
        assert r[i] == p[i] && r[i + 1] == p[i + 1];
      } else {
        assert r[i] == q[i + 1 - |p|] && r[i + 1] == q[i + 2 - |p|];
      }
    }
    assert IsPath(next, r, a, c);
  }

  /** A set closed under `next` keeps every path that enters it. */
  lemma {:induction false} PathStays(next: Next, s: set<Id>, p: seq<Id>, i: nat)
    requires Closed(next, s) && p != [] && p[0] in s && Linked(next, p) && i < |p|
    ensures p[i] in s
  {
    if i > 0 {
      PathStays(next, s, p, i - 1);
    }
  }

  // ------------------------------------------------------- breadth-first order

  /** The nodes a breadth-first walk visits, from a queue and what was seen. */
  ghost function Bfs(next: Next, nodes: set<Id>, queue: seq<Id>, seen: set<Id>): seq<Id>
    requires Closed(next, nodes) && forall x :: x in queue ==> x in nodes
    decreases nodes - seen, |queue|
  {
    if queue == [] then []
    else if queue[0] in seen then Bfs(next, nodes, queue[1..], seen)
    else [queue[0]] + Bfs(next, nodes, queue[1..] + next(queue[0]), seen + {queue[0]})
  }

  lemma {:induction false} BfsStep(next: Next, nodes: set<Id>, queue: seq<Id>, seen: set<Id>, out: seq<Id>)
    requires Closed(next, nodes) && queue != [] && forall x :: x in queue ==> x in nodes
    ensures var c, rest := queue[0], queue[1..];
            out + Bfs(next, nodes, queue, seen)
            == if c in seen then out + Bfs(next, nodes, rest, seen)
               else (out + [c]) + Bfs(next, nodes, rest + next(c), seen + {c})
  {
  }

  method Reachable(start: Id, next: Next, ghost nodes: set<Id>) returns (out: seq<Id>)
    requires Closed(next, nodes) && start in nodes
    ensures out == Bfs(next, nodes, [start], {})
  {
    out := [];
    var seen: set<Id>, queue := {}, [start];
    while queue != []
      invariant forall x :: x in queue ==> x in nodes
      invariant out + Bfs(next, nodes, queue, seen) == Bfs(next, nodes, [start], {})
      decreases nodes - seen, |queue|
    {
      BfsStep(next, nodes, queue, seen, out);
      var current := queue[0];
      queue := queue[1..];
      if current in seen {
        continue;
      }
      seen := seen + {current};
      queue := queue + next(current);
      out := out + [current];
    }
  }

  method ReachesTarget(start: Id, target: Id, next: Next, ghost nodes: set<Id>) returns (found: bool)
    requires Closed(next, nodes) && start in nodes
    ensures found <==> target in Bfs(next, nodes, [start], {})
  {
    var seen: set<Id>, queue := {}, [start];
    while queue != []
      invariant forall x :: x in queue ==> x in nodes
      invariant target in Bfs(next, nodes, queue, seen) <==> target in Bfs(next, nodes, [start], {})
      invariant target !in seen
      decreases nodes - seen, |queue|
    {
      var current := queue[0];
      if current == target {
        return true;
      }
      queue := queue[1..];
      if current in seen {
        continue;
      }
      seen := seen + {current};
      queue := queue + next(current);
    }
    found := false;
  }

  datatype CycleThroughStart = CycleThroughStart

  /** An edge back to the start is in the queue exactly if a seen node has one. */
  ghost predicate BackQueued(next: Next, start: Id, queue: seq<Id>, seen: set<Id>) {
    start in queue <==> exists x :: x in seen && start in next(x)
  }

  lemma {:induction false} BackStep(next: Next, start: Id, queue: seq<Id>, seen: set<Id>, c: Id, rest: seq<Id>)
    requires queue == [c] + rest
    requires if c == start then seen == {} && rest == [] else BackQueued(next, start, queue, seen)
    ensures c in seen ==> BackQueued(next, start, rest, seen)
    ensures c !in seen ==> BackQueued(next, start, rest + next(c), seen + {c})
  {
    if start in next(c) {
      assert c in seen + {c};
    }
    if x :| x in seen && start in next(x) {
      assert x in seen + {c};
    }
  }

  method Closure(start: Id, next: Next, ghost nodes: set<Id>) returns (r: Result<seq<Id>, CycleThroughStart>)
    requires Closed(next, nodes) && start in nodes
    ensures r.Err? <==> exists x :: x in Bfs(next, nodes, [start], {}) && start in next(x)
    ensures r.Ok? ==> [start] + r.value == Bfs(next, nodes, [start], {})
  {
    var out: seq<Id> := [];
    var seen: set<Id>, queue, first := {}, [start], true;
    ghost var all := Bfs(next, nodes, [start], {});
    while queue != []
      invariant forall x :: x in queue ==> x in nodes
      invariant first ==> seen == {} && queue == [start] && out == []
      invariant !first ==> start in seen && ([start] + out) + Bfs(next, nodes, queue, seen) == all
      invariant forall x :: x in seen <==> !first && x in [start] + out
      invariant !first ==> BackQueued(next, start, queue, seen)
      decreases nodes - seen, |queue|
    {
      var current := queue[0];
      if current == start && !first {
        ghost var x :| x in seen && start in next(x);
        assert x in [start] + out;
        return Err(CycleThroughStart);
      }
      BfsStep(next, nodes, queue, seen, if first then [] else [start] + out);
      assert queue == [current] + queue[1..];
      BackStep(next, start, queue, seen, current, queue[1..]);
      queue := queue[1..];
      first := false;
      if current in seen {
        continue;
      }
      seen := seen + {current};
      queue := queue + next(current);
      if current != start {
        assert ([start] + out) + [current] == [start] + (out + [current]);
        out := out + [current];
      }
    }
    r := Ok(out);
  }

  // --------------------------------------------------- what the walk visits

  lemma {:induction false} BfsDistinct(next: Next, nodes: set<Id>, queue: seq<Id>, seen: set<Id>)
    requires Closed(next, nodes) && forall x :: x in queue ==> x in nodes
    ensures Distinct(Bfs(next, nodes, queue, seen))
    ensures forall x :: x in Bfs(next, nodes, queue, seen) ==> x !in seen
    decreases nodes - seen, |queue|
  {
    if queue != [] {
      var c, rest := queue[0], queue[1..];
      if c in seen {
        BfsDistinct(next, nodes, rest, seen);
      } else {
        BfsDistinct(next, nodes, rest + next(c), seen + {c});
      }
    }
  }

  /** What is visited or was seen holds the queue and is closed under `next`. */
  lemma {:induction false} BfsCloses(next: Next, nodes: set<Id>, queue: seq<Id>, seen: set<Id>)
    requires Closed(next, nodes) && forall x :: x in queue ==> x in nodes
    requires forall x, y :: x in seen && y in next(x) ==> y in seen || y in queue
    ensures var found := seen + set x | x in Bfs(next, nodes, queue, seen);
            (forall x :: x in queue ==> x in found) && Closed(next, found)
    decreases nodes - seen, |queue|
  {
    if queue != [] {
      var c, rest := queue[0], queue[1..];
      if c in seen {
        BfsCloses(next, nodes, rest, seen);
        assert queue == [c] + rest;
      } else {
        var out := Bfs(next, nodes, rest + next(c), seen + {c});
        BfsCloses(next, nodes, rest + next(c), seen + {c});
        assert queue == [c] + rest;
        assert seen + (set x | x in [c] + out) == (seen + {c}) + set x | x in out;
      }
    }
  }

  /** Everything visited is reachable from the queue. */
  lemma {:induction false} BfsSound(next: Next, nodes: set<Id>, queue: seq<Id>, seen: set<Id>, start: Id)
    requires Closed(next, nodes) && forall x :: x in queue ==> x in nodes
    requires forall x :: x in queue ==> Reaches(next, start, x)
    ensures forall x :: x in Bfs(next, nodes, queue, seen) ==> Reaches(next, start, x)
    decreases nodes - seen, |queue|
  {
    if queue != [] {
      var c, rest := queue[0], queue[1..];
      if c in seen {
        BfsSound(next, nodes, rest, seen, start);
      } else {
        forall y | y in next(c) ensures Reaches(next, start, y) {
          ReachesStep(next, start, c, y);
        }
        BfsSound(next, nodes, rest + next(c), seen + {c}, start);
      }
    }
  }

  /** The walk visits exactly the nodes reachable from its start, once each. */
  lemma {:induction false} BfsExact(next: Next, nodes: set<Id>, start: Id)
    requires Closed(next, nodes) && start in nodes
    ensures Distinct(Bfs(next, nodes, [start], {}))
    ensures forall x :: x in Bfs(next, nodes, [start], {}) <==> Reaches(next, start, x)
  {
    BfsDistinct(next, nodes, [start], {});
    BfsCloses(next, nodes, [start], {});
    ReachesSelf(next, start);
    BfsSound(next, nodes, [start], {}, start);
    var found := {} + set x | x in Bfs(next, nodes, [start], {});
    assert start in [start];
    forall x | Reaches(next, start, x) ensures x in found {
      var p :| IsPath(next, p, start, x);
      PathStays(next, found, p, |p| - 1);
    }
  }

  // ------------------------------------------------------------------ distance

  /** `x` is reached from `start` along `d` edges. */
  ghost predicate At(next: Next, start: Id, x: Id, d: nat)
    decreases d
  {
    if d == 0 then x == start else exists y :: At(next, start, y, d - 1) && x in next(y)
  }

  /** The shortest way to `x` has `d` edges. */
  ghost predicate IsDistance(next: Next, start: Id, x: Id, d: nat) {
    At(next, start, x, d) && forall e: nat :: e < d ==> !At(next, start, x, e)
  }

  /** A queue in two parts: what is left at distance `d`, and what follows. */
  ghost predicate Layered(next: Next, start: Id, near: seq<Id>, far: seq<Id>, seen: set<Id>, d: nat) {
    && (forall x :: x in near ==> At(next, start, x, d))
    && (forall x :: x in far ==> At(next, start, x, d + 1))
    && (forall x, e: nat :: e < d && At(next, start, x, e) ==> x in seen)
    && (forall x :: At(next, start, x, d) ==> x in seen || x in near)
    && (forall x, y :: x in seen && y in next(x) ==> y in seen || y in near || y in far)
  }

  lemma {:induction false} LayerAdvances(next: Next, start: Id, far: seq<Id>, seen: set<Id>, d: nat)
    requires Layered(next, start, [], far, seen, d)
    ensures Layered(next, start, far, [], seen, d + 1)
  {
    forall x | At(next, start, x, d + 1) ensures x in seen || x in far {
      var y :| At(next, start, y, d) && x in next(y);
    }
  }

  lemma {:induction false} LayerVisits(next: Next, start: Id, near: seq<Id>, far: seq<Id>, seen: set<Id>, d: nat)
    requires near != [] && Layered(next, start, near, far, seen, d)
    ensures near[0] in seen ==> Layered(next, start, near[1..], far, seen, d)
    ensures near[0] !in seen ==>
              && IsDistance(next, start, near[0], d)
              && Layered(next, start, near[1..], far + next(near[0]), seen + {near[0]}, d)
  {
    var c := near[0];
    assert near == [c] + near[1..];
    forall y | y in next(c) ensures At(next, start, y, d + 1) {
      assert At(next, start, c, d);
    }
  }

  /** Nodes are visited by non-decreasing distance from the start. */
  lemma {:induction false} BfsLayers(
      next: Next, nodes: set<Id>, near: seq<Id>, far: seq<Id>, seen: set<Id>, start: Id, d: nat)
    requires Closed(next, nodes) && forall x :: x in near + far ==> x in nodes
    requires Layered(next, start, near, far, seen, d)
    ensures var out := Bfs(next, nodes, near + far, seen);
            && (forall i, e: nat :: 0 <= i < |out| && IsDistance(next, start, out[i], e) ==> d <= e)
            && ByDistance(next, start, out)
    decreases nodes - seen, |near + far|, |far|
  {
    if near == [] {
      if far != [] {
        LayerAdvances(next, start, far, seen, d);
        assert near + far == far + [];
        BfsLayers(next, nodes, far, [], seen, start, d + 1);
      }
    } else {
      LayerVisits(next, start, near, far, seen, d);
      var c, rest := near[0], near[1..];
      assert (near + far)[1..] == rest + far;
      if c in seen {
        BfsLayers(next, nodes, rest, far, seen, start, d);
      } else {
        assert rest + (far + next(c)) == (rest + far) + next(c);
        BfsLayers(next, nodes, rest, far + next(c), seen + {c}, start, d);
        DistanceUnique(next, start, c, d);
      }
    }
  }

  ghost predicate ByDistance(next: Next, start: Id, out: seq<Id>) {
    forall i, j, e: nat, f: nat ::
      (0 <= i < j < |out| && IsDistance(next, start, out[i], e) && IsDistance(next, start, out[j], f)) ==> e <= f
  }

  lemma {:induction false} DistanceUnique(next: Next, start: Id, x: Id, d: nat)
    requires IsDistance(next, start, x, d)
    ensures forall e: nat :: IsDistance(next, start, x, e) ==> e == d
  {
  }

  lemma {:induction false} BfsByDistance(next: Next, nodes: set<Id>, start: Id)
    requires Closed(next, nodes) && start in nodes
    ensures ByDistance(next, start, Bfs(next, nodes, [start], {}))
  {
    assert [start] + [] == [start];
    BfsLayers(next, nodes, [start], [], {}, start, 0);
  }

  // -------------------------------------------------------------------- cycles

  /** Consecutive pairs are edges, and the last node is the first. */
  ghost predicate IsCycle(next: Next, c: seq<Id>) {
    |c| >= 2 && c[0] == Last(c) && Linked(next, c)
  }

  function WithEdge(next: Next, source: Id, target: Id): Next {
    x => if x == source then next(x) + [target] else next(x)
  }

  /** Paths that never leave `source` do not use the new edge. */
  lemma {:induction false} WithoutNewEdge(next: Next, source: Id, target: Id, p: seq<Id>, i: nat)
    requires Linked(WithEdge(next, source, target), p) && i <= |p|
    requires forall k :: i <= k < |p| - 1 ==> p[k] != source
    ensures Linked(next, p[i..])
  {
    forall k | 0 <= k < |p[i..]| - 1 ensures p[i..][k + 1] in next(p[i..][k]) {
      assert p[i..][k] == p[i + k] && p[i..][k + 1] == p[i + k + 1];
    }
  }

  /** A cycle read from another of its nodes. */
  lemma {:induction false} Rotate(next: Next, c: seq<Id>, i: nat) returns (r: seq<Id>)
    requires IsCycle(next, c) && i < |c| - 1
    ensures IsCycle(next, r) && r[0] == c[i]
  {
    r := c[i..] + c[1..i + 1];
    forall k | 0 <= k < |r| - 1 ensures r[k + 1] in next(r[k]) {
      if k < |c| - i - 1 {
        assert r[k] == c[i + k] && r[k + 1] == c[i + k + 1];
      } else {
        assert r[k] == c[k + i + 1 - |c|] && r[k + 1] == c[k + i + 2 - |c|];
      }
    }
  }

  /** The first return of a cycle to its start. */
  lemma {:induction false} FirstReturn(c: seq<Id>, i: nat) returns (n: nat)
    requires |c| >= 2 && c[0] == Last(c) && 0 < i < |c| && forall k :: 0 < k < i ==> c[k] != c[0]
    ensures 0 < n < |c| && c[n] == c[0] && forall k :: 0 < k < n ==> c[k] != c[0]
    decreases |c| - i
  {
    if c[i] == c[0] {
      n := i;
    } else {
      n := FirstReturn(c, i + 1);
    }
  }

  /** In an acyclic graph, a new edge closes a cycle exactly when its target
      already reaches its source. */
  lemma {:induction false} EdgeClosesCycle(next: Next, source: Id, target: Id)
    requires forall c :: !IsCycle(next, c)
    ensures (exists c :: IsCycle(WithEdge(next, source, target), c)) <==> Reaches(next, target, source)
  {
    var next' := WithEdge(next, source, target);
    if Reaches(next, target, source) {
      var p :| IsPath(next, p, target, source);
      assert IsCycle(next', p + [target]);
    }
    if c :| IsCycle(next', c) {
      NewCycleUsesEdge(next, source, target, c);
    }
  }

  /** A cycle with the new edge gives one without it, or a path back. */
  lemma {:induction false} NewCycleUsesEdge(next: Next, source: Id, target: Id, c: seq<Id>)
    requires IsCycle(WithEdge(next, source, target), c)
    ensures Reaches(next, target, source) || exists b :: IsCycle(next, b)
  {
    if forall k :: 0 <= k < |c| - 1 ==> c[k] != source {
      WithoutNewEdge(next, source, target, c, 0);
      assert c[0..] == c;
      assert IsCycle(next, c);
    } else {
      var i :| 0 <= i < |c| - 1 && c[i] == source;
      var r := Rotate(WithEdge(next, source, target), c, i);
      var n := FirstReturn(r, 1);
      LoopAtSource(next, source, target, r[..n + 1]);
    }
  }

  lemma {:induction false} LoopAtSource(next: Next, source: Id, target: Id, loop: seq<Id>)
    requires IsCycle(WithEdge(next, source, target), loop) && loop[0] == source
    requires forall k :: 0 < k < |loop| - 1 ==> loop[k] != source
    ensures Reaches(next, target, source) || exists b :: IsCycle(next, b)
  {
    var rest := loop[1..];
    WithoutNewEdge(next, source, target, loop, 1);
    if loop[1] in next(source) {
      forall k | 0 <= k < |loop| - 1 ensures loop[k + 1] in next(loop[k]) {
        if k > 0 {
          assert rest[k - 1] == loop[k] && rest[k] == loop[k + 1];
        }
      }
      assert IsCycle(next, loop);
    } else {
      assert IsPath(next, rest, target, source);
    }
  }
}
