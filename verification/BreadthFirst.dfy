/** The order of a breadth-first walk: nodes come as the walk meets them, taking what
    each node leads to in the order it is given. */
module BreadthFirst {
  import opened Seqs
  import opened Graph

  /** What each of `out` leads to, one after another. */
  ghost function Met(next: Next, out: seq<Id>): seq<Id>
    decreases |out|
  {
    if out == [] then [] else next(out[0]) + Met(next, out[1..])
  }

  /** `s` without what is in `seen` and without repeats, the first of each kept. */
  ghost function FirstOf(s: seq<Id>, seen: set<Id>): seq<Id>
    decreases |s|
  {
    if s == [] then []
    else if s[0] in seen then FirstOf(s[1..], seen)
    else [s[0]] + FirstOf(s[1..], seen + {s[0]})
  }

  lemma {:induction false} WalkMeets(next: Next, nodes: set<Id>, queue: seq<Id>, seen: set<Id>)
    requires Closed(next, nodes) && forall x :: x in queue ==> x in nodes
    ensures var out := Bfs(next, nodes, queue, seen); out == FirstOf(queue + Met(next, out), seen)
    decreases nodes - seen, |queue|
  {
    var out := Bfs(next, nodes, queue, seen);
    if queue == [] {
      assert queue + Met(next, out) == [];
    } else {
      var c, rest := queue[0], queue[1..];
      assert queue + Met(next, out) == [c] + (rest + Met(next, out));
      assert (queue + Met(next, out))[1..] == rest + Met(next, out);
      if c in seen {
        WalkMeets(next, nodes, rest, seen);
      } else {
        var below := Bfs(next, nodes, rest + next(c), seen + {c});
        WalkMeets(next, nodes, rest + next(c), seen + {c});
        assert out == [c] + below && out[1..] == below;
        Regroup(rest, next(c), Met(next, below));
      }
    }
  }

  /** A walk is its start, then what its first node leads to, then what its second
      does, and so on, each node where it is first met. */
  lemma {:induction false} WalkOrder(next: Next, nodes: set<Id>, start: Id)
    requires Closed(next, nodes) && start in nodes
    ensures var out := Bfs(next, nodes, [start], {});
      out != [] && out[0] == start && out == FirstOf([start] + Met(next, out), {})
  {
    WalkMeets(next, nodes, [start], {});
  }

  /** What comes first in a list comes first in what is kept of it. */
  lemma {:induction false} FirstOfHolds(s: seq<Id>, seen: set<Id>, x: Id)
    ensures x in FirstOf(s, seen) <==> x in s && x !in seen
    decreases |s|
  {
    if s != [] {
      assert s == [s[0]] + s[1..];
      if s[0] in seen {
        FirstOfHolds(s[1..], seen, x);
      } else {
        FirstOfHolds(s[1..], seen + {s[0]}, x);
      }
    }
  }
}
